# Library catalogue in Dafny

A model of the catalogue core of a small Java library-management program:
`com.library.Book`, one catalogue record, and `com.library.Library`, a named,
bounded, insertion-ordered list of Books with an id counter.

- `Books` (book.dfy) models `Book` as a class with the Java fields.
  - The setters and `borrowBook`/`returnBook` are methods that change the fields in place.
  - `View()` gives the record's value as the datatype `BookView`.
  - `Valid()` is the Book invariant every constructor establishes: positive id, trimmed non-empty title and author, year in [1000, 2024].
  - A Java constructor that throws becomes a static method returning `Result<Book>`: `Create`, and `CreateMinimal` for the three-argument overload.
- `Catalogue` (catalogue.dfy) is the catalogue as a value: a `seq<BookView>` with the stream operations (`IndexOfId`, `Filter` and the search predicates).
  - It holds the catalogue invariant `Inv`: the size is within the capacity, ids are pairwise distinct, and every id lies in `(0, nextBookId)`.
  - It holds the lemmas that each operation keeps `Inv`.
- `Libraries` (library.dfy) models `Library` as a class.
  - Its fields are `books: seq<Book>` (the `ArrayList`), `libraryName`, `maxCapacity` and `nextBookId`.
  - The ghost field `Contents` holds the values of the listed Books.
  - `Valid()` ties `Contents` to `books` element by element and requires `Inv` of it.
  - Every mutator keeps `Valid()` and states its whole new state in terms of the old one.
- `Text` (text.dfy) holds the parts of `java.lang.String` the core uses:
  - `trim` strips characters `<= ' '`;
  - `isEmpty` after `trim` is `IsBlank`;
  - `toLowerCase` is ASCII-only;
  - `contains`;
  - `Integer.toString`, with its inverse.
- `Failures` (failures.dfy) holds the exceptions as an `Error` datatype:
  - `InvalidArgument` for `IllegalArgumentException`;
  - `InvalidState` for `IllegalStateException`;
  - `NotFound` for `BookNotFoundException`;
  - `Duplicate` for `DuplicateBookException`.

  `Result`, `Outcome` and `Option` carry these errors.

Two behaviours of the code are modelled as written.
- **Year 0 is always rejected.** The three-argument constructor passes year 0, which the year check rejects, so it always fails. The documentation comment at `Book.java:169` says 0 stands for an unknown year. `Books.Book.CreateMinimal` and `Libraries.YearZeroScenario` state what the code does.
- **A rejected `addBook` still uses up an id.** The id counter is post-incremented before the Book constructor checks its arguments, so a rejected `addBook(title, author, ...)` still consumes an id. `Libraries.Library.AddBook` and `Libraries.Library.NextBook` state this.

One behaviour of the code is evidently unintended: `addBook(Book)` with id 2147483647 wraps the 32-bit counter. It is recorded under "## Findings", and the rest of the model uses the intended counter update.

## Model

| member | source | states |
|---|---|---|
| Text.Trim | src/com/library/Book.java:62-63 | the trimmed string starts and ends with a character above `' '` and is no longer than the input |
| Text.TrimIsSlice | src/com/library/Book.java:62-63 | the trim is a contiguous piece of the input with only characters `<= ' '` before and after it |
| Text.TrimUnique | src/com/library/Book.java:62-63 | any piece of the input that starts and ends above `' '` and has only characters `<= ' '` around it is the trim, so together with `TrimIsSlice` this pins `trim` down completely |
| Text.IsBlank | src/com/library/Book.java:51 | the empty string is blank, and a string whose first character is above `' '` is not |
| Text.TrimStart | src/com/library/Book.java:62 | the result is a suffix of the input, every character dropped is a space, and the result does not start with a space |
| Text.TrimEnd | src/com/library/Book.java:62 | the result is a prefix of the input, every character dropped is a space, and the result does not end with a space |
| Text.TrimIdempotent | src/com/library/Book.java:123 | trimming a trimmed value changes nothing, so storing `title.trim()` and trimming it again agree |
| Text.TrimOfTrimmed | src/com/library/Book.java:62-63 | a string that starts and ends with a non-space is its own trim |
| Text.BlankIffAllSpace | src/com/library/Book.java:51 | `s.trim().isEmpty()` holds exactly when every character of `s` is a space (both directions) |
| Text.TrimKeepsNonBlank | src/com/library/Library.java:53 | the trim of a non-blank string is non-empty and itself not blank |
| Text.Lower | src/com/library/Library.java:202-204 | lower-casing keeps the length and maps every character independently |
| Text.LowerIdempotent | src/com/library/Library.java:202-204 | lower-casing twice is lower-casing once |
| Text.TrimLower | src/com/library/Library.java:202 | trimming and lower-casing commute |
| Text.Contains | src/com/library/Library.java:204 | the empty string is contained in every string, and a contained string is no longer than its container |
| Text.ContainsSlice | src/com/library/Library.java:204 | every piece of a string, the whole included, is contained in it |
| Text.Digits | src/com/library/Book.java:262 | the digits of a natural number are a non-empty string of decimal digits, with a leading `0` only for zero itself |
| Text.Decimal | src/com/library/Book.java:303-304 | the rendering of an integer is non-empty; it starts with `-` exactly for a negative number; every later character is a digit; a non-negative number starts with a digit; there is no leading zero except in `0` itself, and none after the sign |
| Text.DigitsRoundTrip | src/com/library/Book.java:262 | reading back the digits of `n` gives `n` |
| Text.DecimalRoundTrip | src/com/library/Book.java:303-304 | reading back the rendering of any integer gives that integer |
| Text.DecimalInjective | src/com/library/Book.java:303-304 | distinct integers render differently |
| Books.AcceptedIsWellFormed | src/com/library/Book.java:46-68 | arguments that pass the constructor's checks yield a Book satisfying the Book invariant |
| Books.StoredNameIffNotBlank | src/com/library/Book.java:51-63 | for every string, passing the blank check is the same as its trim being a storable name (non-empty, trimmed) |
| Books.Book.Init | src/com/library/Book.java:61-67 | title and author are stored trimmed, isbn and category verbatim, the Book is available, and the invariant holds |
| Books.Book.Create | src/com/library/Book.java:46-68 | succeeds exactly when the id is positive, title and author are not blank and the year is in [1000, 2024]; otherwise fails with InvalidArgument; on success a fresh valid Book with the trimmed fields, available |
| Books.Book.CreateMinimal | src/com/library/Book.java:78-80 | always fails with InvalidArgument, because year 0 fails the year check |
| Books.Book.SetBookId | src/com/library/Book.java:97-102 | succeeds exactly for a positive id; on success only the id changes, on failure nothing; the Book invariant is kept |
| Books.Book.SetTitle | src/com/library/Book.java:119-124 | succeeds exactly for a non-blank title, which is stored trimmed; nothing else changes; a rejected call changes nothing; the invariant is kept |
| Books.Book.SetAuthor | src/com/library/Book.java:141-146 | as `SetTitle`, for the author |
| Books.Book.SetPublicationYear | src/com/library/Book.java:181-186 | succeeds exactly for a year in [1000, 2024]; only the year changes; the invariant is kept |
| Books.Book.SetIsbn | src/com/library/Book.java:162-164 | stores the isbn unchecked and changes nothing else |
| Books.Book.SetCategory | src/com/library/Book.java:220-222 | stores the category unchecked and changes nothing else |
| Books.Book.SetAvailable | src/com/library/Book.java:202-204 | sets the flag without the borrow/return guards and changes nothing else |
| Books.Book.BorrowBook | src/com/library/Book.java:231-237 | succeeds (with true) exactly on an available Book, which becomes borrowed; on a borrowed Book fails with InvalidState and changes nothing |
| Books.Book.ReturnBook | src/com/library/Book.java:246-252 | succeeds (with true) exactly on a borrowed Book, which becomes available; on an available Book fails with InvalidState and changes nothing |
| Books.Book.Equals | src/com/library/Book.java:279-284 | two Books are equal exactly when the other is not null and has the same id |
| Books.BorrowTwiceThenReturn | src/com/library/Book.java:231-252 | on an available Book a borrow succeeds, a second borrow fails with InvalidState, and a return succeeds and restores every field |
| Books.EqualsIsIdEquivalence | src/com/library/Book.java:279-284 | equality is reflexive, symmetric and transitive, and holds exactly for Books with the same id whatever their other fields |
| Books.EqualsAgreesWithHashCode | src/com/library/Book.java:279-294 | models `hashCode` (`Integer.hashCode(bookId)`) against `equals`: Books with the same id, whatever their other fields, hash alike |
| Books.Book.ToString | src/com/library/Book.java:302-305 | the rendering opens with `Book{ID=` and closes with `}` |
| Books.ToStringIdField | src/com/library/Book.java:302-305 | the rendering of the id sits right after `Book{ID=` and is followed by a comma |
| Books.ToStringDeterminesId | src/com/library/Book.java:302-305 | Books with the same `toString` have the same id |
| Books.ToStringShowsAvailability | src/com/library/Book.java:302-305 | `toString` ends in `Ya}` exactly for an available Book |
| Books.Book.BookInfo | src/com/library/Book.java:259-270 | the text opens with the `=== INFORMASI BUKU ===` heading line and ends with a newline |
| Books.BookInfoShowsAvailability | src/com/library/Book.java:259-270 | the last line of `getBookInfo` reads `Tersedia` exactly for an available Book |
| Books.BookInfoIsbnPlaceholder | src/com/library/Book.java:265 | a Book with an empty ISBN shows `ISBN: Tidak tersedia` as a line of `getBookInfo` |
| Books.YearPlaceholderUnreachable | src/com/library/Book.java:266 | on every valid Book the year line shows the year, never the "Tidak diketahui" placeholder |
| Catalogue.IndexOfId | src/com/library/Library.java:183-188 | the position of the first book with the id, no earlier book has it, and none exactly when no book has it |
| Catalogue.Filter | src/com/library/Library.java:249-253 | the filtered list is no longer than the list and holds exactly the books of the list that satisfy the predicate |
| Catalogue.TitleMatches | src/com/library/Library.java:202-204 | a book matches a query equal to the book's own title after trimming, and no book with a title shorter than the trimmed query matches |
| Catalogue.AuthorMatches | src/com/library/Library.java:220-222 | as `TitleMatches`, for the author |
| Catalogue.CategoryMatches | src/com/library/Library.java:238-240 | a book matches a query equal to its own category after trimming, and a matching category has exactly the length of the trimmed query |
| Catalogue.SearchQueryNormalised | src/com/library/Library.java:202-240 | lower-casing or trimming a query first changes no search result |
| Catalogue.FilterIsSubsequence | src/com/library/Library.java:249-264 | a filter keeps its books in list order |
| Catalogue.FilterPartition | src/com/library/Library.java:249-264 | a predicate and its negation split the list: the sizes add up and the two filters together are a permutation of the list |
| Catalogue.FilterAll | src/com/library/Library.java:249-253 | filtering with a predicate every book satisfies changes nothing |
| Catalogue.FoundIsOnlyMatch | src/com/library/Library.java:183-188 | under the invariant the book found for an id is the only one with it |
| Catalogue.CounterIsFresh | src/com/library/Library.java:144 | under the invariant no book has the id the counter holds |
| Catalogue.RaiseCounterKeepsInv | src/com/library/Library.java:144 | moving the counter up keeps the invariant |
| Catalogue.CounterAfterAdd | src/com/library/Library.java:171-173 | the counter after `addBook(Book)` is the least value above the added id and not below the old counter |
| Catalogue.AppendKeepsInv | src/com/library/Library.java:165-173 | appending a well-formed book with a new id below the capacity keeps the invariant once the counter is moved by `CounterAfterAdd` |
| Catalogue.Int32Add | src/com/library/Library.java:172 | Java `int` addition: the result lies in the 32-bit range, differs from the exact sum by a multiple of 2^32, and is the exact sum when that fits |
| Catalogue.CounterAfterAddAsWritten | src/com/library/Library.java:171-173 | the counter update as the source writes it, in 32-bit arithmetic; `CounterAsWrittenBelowMax` and `MaxIdWrapsCounter` state what it does |
| Catalogue.CounterAsWrittenBelowMax | src/com/library/Library.java:171-173 | for every id below 2147483647 the source's 32-bit update agrees with `CounterAfterAdd` |
| Catalogue.MaxIdWrapsCounter | src/com/library/Library.java:171-173 | storing a Book with id 2147483647 in an empty catalogue of capacity at least 2 leaves room for another Book, wraps the counter to -2147483648, breaks the invariant, and makes the next Book the six-argument `addBook` builds (id -2147483648) invalid whatever its other arguments |
| Catalogue.ClearAvailableKeepsInv | src/com/library/Library.java:391-395 | keeping the borrowed books keeps the invariant, and dropped plus kept is the whole list |
| Catalogue.ClearNoneAvailable | src/com/library/Library.java:391-395 | with no available book, clearing keeps every book and drops none |
| Catalogue.SetAvailableKeepsInv | src/com/library/Library.java:284 | changing one book's availability keeps the invariant |
| Catalogue.RemoveKeepsInv | src/com/library/Library.java:328 | removing one book keeps the invariant |
| Catalogue.FilterKeepsInv | src/com/library/Library.java:393 | any filter of a catalogue satisfying the invariant satisfies it |
| Catalogue.SearchByOwnTitleFinds | src/com/library/Library.java:197-206 | searching by a stored book's own title finds that book |
| Catalogue.SearchByOwnAuthorFinds | src/com/library/Library.java:215-224 | searching by a stored book's own author finds that book |
| Libraries.Views | src/com/library/Library.java:30 | the values of a list of Books, one per Book, in order |
| Libraries.ViewsConcat | src/com/library/Library.java:145 | the values of a concatenation are the concatenation of the values |
| Libraries.Select | src/com/library/Library.java:249-264 | every Book kept is in the list and satisfies the predicate, and every Book of the list that satisfies it is kept |
| Libraries.SelectViews | src/com/library/Library.java:249-264 | selecting Books and filtering their values agree, element by element and in order |
| Libraries.FirstWithId | src/com/library/Library.java:183-188 | null exactly when no Book has the id, otherwise the Book at the first position with it |
| Libraries.Library.ContentsAreViews | src/com/library/Library.java:30 | under the invariant the catalogue's value is the values of its Books |
| Libraries.Library.DistinctObjects | src/com/library/Library.java:165-167 | under the invariant distinct positions hold distinct Books |
| Libraries.Library.Init | src/com/library/Library.java:53-56 | the name is stored, the list is empty, the counter is 1 and the invariant holds |
| Libraries.Library.Create | src/com/library/Library.java:45-57 | succeeds exactly for a non-blank name and a positive capacity, otherwise InvalidArgument; on success a fresh valid, empty catalogue with the trimmed name and counter 1 |
| Libraries.Library.CreateWithDefaultCapacity | src/com/library/Library.java:64-66 | as `Create` with capacity 1000 |
| Libraries.Library.SetLibraryName | src/com/library/Library.java:83-88 | succeeds exactly for a non-blank name, which is stored trimmed; a rejected call changes nothing; the invariant is kept |
| Libraries.Library.TotalBooks | src/com/library/Library.java:104-106 | the number of Books in the catalogue |
| Libraries.Library.IsFull | src/com/library/Library.java:122-124 | under the invariant the catalogue is full exactly when it holds its capacity |
| Libraries.Library.IsEmpty | src/com/library/Library.java:345-347 | empty exactly when the catalogue holds no Book |
| Libraries.Library.AvailableBooks | src/com/library/Library.java:113-115 | the number of available Books, at most the total |
| Libraries.Library.AvailableBooksList | src/com/library/Library.java:249-253 | exactly the available Books of the list, in list order |
| Libraries.Library.BorrowedBooks | src/com/library/Library.java:260-264 | exactly the borrowed Books of the list, in list order |
| Libraries.Library.AllBooks | src/com/library/Library.java:336-338 | the Books of the catalogue, in order, whose values are the catalogue's value |
| Libraries.Library.FindBookById | src/com/library/Library.java:183-188 | null exactly when no Book has the id, otherwise the first Book with it, which has that id |
| Libraries.Library.FindBooksByTitle | src/com/library/Library.java:197-206 | fails exactly on a blank query; otherwise exactly the Books whose lower-cased title contains the trimmed, lower-cased query, in list order |
| Libraries.Library.FindBooksByAuthor | src/com/library/Library.java:215-224 | as `FindBooksByTitle`, for the author |
| Libraries.Library.FindBooksByCategory | src/com/library/Library.java:233-242 | fails exactly on a blank query; otherwise exactly the Books whose lower-cased category equals the trimmed, lower-cased query, in list order |
| Libraries.Library.AddBook | src/com/library/Library.java:138-147 | when full: InvalidState, nothing changes; otherwise the counter goes up by one; a rejected Book leaves the list alone (InvalidArgument); an accepted one is appended with the old counter as its id, trimmed title and author, available; the invariant is kept |
| Libraries.Library.NextBook | src/com/library/Library.java:144 | the counter goes up by one whatever happens; a Book is built exactly when the arguments pass the Book checks, with the old counter as its id, which no listed Book has |
| Libraries.Library.AddExistingBook | src/com/library/Library.java:158-175 | null, then full, then a duplicate id fail (InvalidArgument, InvalidState, Duplicate) and change nothing; otherwise the Book is appended and the counter becomes `CounterAfterAdd` of itself and the id; the invariant is kept |
| Libraries.Library.Append | src/com/library/Library.java:169-173 | the Book goes at the end, the counter becomes `CounterAfterAdd` of itself and the Book's id, and the invariant is kept |
| Libraries.Library.BorrowBook | src/com/library/Library.java:274-286 | NotFound for an absent id, InvalidState for a borrowed Book, and nothing changes; otherwise exactly that Book becomes borrowed and is returned; list and counter unchanged |
| Libraries.Library.ReturnBook | src/com/library/Library.java:296-308 | NotFound for an absent id, InvalidState for an available Book, and nothing changes; otherwise exactly that Book becomes available and is returned |
| Libraries.Library.RemoveBook | src/com/library/Library.java:318-329 | NotFound for an absent id, InvalidState for a borrowed Book, and nothing changes; otherwise exactly that Book is removed, the others keep their order, and the counter stays |
| Libraries.Library.RemoveAt | src/com/library/Library.java:328 | the Book at the position is removed and the others keep their order; the invariant is kept |
| Libraries.Library.FirstIndexOf | src/com/library/Library.java:328 | `List.remove` finds the first position holding a Book equal to (same id as) the given one |
| Libraries.Library.ClearAvailableBooks | src/com/library/Library.java:391-395 | exactly the borrowed Books remain, in order; the result is the number of Books that were available, which with the remaining ones makes up the old total; with no available Book it returns 0 and the catalogue's value is unchanged |
| Libraries.Library.RemoveAvailable | src/com/library/Library.java:393 | `removeIf(isAvailable)` keeps exactly the borrowed Books, in order, and keeps the invariant |
| Libraries.AvailablePlusBorrowed | src/com/library/Library.java:369 | available and borrowed Books make up the total, so total minus available is the number borrowed |
| Libraries.FindByIdIsUnique | src/com/library/Library.java:183-188 | in a valid catalogue searching for a listed Book's id finds that Book |
| Libraries.YearZeroScenario | src/com/library/Library.java:138-147 | adding a Book with year 0 fails with InvalidArgument and uses up id 1, so the next accepted Book gets id 2 |
| Libraries.CapacityScenario | src/com/library/Library.java:140-142 | a catalogue of capacity 2 refuses a third Book with InvalidState and keeps two Books and counter 3 |

## Left out

- Console I/O, the menu loop and user-input parsing of the program's manager class are not part of this model. Its five seeded books are not replayed.
- `getCapacityUsagePercentage` and the `%.1f%%` line of `getLibraryStatistics` use floating-point arithmetic and formatting. They are not modelled.
- The per-category section of `getLibraryStatistics` groups by category into a hash map iterated in unspecified order. It is not modelled. The total, available and borrowed figures are stated by `Libraries.AvailablePlusBorrowed`.
- `Library.toString` is not modelled. It is a format of the name and the counts already specified.
- `Book.toString` and `getBookInfo` are modelled as text functions whose shape the lemmas state.
- `Books.Book.Equals`: the parameter is a `Book?`, so the `false` that Java's `equals(Object)` returns for an argument of another class, or of a subclass of `Book` with the same id (the `getClass()` test at `Book.java:281`), is not modelled. No operation of the core compares a Book with anything else.
- Exception messages, exception causes and the exception classes' id fields are not modelled. Only the kind of failure is kept.
- Java `null` strings are not modelled. With them go the code's null checks on strings, each of which throws IllegalArgumentException:
  - the Book's title and author (`Book.java:51`, `Book.java:54`, `Book.java:120`, `Book.java:142`);
  - the library name (`Library.java:46`, `Library.java:84`);
  - the search queries (`Library.java:198`, `Library.java:216`, `Library.java:234`).

  The NullPointerException paths null strings trigger (a null isbn in `getBookInfo`, a null category in `findBooksByCategory`) go too. The one null check on an object, the `Book` passed to `addBook(Book)`, is modelled.
- `toLowerCase` is modelled on ASCII letters only. Unicode and locale case mapping are not modelled.
- `Libraries.Library.AddBook`: the counter is an unbounded integer, so the 32-bit wrap-around of `nextBookId++` is not modelled. Since a rejected Book also advances the counter, it wraps after 2^31 - 1 calls that get past the capacity check, accepted or not.
- `Libraries.Library.AddExistingBook`: requires the given Book to satisfy the Book invariant. Every Book the constructor returns does, and every setter is proved to keep it, so every Book reachable through the Java API qualifies. Only Dafny code that writes a Book's public fields directly is not covered.
- `Libraries.Library.AddExistingBook`: ids and the counter are unbounded integers. The source's counter update wraps in a single call when the added id is 2147483647; that is recorded under "## Findings", and the model uses the intended update `Catalogue.CounterAfterAdd`.
- `Text.Decimal`: `%d` in `Book.toString` is formatted by `java.util.Formatter` with the default locale. The model assumes a locale whose digits are the ASCII ones.
- Aliasing is not modelled. `findBookById` and the search results hand out live Books, and a caller's `setBookId` on one of them could break the catalogue's id uniqueness. The model treats the catalogue as owning its Books: mutators may change only the catalogue and its listed Books.
- Java constructors that throw are modelled as static methods (`Create`, `CreateMinimal`, `CreateWithDefaultCapacity`) returning a `Result`, around a constructor `Init` that requires checked arguments.

## Findings

| source | as written | input that shows it | evidently intended | confidence | as-written member | corrected member |
|---|---|---|---|---|---|---|
| src/com/library/Library.java:171-173 | `nextBookId = book.getBookId() + 1` in 32-bit `int` arithmetic | `addBook(b)` on an empty catalogue of capacity at least 2 (for example `new Library(name)`, capacity 1000), where `b` has id 2147483647: the counter becomes -2147483648, the stored id is no longer below it, and each of the next 2^31 + 1 calls of `addBook(title, ...)` throws IllegalArgumentException for a non-positive id while still advancing the counter | the counter stays above every stored id | not executed; high (the arithmetic follows from the Java language's `int` overflow rule) | Catalogue.MaxIdWrapsCounter | Catalogue.CounterAfterAdd |
