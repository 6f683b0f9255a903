/** The catalogue (`com.library.Library`): a named, bounded, insertion-ordered
    list of Books it owns, and a counter that hands out ids. */
module Libraries {
  import opened Failures
  import opened Text
  import opened Books
  import opened Catalogue

  /** The capacity the one-argument constructor supplies. */
  const DefaultCapacity := 1000

  /** The values of a list of Books, element by element. */
  function Views(bs: seq<Book>): (r: seq<BookView>)
    reads bs
    ensures |r| == |bs|
    ensures forall i :: 0 <= i < |bs| ==> r[i] == bs[i].View()
  {
    if bs == [] then [] else [bs[0].View()] + Views(bs[1..])
  }

  lemma ViewsConcat(a: seq<Book>, b: seq<Book>)
    ensures Views(a + b) == Views(a) + Views(b)
  {
    var l, r := Views(a + b), Views(a) + Views(b);
    assert |l| == |r|;
    forall i | 0 <= i < |l| ensures l[i] == r[i] {
      if i < |a| {
        assert (a + b)[i] == a[i];
      } else {
        assert (a + b)[i] == b[i - |a|];
      }
    }
  }

  /** A stream filter over the Books themselves: the Books of `bs` whose
      values satisfy `p`, in list order. */
  function Select(bs: seq<Book>, p: BookView -> bool): (r: seq<Book>)
    reads bs
    ensures forall i :: 0 <= i < |r| ==> r[i] in bs && p(r[i].View())
    ensures forall i :: 0 <= i < |bs| && p(bs[i].View()) ==> bs[i] in r
  {
    if bs == [] then []
    else
      var rest := Select(bs[1..], p);
      if p(bs[0].View()) then [bs[0]] + rest else rest
  }

  /** Selecting Books and filtering their values agree: the same books, in
      the same order. */
  lemma {:induction false} SelectViews(bs: seq<Book>, p: BookView -> bool)
    ensures Views(Select(bs, p)) == Filter(Views(bs), p)
  {
    if bs != [] {
      SelectViews(bs[1..], p);
      var vs := Views(bs);
      assert vs[1..] == Views(bs[1..]);
      var rest := Select(bs[1..], p);
      if p(bs[0].View()) {
        assert Select(bs, p) == [bs[0]] + rest;
        ViewsConcat([bs[0]], rest);
        assert Filter(vs, p) == [vs[0]] + Filter(vs[1..], p);
      } else {
        assert Select(bs, p) == rest;
        assert Filter(vs, p) == Filter(vs[1..], p);
      }
    }
  }

  /** The first Book with the given id, or null. */
  function FirstWithId(bs: seq<Book>, id: int): (r: Book?)
    reads bs
    ensures r == null <==> IndexOfId(Views(bs), id).None?
    ensures r != null ==> r == bs[IndexOfId(Views(bs), id).value]
  {
    if bs == [] then null
    else
      assert Views(bs)[1..] == Views(bs[1..]);
      if bs[0].bookId == id then bs[0] else FirstWithId(bs[1..], id)
  }

  class Library {
    var libraryName: string
    var books: seq<Book>
    var maxCapacity: int
    var nextBookId: int

    /** The catalogue's value: the fields of `books`, in list order. */
    ghost var Contents: seq<BookView>

    ghost predicate Valid()
      reads this, books
    {
      StoredName(libraryName) && 0 < maxCapacity
      && |Contents| == |books|
      && (forall i :: 0 <= i < |books| ==> Contents[i] == books[i].View())
      && Inv(Contents, maxCapacity, nextBookId)
    }

    lemma ContentsAreViews()
      requires Valid()
      ensures Contents == Views(books)
    {
    }

    /** Distinct positions of a valid catalogue hold distinct objects. */
    lemma DistinctObjects(k: int)
      requires Valid() && 0 <= k < |books|
      ensures forall j :: 0 <= j < |books| && j != k ==> books[j] != books[k]
    {
      forall j | 0 <= j < |books| && j != k ensures books[j] != books[k] {
        assert Contents[j].id != Contents[k].id;
      }
    }

    /** The body of the two-argument constructor once its checks passed and
        the name was trimmed. */
    constructor Init(name: string, capacity: int)
      requires StoredName(name) && capacity > 0
      ensures Valid()
      ensures libraryName == name && maxCapacity == capacity
      ensures books == [] && Contents == [] && nextBookId == 1
    {
      libraryName := name;
      maxCapacity := capacity;
      books := [];
      nextBookId := 1;
      Contents := [];
    }

    /** `new Library(name, capacity)`. */
    static method Create(name: string, capacity: int) returns (r: Result<Library>)
      ensures r.Ok? <==> !IsBlank(name) && capacity > 0
      ensures r.Err? ==> r.error == InvalidArgument
      ensures r.Ok? ==> fresh(r.value) && r.value.Valid()
      ensures r.Ok? ==> r.value.libraryName == Trim(name) && r.value.maxCapacity == capacity
      ensures r.Ok? ==> r.value.books == [] && r.value.Contents == [] && r.value.nextBookId == 1
    {
      if IsBlank(name) || capacity <= 0 {
        return Err(InvalidArgument);
      }
      TrimKeepsNonBlank(name);
      var lib := new Library.Init(Trim(name), capacity);
      r := Ok(lib);
    }

    /** `new Library(name)`: capacity 1000. */
    static method CreateWithDefaultCapacity(name: string) returns (r: Result<Library>)
      ensures r.Ok? <==> !IsBlank(name)
      ensures r.Err? ==> r.error == InvalidArgument
      ensures r.Ok? ==> fresh(r.value) && r.value.Valid()
      ensures r.Ok? ==> r.value.libraryName == Trim(name) && r.value.maxCapacity == DefaultCapacity
      ensures r.Ok? ==> r.value.books == [] && r.value.Contents == [] && r.value.nextBookId == 1
    {
      r := Create(name, DefaultCapacity);
    }

    method SetLibraryName(name: string) returns (r: Outcome)
      requires Valid()
      modifies this`libraryName
      ensures Valid()
      ensures r.Pass? <==> !IsBlank(name)
      ensures r.Fail? ==> r.error == InvalidArgument
      ensures libraryName == if r.Pass? then Trim(name) else old(libraryName)
    {
      if IsBlank(name) {
        return Fail(InvalidArgument);
      }
      TrimKeepsNonBlank(name);
      var trimmed := Trim(name);
      assert StoredName(trimmed);
      libraryName := trimmed;
      r := Pass;
    }

    function TotalBooks(): (n: nat)
      reads this, books
      requires Valid()
      ensures n == |Contents|
    {
      |books|
    }

    /** Under the invariant a full catalogue holds exactly its capacity. */
    function IsFull(): (r: bool)
      reads this, books
      requires Valid()
      ensures r <==> |Contents| == maxCapacity
    {
      |books| >= maxCapacity
    }

    function IsEmpty(): (r: bool)
      reads this, books
      requires Valid()
      ensures r <==> Contents == []
    {
      |books| == 0
    }

    /** `getAvailableBooks`: how many Books are available. */
    function AvailableBooks(): (n: nat)
      reads this, books
      requires Valid()
      ensures n == |Filter(Contents, IsAvailable)|
      ensures n <= TotalBooks()
    {
      ContentsAreViews();
      SelectViews(books, IsAvailable);
      |Select(books, IsAvailable)|
    }

    function AvailableBooksList(): (r: seq<Book>)
      reads this, books
      requires Valid()
      ensures forall i :: 0 <= i < |r| ==> r[i] in books && r[i].isAvailable
      ensures forall i :: 0 <= i < |books| && books[i].isAvailable ==> books[i] in r
      ensures Views(r) == Filter(Contents, IsAvailable)
    {
      ContentsAreViews();
      SelectViews(books, IsAvailable);
      Select(books, IsAvailable)
    }

    function BorrowedBooks(): (r: seq<Book>)
      reads this, books
      requires Valid()
      ensures forall i :: 0 <= i < |r| ==> r[i] in books && !r[i].isAvailable
      ensures forall i :: 0 <= i < |books| && !books[i].isAvailable ==> books[i] in r
      ensures Views(r) == Filter(Contents, IsBorrowed)
    {
      ContentsAreViews();
      SelectViews(books, IsBorrowed);
      Select(books, IsBorrowed)
    }

    /** `getAllBooks`: the Books in list order. A Dafny sequence is a value,
        so the caller's copy is independent of the catalogue's list. */
    function AllBooks(): (r: seq<Book>)
      reads this, books
      requires Valid()
      ensures r == books
      ensures Views(r) == Contents
    {
      ContentsAreViews();
      books
    }

    function FindBookById(id: int): (r: Book?)
      reads this, books
      requires Valid()
      ensures r == null <==> IndexOfId(Contents, id).None?
      ensures r != null ==> r.bookId == id && r == books[IndexOfId(Contents, id).value]
    {
      ContentsAreViews();
      FirstWithId(books, id)
    }

    /** Fails on a query that is blank; otherwise the Books whose lower-cased
        title contains the trimmed, lower-cased query, in list order. */
    function FindBooksByTitle(query: string): (r: Result<seq<Book>>)
      reads this, books
      requires Valid()
      ensures r.Err? <==> IsBlank(query)
      ensures r.Err? ==> r.error == InvalidArgument
      ensures r.Ok? ==> forall i :: 0 <= i < |r.value| ==> r.value[i] in books && TitleMatches(query)(r.value[i].View())
      ensures r.Ok? ==> forall i :: 0 <= i < |books| && TitleMatches(query)(books[i].View()) ==> books[i] in r.value
      ensures r.Ok? ==> Views(r.value) == Filter(Contents, TitleMatches(query))
    {
      ContentsAreViews();
      SelectViews(books, TitleMatches(query));
      if IsBlank(query) then Err(InvalidArgument) else Ok(Select(books, TitleMatches(query)))
    }

    function FindBooksByAuthor(query: string): (r: Result<seq<Book>>)
      reads this, books
      requires Valid()
      ensures r.Err? <==> IsBlank(query)
      ensures r.Err? ==> r.error == InvalidArgument
      ensures r.Ok? ==> forall i :: 0 <= i < |r.value| ==> r.value[i] in books && AuthorMatches(query)(r.value[i].View())
      ensures r.Ok? ==> forall i :: 0 <= i < |books| && AuthorMatches(query)(books[i].View()) ==> books[i] in r.value
      ensures r.Ok? ==> Views(r.value) == Filter(Contents, AuthorMatches(query))
    {
      ContentsAreViews();
      SelectViews(books, AuthorMatches(query));
      if IsBlank(query) then Err(InvalidArgument) else Ok(Select(books, AuthorMatches(query)))
    }

    /** Fails on a blank query; otherwise the Books whose lower-cased
        category equals the trimmed, lower-cased query, in list order. */
    function FindBooksByCategory(query: string): (r: Result<seq<Book>>)
      reads this, books
      requires Valid()
      ensures r.Err? <==> IsBlank(query)
      ensures r.Err? ==> r.error == InvalidArgument
      ensures r.Ok? ==> forall i :: 0 <= i < |r.value| ==> r.value[i] in books && CategoryMatches(query)(r.value[i].View())
      ensures r.Ok? ==> forall i :: 0 <= i < |books| && CategoryMatches(query)(books[i].View()) ==> books[i] in r.value
      ensures r.Ok? ==> Views(r.value) == Filter(Contents, CategoryMatches(query))
    {
      ContentsAreViews();
      SelectViews(books, CategoryMatches(query));
      if IsBlank(query) then Err(InvalidArgument) else Ok(Select(books, CategoryMatches(query)))
    }

    /** `addBook(title, author, isbn, year, category)`. When the catalogue is
        not full the counter is advanced before the Book's arguments are
        checked, so a rejected Book still uses up an id. */
    method AddBook(title: string, author: string, isbn: string, year: int, category: string)
      returns (r: Result<Book>)
      requires Valid()
      modifies this
      ensures Valid()
      ensures libraryName == old(libraryName) && maxCapacity == old(maxCapacity)
      ensures old(|Contents|) >= maxCapacity ==>
        r == Err(InvalidState) && books == old(books) && Contents == old(Contents)
        && nextBookId == old(nextBookId)
      ensures old(|Contents|) < maxCapacity ==> nextBookId == old(nextBookId) + 1
      ensures old(|Contents|) < maxCapacity && !Accepted(old(nextBookId), title, author, year) ==>
        r == Err(InvalidArgument) && books == old(books) && Contents == old(Contents)
      ensures old(|Contents|) < maxCapacity && Accepted(old(nextBookId), title, author, year) ==>
        r.Ok? && fresh(r.value) && books == old(books) + [r.value]
        && Contents == old(Contents)
           + [BookView(old(nextBookId), Trim(title), Trim(author), isbn, year, category, true)]
    {
      if IsFull() {
        return Err(InvalidState);
      }
      r := NextBook(title, author, isbn, year, category);
      if r.Ok? {
        Append(r.value);
      }
    }

    /** `new Book(nextBookId++, ...)`: the counter moves on whether or not
        the Book's arguments are accepted, and an accepted Book gets an id
        no Book of the catalogue has. */
    method NextBook(title: string, author: string, isbn: string, year: int, category: string)
      returns (r: Result<Book>)
      requires Valid()
      modifies this`nextBookId
      ensures Valid()
      ensures nextBookId == old(nextBookId) + 1
      ensures r.Ok? <==> Accepted(old(nextBookId), title, author, year)
      ensures r.Err? ==> r.error == InvalidArgument
      ensures r.Ok? ==> fresh(r.value) && r.value.Valid() && IndexOfId(Contents, r.value.bookId).None?
      ensures r.Ok? ==>
        r.value.View() == BookView(old(nextBookId), Trim(title), Trim(author), isbn, year, category, true)
    {
      var id := nextBookId;
      CounterIsFresh(Contents, maxCapacity, id);
      RaiseCounterKeepsInv(Contents, maxCapacity, id, id + 1);
      nextBookId := id + 1;
      r := Book.Create(id, title, author, isbn, year, category);
    }

    /** `addBook(book)`: null, then full, then a duplicate id are refused, in
        that order; otherwise the Book goes at the end and the counter moves
        past its id. The Book is assumed to satisfy the Book invariant, as
        every constructed Book does. */
    method AddExistingBook(b: Book?) returns (r: Result<bool>)
      requires Valid()
      requires b != null ==> b.Valid()
      modifies this
      ensures Valid()
      ensures libraryName == old(libraryName) && maxCapacity == old(maxCapacity)
      ensures b == null ==> r == Err(InvalidArgument)
      ensures b != null && old(|Contents|) >= maxCapacity ==> r == Err(InvalidState)
      ensures b != null && old(|Contents|) < maxCapacity && IndexOfId(old(Contents), b.bookId).Some? ==>
        r == Err(Duplicate)
      ensures r.Ok? <==> b != null && old(|Contents|) < maxCapacity && IndexOfId(old(Contents), b.bookId).None?
      ensures r.Err? ==> books == old(books) && Contents == old(Contents) && nextBookId == old(nextBookId)
      ensures r.Ok? ==> r.value && books == old(books) + [b] && Contents == old(Contents) + [b.View()]
      ensures r.Ok? ==> nextBookId == CounterAfterAdd(old(nextBookId), b.bookId)
    {
      if b == null {
        return Err(InvalidArgument);
      }
      if IsFull() {
        return Err(InvalidState);
      }
      if FindBookById(b.bookId) != null {
        return Err(Duplicate);
      }
      Append(b);
      r := Ok(true);
    }

    /** The common tail of both `addBook` overloads: `b` goes at the end and
        the counter moves past its id. */
    method Append(b: Book)
      requires Valid() && b.Valid() && |Contents| < maxCapacity
      requires IndexOfId(Contents, b.bookId).None?
      modifies this
      ensures Valid()
      ensures libraryName == old(libraryName) && maxCapacity == old(maxCapacity)
      ensures books == old(books) + [b] && Contents == old(Contents) + [b.View()]
      ensures nextBookId == CounterAfterAdd(old(nextBookId), b.bookId)
    {
      var next := CounterAfterAdd(nextBookId, b.bookId);
      AppendKeepsInv(Contents, maxCapacity, nextBookId, b.View());
      books := books + [b];
      Contents := Contents + [b.View()];
      nextBookId := next;
    }

    /** `borrowBook(id)`: NotFound for an absent id, InvalidState for a
        borrowed Book; otherwise that Book alone becomes borrowed. */
    method BorrowBook(id: int) returns (r: Result<Book>)
      requires Valid()
      modifies this, books
      ensures Valid()
      ensures libraryName == old(libraryName) && maxCapacity == old(maxCapacity)
      ensures books == old(books) && nextBookId == old(nextBookId)
      ensures var k := IndexOfId(old(Contents), id);
        if k.None? then r == Err(NotFound) && Contents == old(Contents)
        else if !old(Contents)[k.value].available then
          r == Err(InvalidState) && Contents == old(Contents)
        else
          r == Ok(books[k.value])
          && Contents == old(Contents)[k.value := old(Contents)[k.value].(available := false)]
    {
      var b := FindBookById(id);
      if b == null {
        return Err(NotFound);
      }
      if !b.isAvailable {
        return Err(InvalidState);
      }
      ghost var k := IndexOfId(Contents, id).value;
      DistinctObjects(k);
      SetAvailableKeepsInv(Contents, maxCapacity, nextBookId, k, false);
      var _ := b.BorrowBook();
      Contents := Contents[k := Contents[k].(available := false)];
      r := Ok(b);
    }

    /** `returnBook(id)`: NotFound for an absent id, InvalidState for an
        available Book; otherwise that Book alone becomes available. */
    method ReturnBook(id: int) returns (r: Result<Book>)
      requires Valid()
      modifies this, books
      ensures Valid()
      ensures libraryName == old(libraryName) && maxCapacity == old(maxCapacity)
      ensures books == old(books) && nextBookId == old(nextBookId)
      ensures var k := IndexOfId(old(Contents), id);
        if k.None? then r == Err(NotFound) && Contents == old(Contents)
        else if old(Contents)[k.value].available then
          r == Err(InvalidState) && Contents == old(Contents)
        else
          r == Ok(books[k.value])
          && Contents == old(Contents)[k.value := old(Contents)[k.value].(available := true)]
    {
      var b := FindBookById(id);
      if b == null {
        return Err(NotFound);
      }
      if b.isAvailable {
        return Err(InvalidState);
      }
      ghost var k := IndexOfId(Contents, id).value;
      DistinctObjects(k);
      SetAvailableKeepsInv(Contents, maxCapacity, nextBookId, k, true);
      var _ := b.ReturnBook();
      Contents := Contents[k := Contents[k].(available := true)];
      r := Ok(b);
    }

    /** `removeBook(id)`: NotFound for an absent id, InvalidState for a
        borrowed Book; otherwise that Book is taken out, the others keep
        their order, and the counter stays where it was. */
    method RemoveBook(id: int) returns (r: Result<bool>)
      requires Valid()
      modifies this
      ensures Valid()
      ensures libraryName == old(libraryName) && maxCapacity == old(maxCapacity)
      ensures nextBookId == old(nextBookId)
      ensures var k := IndexOfId(old(Contents), id);
        if k.None? then r == Err(NotFound) && books == old(books) && Contents == old(Contents)
        else if !old(Contents)[k.value].available then
          r == Err(InvalidState) && books == old(books) && Contents == old(Contents)
        else
          r == Ok(true) && books == old(books)[..k.value] + old(books)[k.value + 1..]
          && Contents == old(Contents)[..k.value] + old(Contents)[k.value + 1..]
    {
      var b := FindBookById(id);
      if b == null {
        return Err(NotFound);
      }
      if !b.isAvailable {
        return Err(InvalidState);
      }
      var k := FirstIndexOf(b);
      RemoveAt(k);
      r := Ok(true);
    }

    /** Takes the Book at position `k` out of the list; the others keep
        their order. */
    method RemoveAt(k: nat)
      requires Valid() && k < |books|
      modifies this
      ensures Valid()
      ensures libraryName == old(libraryName) && maxCapacity == old(maxCapacity)
      ensures nextBookId == old(nextBookId)
      ensures books == old(books)[..k] + old(books)[k + 1..]
      ensures Contents == old(Contents)[..k] + old(Contents)[k + 1..]
    {
      RemoveKeepsInv(Contents, maxCapacity, nextBookId, k);
      books := books[..k] + books[k + 1..];
      Contents := Contents[..k] + Contents[k + 1..];
    }

    /** `List.remove(book)` looks for the first element equal to `book`, that
        is, the first with the same id. */
    method FirstIndexOf(b: Book) returns (k: nat)
      requires Valid() && IndexOfId(Contents, b.bookId).Some?
      ensures k == IndexOfId(Contents, b.bookId).value
    {
      k := 0;
      while !books[k].Equals(b)
        invariant k <= IndexOfId(Contents, b.bookId).value
        invariant forall j :: 0 <= j < k ==> books[j].bookId != b.bookId
        decreases |books| - k
      {
        k := k + 1;
      }
    }

    /** `clearAvailableBooks`: keeps exactly the borrowed Books, in order, and
        reports how many available ones went. */
    method ClearAvailableBooks() returns (n: int)
      requires Valid()
      modifies this
      ensures Valid()
      ensures libraryName == old(libraryName) && maxCapacity == old(maxCapacity)
      ensures nextBookId == old(nextBookId)
      ensures books == old(BorrowedBooks())
      ensures Contents == Filter(old(Contents), IsBorrowed)
      ensures n == |Filter(old(Contents), IsAvailable)|
      ensures n + |Contents| == old(|Contents|)
      ensures (forall i :: 0 <= i < old(|Contents|) ==> !old(Contents)[i].available) ==>
        n == 0 && Contents == old(Contents)
    {
      if forall i :: 0 <= i < |Contents| ==> !Contents[i].available {
        ClearNoneAvailable(Contents);
      }
      var availableBooks := AvailableBooksList();
      RemoveAvailable();
      n := |availableBooks|;
    }

    /** `books.removeIf(Book::isAvailable)`. */
    method RemoveAvailable()
      requires Valid()
      modifies this
      ensures Valid()
      ensures libraryName == old(libraryName) && maxCapacity == old(maxCapacity)
      ensures nextBookId == old(nextBookId)
      ensures books == old(BorrowedBooks())
      ensures Contents == Filter(old(Contents), IsBorrowed)
      ensures |Filter(old(Contents), IsAvailable)| + |Contents| == old(|Contents|)
    {
      var borrowed := BorrowedBooks();
      ClearAvailableKeepsInv(Contents, maxCapacity, nextBookId);
      books := borrowed;
      Contents := Filter(Contents, IsBorrowed);
    }
  }

  /** Available and borrowed Books make up the whole catalogue; the
      statistics' "borrowed" figure, total minus available, is the number
      of borrowed Books. */
  lemma AvailablePlusBorrowed(lib: Library)
    requires lib.Valid()
    ensures lib.AvailableBooks() + |lib.BorrowedBooks()| == lib.TotalBooks()
    ensures lib.TotalBooks() - lib.AvailableBooks() == |Filter(lib.Contents, IsBorrowed)|
  {
    FilterPartition(lib.Contents, IsAvailable, IsBorrowed);
  }

  /** In a valid catalogue `findBookById` finds the one Book with that id. */
  lemma FindByIdIsUnique(lib: Library, j: int)
    requires lib.Valid() && 0 <= j < |lib.books|
    ensures lib.FindBookById(lib.books[j].bookId) == lib.books[j]
  {
    FoundIsOnlyMatch(lib.Contents, lib.books[j].bookId, j);
  }

  /** Year 0 is rejected even though it is documented as "unknown": in a
      catalogue of capacity 2, adding a Book with year 0 fails, still uses
      up id 1, and the next accepted Book gets id 2. */
  method YearZeroScenario(name: string, title: string, author: string, year: int)
    returns (first: Result<Book>, secondId: int, total: nat)
    requires !IsBlank(name) && !IsBlank(title) && !IsBlank(author) && ValidYear(year)
    ensures first == Err(InvalidArgument)
    ensures secondId == 2 && total == 1
  {
    var created := Library.Create(name, 2);
    var lib := created.value;
    first := lib.AddBook(title, author, "", 0, DefaultCategory);
    assert lib.Contents == [] && lib.nextBookId == 2;
    var second := lib.AddBook(title, author, "", year, DefaultCategory);
    assert lib.books[0] == second.value;
    secondId := second.value.bookId;
    total := lib.TotalBooks();
  }

  /** A catalogue of capacity 2 refuses a third Book, and refusing it
      changes neither the list nor the counter. */
  method CapacityScenario(name: string, title: string, author: string, year: int)
    returns (third: Result<Book>, total: nat, nextId: int)
    requires !IsBlank(name) && !IsBlank(title) && !IsBlank(author) && ValidYear(year)
    ensures third == Err(InvalidState)
    ensures total == 2 && nextId == 3
  {
    var created := Library.Create(name, 2);
    var lib := created.value;
    var a := lib.AddBook(title, author, "", year, DefaultCategory);
    var b := lib.AddBook(title, author, "", year, DefaultCategory);
    third := lib.AddBook(title, author, "", year, DefaultCategory);
    total := lib.TotalBooks();
    nextId := lib.nextBookId;
  }
}
