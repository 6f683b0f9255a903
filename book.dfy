/** One catalogue record (`com.library.Book`): a class whose setters and
    borrow/return operations change its fields in place, and the value
    `BookView` that a Book's fields amount to at a given moment. */
module Books {
  import opened Failures
  import opened Text

  const MinYear := 1000
  const MaxYear := 2024

  /** The category the three-argument constructor supplies. */
  const DefaultCategory := "Umum"

  /** The fields of a Book at one moment. */
  datatype BookView = BookView(
    id: int,
    title: string,
    author: string,
    isbn: string,
    year: int,
    category: string,
    available: bool)

  predicate ValidYear(year: int) {
    MinYear <= year <= MaxYear
  }

  /** A title or author as a Book stores it: trimmed and not empty. */
  predicate StoredName(s: string) {
    s != [] && Trimmed(s)
  }

  /** What every constructed Book satisfies, whatever setters ran since. */
  ghost predicate WellFormed(v: BookView) {
    v.id > 0 && StoredName(v.title) && StoredName(v.author) && ValidYear(v.year)
  }

  /** The checks of the six-argument constructor, which throws
      IllegalArgumentException when one fails. */
  predicate Accepted(id: int, title: string, author: string, year: int) {
    id > 0 && !IsBlank(title) && !IsBlank(author) && ValidYear(year)
  }

  /** A name passes the blank check exactly when its trim is a name a Book
      or a Library can store. */
  lemma StoredNameIffNotBlank(s: string)
    ensures StoredName(Trim(s)) <==> !IsBlank(s)
  {
  }

  /** A freshly constructed Book is available, stores title and author
      trimmed, and satisfies the invariant. */
  lemma AcceptedIsWellFormed(id: int, title: string, author: string, isbn: string, year: int, category: string)
    requires Accepted(id, title, author, year)
    ensures WellFormed(BookView(id, Trim(title), Trim(author), isbn, year, category, true))
  {
    StoredNameIffNotBlank(title);
    StoredNameIffNotBlank(author);
  }

  class Book {
    var bookId: int
    var title: string
    var author: string
    var isbn: string
    var publicationYear: int
    var isAvailable: bool
    var category: string

    function View(): BookView
      reads this
    {
      BookView(bookId, title, author, isbn, publicationYear, category, isAvailable)
    }

    ghost predicate Valid()
      reads this
    {
      WellFormed(View())
    }

    /** The body of the six-argument constructor once its checks passed. */
    constructor Init(id: int, title: string, author: string, isbn: string, year: int, category: string)
      requires Accepted(id, title, author, year)
      ensures View() == BookView(id, Trim(title), Trim(author), isbn, year, category, true)
      ensures Valid()
    {
      bookId := id;
      this.title := Trim(title);
      this.author := Trim(author);
      this.isbn := isbn;
      publicationYear := year;
      this.category := category;
      isAvailable := true;
      AcceptedIsWellFormed(id, title, author, isbn, year, category);
    }

    /** `new Book(id, title, author, isbn, year, category)`. */
    static method Create(id: int, title: string, author: string, isbn: string, year: int, category: string)
      returns (r: Result<Book>)
      ensures r.Ok? <==> Accepted(id, title, author, year)
      ensures r.Err? ==> r.error == InvalidArgument
      ensures r.Ok? ==> fresh(r.value) && r.value.Valid()
      ensures r.Ok? ==> r.value.View() == BookView(id, Trim(title), Trim(author), isbn, year, category, true)
    {
      if id <= 0 || IsBlank(title) || IsBlank(author) || year < MinYear || year > MaxYear {
        return Err(InvalidArgument);
      }
      var b := new Book.Init(id, title, author, isbn, year, category);
      r := Ok(b);
    }

    /** `new Book(id, title, author)`: passes year 0, which the year check
        rejects, so this constructor never succeeds. */
    static method CreateMinimal(id: int, title: string, author: string) returns (r: Result<Book>)
      ensures r == Err(InvalidArgument)
    {
      r := Create(id, title, author, "", 0, DefaultCategory);
    }

    method SetBookId(id: int) returns (r: Outcome)
      modifies this
      ensures r.Pass? <==> id > 0
      ensures r.Fail? ==> r.error == InvalidArgument
      ensures View() == if r.Pass? then old(View()).(id := id) else old(View())
      ensures old(Valid()) ==> Valid()
    {
      if id <= 0 {
        return Fail(InvalidArgument);
      }
      bookId := id;
      r := Pass;
    }

    method SetTitle(title: string) returns (r: Outcome)
      modifies this
      ensures r.Pass? <==> !IsBlank(title)
      ensures r.Fail? ==> r.error == InvalidArgument
      ensures View() == if r.Pass? then old(View()).(title := Trim(title)) else old(View())
      ensures old(Valid()) ==> Valid()
    {
      if IsBlank(title) {
        return Fail(InvalidArgument);
      }
      TrimKeepsNonBlank(title);
      this.title := Trim(title);
      r := Pass;
    }

    method SetAuthor(author: string) returns (r: Outcome)
      modifies this
      ensures r.Pass? <==> !IsBlank(author)
      ensures r.Fail? ==> r.error == InvalidArgument
      ensures View() == if r.Pass? then old(View()).(author := Trim(author)) else old(View())
      ensures old(Valid()) ==> Valid()
    {
      if IsBlank(author) {
        return Fail(InvalidArgument);
      }
      TrimKeepsNonBlank(author);
      this.author := Trim(author);
      r := Pass;
    }

    method SetPublicationYear(year: int) returns (r: Outcome)
      modifies this
      ensures r.Pass? <==> ValidYear(year)
      ensures r.Fail? ==> r.error == InvalidArgument
      ensures View() == if r.Pass? then old(View()).(year := year) else old(View())
      ensures old(Valid()) ==> Valid()
    {
      if year < MinYear || year > MaxYear {
        return Fail(InvalidArgument);
      }
      publicationYear := year;
      r := Pass;
    }

    /** Stores any ISBN, the empty one included. */
    method SetIsbn(isbn: string)
      modifies this
      ensures View() == old(View()).(isbn := isbn)
      ensures old(Valid()) ==> Valid()
    {
      this.isbn := isbn;
    }

    method SetCategory(category: string)
      modifies this
      ensures View() == old(View()).(category := category)
      ensures old(Valid()) ==> Valid()
    {
      this.category := category;
    }

    /** Sets the flag directly, without the checks of borrow and return. */
    method SetAvailable(available: bool)
      modifies this
      ensures View() == old(View()).(available := available)
      ensures old(Valid()) ==> Valid()
    {
      isAvailable := available;
    }

    /** Fails with InvalidState on a borrowed book; otherwise marks it
        borrowed and reports true. */
    method BorrowBook() returns (r: Result<bool>)
      modifies this
      ensures r.Ok? <==> old(isAvailable)
      ensures r.Ok? ==> r.value
      ensures r.Err? ==> r.error == InvalidState
      ensures View() == if r.Ok? then old(View()).(available := false) else old(View())
      ensures old(Valid()) ==> Valid()
    {
      if !isAvailable {
        return Err(InvalidState);
      }
      isAvailable := false;
      r := Ok(true);
    }

    /** Fails with InvalidState on an available book; otherwise marks it
        available and reports true. */
    method ReturnBook() returns (r: Result<bool>)
      modifies this
      ensures r.Ok? <==> !old(isAvailable)
      ensures r.Ok? ==> r.value
      ensures r.Err? ==> r.error == InvalidState
      ensures View() == if r.Ok? then old(View()).(available := true) else old(View())
      ensures old(Valid()) ==> Valid()
    {
      if isAvailable {
        return Err(InvalidState);
      }
      isAvailable := true;
      r := Ok(true);
    }

    /** `equals`: the same object, or another Book with the same id. */
    predicate Equals(other: Book?)
      reads this, other
      ensures Equals(other) <==> other != null && other.bookId == bookId
    {
      other == this || (other != null && bookId == other.bookId)
    }

    /** `hashCode`: `Integer.hashCode(bookId)`, which is the id itself. */
    function HashCode(): int
      reads this
    {
      bookId
    }

    /** `toString`. */
    function ToString(): (r: string)
      reads this
      ensures |r| > 8 && r[..8] == "Book{ID=" && r[|r| - 1] == '}'
    {
      "Book{ID=" + Decimal(bookId) + ", Title='" + title + "', Author='" + author
        + "', Available=" + (if isAvailable then "Ya" else "Tidak") + "}"
    }

    /** `getBookInfo`: seven labelled lines under a heading. */
    function BookInfo(): (r: string)
      reads this
      ensures |r| > 23 && r[..23] == "=== INFORMASI BUKU ===\n" && r[|r| - 1] == '\n'
    {
      var heading := "=== INFORMASI BUKU ===\n";
      var lines := "ID: " + Decimal(bookId) + "\n"
        + "Judul: " + title + "\n"
        + "Pengarang: " + author + "\n"
        + "ISBN: " + IsbnText(isbn) + "\n"
        + "Tahun Publikasi: " + YearText(publicationYear) + "\n"
        + "Kategori: " + category + "\n"
        + "Status: ";
      var withLines := heading + lines;
      var withStatus := withLines + StatusText(isAvailable);
      assert withLines[..23] == heading;
      assert withStatus[..23] == heading;
      assert (withStatus + "\n")[..23] == heading;
      withStatus + "\n"
    }
  }

  /** The ISBN line shows a placeholder for an empty ISBN. */
  function IsbnText(isbn: string): string {
    if isbn == [] then "Tidak tersedia" else isbn
  }

  /** The year line shows a placeholder for year 0. */
  function YearText(year: int): string {
    if year == 0 then "Tidak diketahui" else Decimal(year)
  }

  function StatusText(available: bool): string {
    if available then "Tersedia" else "Dipinjam"
  }

  /** Borrow and return form a two-state toggle: on an available Book a
      borrow succeeds, a second borrow fails, and a return then restores
      every field. */
  method BorrowTwiceThenReturn(b: Book) returns (first: Result<bool>, second: Result<bool>, back: Result<bool>)
    requires b.isAvailable
    modifies b
    ensures first == Ok(true) && second == Err(InvalidState) && back == Ok(true)
    ensures b.View() == old(b.View())
  {
    first := b.BorrowBook();
    second := b.BorrowBook();
    back := b.ReturnBook();
  }

  /** Equality of Books is an equivalence that looks only at the id: two
      Books with the same id are equal whatever their other fields. */
  lemma EqualsIsIdEquivalence(a: Book, b: Book, c: Book)
    ensures a.Equals(a)
    ensures a.Equals(b) <==> a.bookId == b.bookId
    ensures a.Equals(b) <==> b.Equals(a)
    ensures a.Equals(b) && b.Equals(c) ==> a.Equals(c)
  {
  }

  /** Equal Books, that is Books with the same id whatever their other
      fields, have equal hash codes. */
  lemma EqualsAgreesWithHashCode(a: Book, b: Book)
    requires a.Equals(b)
    ensures a.HashCode() == b.HashCode()
  {
  }

  /** The decimal rendering of an id is followed, in `toString`, by the
      first comma of the text. */
  lemma ToStringIdField(b: Book)
    ensures var s, d := b.ToString(), Decimal(b.bookId);
      |s| > 8 + |d| && s[8 + |d|] == ',' && s[8..8 + |d|] == d
  {
    var s, d := b.ToString(), Decimal(b.bookId);
    var rest := ", Title='" + b.title + "', Author='" + b.author + "', Available="
      + (if b.isAvailable then "Ya" else "Tidak") + "}";
    assert s == "Book{ID=" + d + rest;
  }

  /** `toString` tells Books with different ids apart. */
  lemma ToStringDeterminesId(a: Book, b: Book)
    requires a.ToString() == b.ToString()
    ensures a.bookId == b.bookId
  {
    var s := a.ToString();
    var da, db := Decimal(a.bookId), Decimal(b.bookId);
    ToStringIdField(a);
    ToStringIdField(b);
    assert da == s[8..8 + |da|] == db;
    DecimalInjective(a.bookId, b.bookId);
  }

  /** `toString` ends in `Available=Ya}` exactly for an available Book. */
  lemma ToStringShowsAvailability(b: Book)
    ensures var s := b.ToString(); |s| >= 3 && (s[|s| - 3..] == "Ya}" <==> b.isAvailable)
  {
    var s := b.ToString();
    var front := "Book{ID=" + Decimal(b.bookId) + ", Title='" + b.title + "', Author='" + b.author + "', Available=";
    if b.isAvailable {
      assert s == front + "Ya}";
    } else {
      assert s == front + "Tidak}";
      assert s[|s| - 3..] == "ak}";
    }
  }

  /** The last line of `getBookInfo` reads `Tersedia` exactly for an
      available Book. */
  lemma BookInfoShowsAvailability(b: Book)
    ensures var s := b.BookInfo(); |s| >= 9 && (s[|s| - 9..] == "Tersedia\n" <==> b.isAvailable)
  {
    var front := "=== INFORMASI BUKU ===\n" + ("ID: " + Decimal(b.bookId) + "\n"
      + "Judul: " + b.title + "\n"
      + "Pengarang: " + b.author + "\n"
      + "ISBN: " + IsbnText(b.isbn) + "\n"
      + "Tahun Publikasi: " + YearText(b.publicationYear) + "\n"
      + "Kategori: " + b.category + "\n"
      + "Status: ");
    var status := StatusText(b.isAvailable) + "\n";
    assert b.BookInfo() == front + StatusText(b.isAvailable) + "\n";
    assert b.BookInfo() == front + status;
    assert b.BookInfo()[|b.BookInfo()| - 9..] == status;
    if !b.isAvailable {
      assert status[0] == 'D';
    }
  }

  /** A Book with an empty ISBN shows the placeholder on its ISBN line. */
  lemma BookInfoIsbnPlaceholder(b: Book)
    requires b.isbn == []
    ensures Contains(b.BookInfo(), "ISBN: Tidak tersedia\n")
  {
    var t := "ISBN: Tidak tersedia\n";
    var c := "ID: " + Decimal(b.bookId) + "\n"
      + "Judul: " + b.title + "\n"
      + "Pengarang: " + b.author + "\n";
    var x := c + "ISBN: " + IsbnText(b.isbn) + "\n";
    assert x == c + t;
    ContainsSuffix(c, t);
    ContainsWithin(x, t, "Tahun Publikasi: ");
    x := x + "Tahun Publikasi: ";
    ContainsWithin(x, t, YearText(b.publicationYear));
    x := x + YearText(b.publicationYear);
    ContainsWithin(x, t, "\n");
    x := x + "\n";
    ContainsWithin(x, t, "Kategori: ");
    x := x + "Kategori: ";
    ContainsWithin(x, t, b.category);
    x := x + b.category;
    ContainsWithin(x, t, "\n");
    x := x + "\n";
    ContainsWithin(x, t, "Status: ");
    x := x + "Status: ";
    ContainsWithin(x, t, "=== INFORMASI BUKU ===\n");
    var y := "=== INFORMASI BUKU ===\n" + x;
    ContainsWithin(y, t, StatusText(b.isAvailable));
    y := y + StatusText(b.isAvailable);
    ContainsWithin(y, t, "\n");
    y := y + "\n";
    assert b.BookInfo() == y;
  }

  /** On every Book the year placeholder is unreachable: the year line of
      `getBookInfo` always shows the year itself. */
  lemma YearPlaceholderUnreachable(b: Book)
    requires b.Valid()
    ensures YearText(b.publicationYear) == Decimal(b.publicationYear)
    ensures YearText(b.publicationYear) != "Tidak diketahui"
  {
    assert b.publicationYear >= MinYear;
    assert Decimal(b.publicationYear)[0] != 'T';
  }
}
