/** The catalogue as a value: the sequence of Book values a Library holds,
    in insertion order. The Library class is specified against the
    functions here, and the lemmas here state what its operations keep. */
module Catalogue {
  import opened Failures
  import opened Text
  import opened Books

  /** The position of the first book with the given id (`findBookById`'s
      `filter(...).findFirst()`). */
  function IndexOfId(s: seq<BookView>, id: int): (r: Option<nat>)
    ensures r.Some? ==> r.value < |s| && s[r.value].id == id
    ensures r.Some? ==> forall j :: 0 <= j < r.value ==> s[j].id != id
    ensures r.None? <==> forall j :: 0 <= j < |s| ==> s[j].id != id
  {
    if s == [] then None
    else if s[0].id == id then Some(0)
    else match IndexOfId(s[1..], id)
      case None => None
      case Some(k) => Some(k + 1)
  }

  /** The books satisfying `p`, in their original order (a stream filter). */
  function Filter(s: seq<BookView>, p: BookView -> bool): (r: seq<BookView>)
    ensures |r| <= |s|
    ensures forall v :: v in r <==> v in s && p(v)
  {
    if s == [] then []
    else (if p(s[0]) then [s[0]] else []) + Filter(s[1..], p)
  }

  function IsAvailable(v: BookView): bool {
    v.available
  }

  function IsBorrowed(v: BookView): bool {
    !v.available
  }

  /** `findBooksByTitle`: the lower-cased title contains the trimmed,
      lower-cased query. */
  function TitleMatches(query: string): (r: BookView -> bool)
    ensures forall v: BookView :: v.title == Trim(query) ==> r(v)
    ensures forall v :: r(v) ==> |Trim(query)| <= |v.title|
  {
    ContainsItself();
    (v: BookView) => Contains(Lower(v.title), Lower(Trim(query)))
  }

  /** `findBooksByAuthor`: as `TitleMatches`, on the author. */
  function AuthorMatches(query: string): (r: BookView -> bool)
    ensures forall v: BookView :: v.author == Trim(query) ==> r(v)
    ensures forall v :: r(v) ==> |Trim(query)| <= |v.author|
  {
    ContainsItself();
    (v: BookView) => Contains(Lower(v.author), Lower(Trim(query)))
  }

  /** `findBooksByCategory`: the lower-cased stored category (untrimmed)
      equals the trimmed, lower-cased query. */
  function CategoryMatches(query: string): (r: BookView -> bool)
    ensures forall v: BookView :: v.category == Trim(query) ==> r(v)
    ensures forall v :: r(v) ==> |v.category| == |Trim(query)|
  {
    (v: BookView) => Lower(v.category) == Lower(Trim(query))
  }

  /** A search query is normalised before it is compared: lower-casing it or
      trimming it first changes no search result. */
  lemma SearchQueryNormalised(query: string, v: BookView)
    ensures TitleMatches(Lower(query))(v) == TitleMatches(query)(v)
    ensures TitleMatches(Trim(query))(v) == TitleMatches(query)(v)
    ensures AuthorMatches(Lower(query))(v) == AuthorMatches(query)(v)
    ensures AuthorMatches(Trim(query))(v) == AuthorMatches(query)(v)
    ensures CategoryMatches(Lower(query))(v) == CategoryMatches(query)(v)
    ensures CategoryMatches(Trim(query))(v) == CategoryMatches(query)(v)
  {
    TrimLower(query);
    LowerIdempotent(Trim(query));
    TrimIdempotent(query);
  }

  /** `r` is `s` with some elements left out and the rest in order. */
  predicate IsSubsequence(r: seq<BookView>, s: seq<BookView>)
    decreases |s|
  {
    if s == [] then r == []
    else (r != [] && r[0] == s[0] && IsSubsequence(r[1..], s[1..])) || IsSubsequence(r, s[1..])
  }

  /** A filter keeps the order of what it keeps. */
  lemma {:induction false} FilterIsSubsequence(s: seq<BookView>, p: BookView -> bool)
    ensures IsSubsequence(Filter(s, p), s)
  {
    if s != [] {
      FilterIsSubsequence(s[1..], p);
      var rest := Filter(s[1..], p);
      if p(s[0]) {
        assert Filter(s, p) == [s[0]] + rest;
        assert ([s[0]] + rest)[1..] == rest;
      } else {
        assert Filter(s, p) == rest;
      }
    }
  }

  /** A predicate and its negation split the books between them:
      `getAvailableBooksList` and `getBorrowedBooks` share out the whole list. */
  lemma {:induction false} FilterPartition(s: seq<BookView>, p: BookView -> bool, q: BookView -> bool)
    requires forall v :: q(v) <==> !p(v)
    ensures |Filter(s, p)| + |Filter(s, q)| == |s|
    ensures multiset(Filter(s, p)) + multiset(Filter(s, q)) == multiset(s)
  {
    if s != [] {
      FilterPartition(s[1..], p, q);
      assert s == [s[0]] + s[1..];
    }
  }

  /** Filtering with a predicate every book satisfies changes nothing. */
  lemma {:induction false} FilterAll(s: seq<BookView>, p: BookView -> bool)
    requires forall i :: 0 <= i < |s| ==> p(s[i])
    ensures Filter(s, p) == s
  {
    if s != [] {
      FilterAll(s[1..], p);
      assert s == [s[0]] + s[1..];
    }
  }

  ghost predicate UniqueIds(s: seq<BookView>) {
    forall i, j :: 0 <= i < |s| && 0 <= j < |s| && i != j ==> s[i].id != s[j].id
  }

  ghost predicate IdsBelow(s: seq<BookView>, nextId: int) {
    forall i :: 0 <= i < |s| ==> 0 < s[i].id < nextId
  }

  ghost predicate AllWellFormed(s: seq<BookView>) {
    forall i :: 0 <= i < |s| ==> WellFormed(s[i])
  }

  /** The catalogue invariant: within capacity, ids pairwise distinct, every
      id in (0, nextId), every book well formed. */
  ghost predicate Inv(s: seq<BookView>, capacity: int, nextId: int) {
    0 < nextId && |s| <= capacity && UniqueIds(s) && IdsBelow(s, nextId) && AllWellFormed(s)
  }

  /** Under the invariant the first match of `findBookById` is the only one. */
  lemma FoundIsOnlyMatch(s: seq<BookView>, id: int, j: int)
    requires UniqueIds(s)
    requires 0 <= j < |s| && s[j].id == id
    ensures IndexOfId(s, id) == Some(j)
  {
  }

  /** The counter never names a stored book, so the auto-assigned id is new. */
  lemma CounterIsFresh(s: seq<BookView>, capacity: int, nextId: int)
    requires Inv(s, capacity, nextId)
    ensures IndexOfId(s, nextId).None?
  {
  }

  /** Moving the counter up keeps the invariant: `nextBookId` may be spent
      on a Book that is then rejected. */
  lemma RaiseCounterKeepsInv(s: seq<BookView>, capacity: int, nextId: int, nextId': int)
    requires Inv(s, capacity, nextId) && nextId <= nextId'
    ensures Inv(s, capacity, nextId')
  {
  }

  /** The counter after `addBook(Book)` has stored a Book with id `id`: the
      least value that is above `id` and not below the old counter. */
  function CounterAfterAdd(nextId: int, id: int): (r: int)
    ensures r > id && r >= nextId
    ensures r == id + 1 || r == nextId
  {
    if id >= nextId then id + 1 else nextId
  }

  /** Appending a well-formed book with a new id to a catalogue that is not
      full keeps the invariant, once the counter is moved past the id. */
  lemma AppendKeepsInv(s: seq<BookView>, capacity: int, nextId: int, v: BookView)
    requires Inv(s, capacity, nextId) && |s| < capacity
    requires WellFormed(v) && IndexOfId(s, v.id).None?
    ensures Inv(s + [v], capacity, CounterAfterAdd(nextId, v.id))
  {
  }

  const MinInt32 := -0x8000_0000
  const MaxInt32 := 0x7fff_ffff

  /** Java `int` addition: the exact sum taken modulo 2^32 into
      [MinInt32, MaxInt32]. */
  function Int32Add(x: int, y: int): (r: int)
    ensures MinInt32 <= r <= MaxInt32
    ensures (r - (x + y)) % 0x1_0000_0000 == 0
    ensures MinInt32 <= x + y <= MaxInt32 ==> r == x + y
  {
    (x + y - MinInt32) % 0x1_0000_0000 + MinInt32
  }

  /** The counter update of `addBook(Book)` as the source writes it, with
      `getBookId() + 1` computed in 32-bit `int` arithmetic. */
  function CounterAfterAddAsWritten(nextId: int, id: int): int {
    if id >= nextId then Int32Add(id, 1) else nextId
  }

  /** Below the largest `int` id the source's update is the intended one. */
  lemma CounterAsWrittenBelowMax(nextId: int, id: int)
    requires MinInt32 <= id < MaxInt32
    ensures CounterAfterAddAsWritten(nextId, id) == CounterAfterAdd(nextId, id)
  {
  }

  /** Storing a Book with id 2147483647 in an empty catalogue of capacity
      at least 2 wraps the counter to -2147483648: the stored id is no longer
      below the counter, so the invariant is lost, and the next Book the
      six-argument `addBook` builds from the counter (there is still room
      for it) is refused for a non-positive id. */
  lemma MaxIdWrapsCounter(v: BookView, capacity: int)
    requires WellFormed(v) && v.id == MaxInt32 && capacity >= 2
    ensures CounterAfterAddAsWritten(1, v.id) == MinInt32
    ensures |[v]| < capacity
    ensures !Inv([v], capacity, CounterAfterAddAsWritten(1, v.id))
    ensures forall title, author, year :: !Accepted(CounterAfterAddAsWritten(1, v.id), title, author, year)
  {
  }

  /** `clearAvailableBooks` on values: keeping the borrowed books keeps the
      invariant, and the books dropped and the books kept account for the
      whole catalogue. */
  lemma ClearAvailableKeepsInv(s: seq<BookView>, capacity: int, nextId: int)
    requires Inv(s, capacity, nextId)
    ensures Inv(Filter(s, IsBorrowed), capacity, nextId)
    ensures |Filter(s, IsAvailable)| + |Filter(s, IsBorrowed)| == |s|
  {
    FilterKeepsInv(s, IsBorrowed, capacity, nextId);
    FilterPartition(s, IsAvailable, IsBorrowed);
  }

  /** With no available book, `clearAvailableBooks` drops nothing. */
  lemma ClearNoneAvailable(s: seq<BookView>)
    requires forall i :: 0 <= i < |s| ==> !s[i].available
    ensures Filter(s, IsBorrowed) == s && Filter(s, IsAvailable) == []
  {
    FilterAll(s, IsBorrowed);
    FilterPartition(s, IsAvailable, IsBorrowed);
  }

  /** Changing the availability of one book keeps the invariant. */
  lemma SetAvailableKeepsInv(s: seq<BookView>, capacity: int, nextId: int, k: nat, a: bool)
    requires Inv(s, capacity, nextId) && k < |s|
    ensures Inv(s[k := s[k].(available := a)], capacity, nextId)
  {
  }

  /** Removing one book keeps the invariant; the counter stays. */
  lemma RemoveKeepsInv(s: seq<BookView>, capacity: int, nextId: int, k: nat)
    requires Inv(s, capacity, nextId) && k < |s|
    ensures Inv(s[..k] + s[k + 1..], capacity, nextId)
  {
    var t := s[..k] + s[k + 1..];
    forall i | 0 <= i < |t|
      ensures t[i] == s[if i < k then i else i + 1]
    {
    }
  }

  /** Filtering keeps the invariant: `clearAvailableBooks` cannot break it. */
  lemma {:induction false} FilterKeepsInv(s: seq<BookView>, p: BookView -> bool, capacity: int, nextId: int)
    requires Inv(s, capacity, nextId)
    ensures Inv(Filter(s, p), capacity, nextId)
  {
    if s != [] {
      var rest := Filter(s[1..], p);
      assert Inv(s[1..], capacity, nextId);
      FilterKeepsInv(s[1..], p, capacity, nextId);
      if p(s[0]) {
        var r := [s[0]] + rest;
        assert Filter(s, p) == r;
        forall j | 0 < j < |r| ensures r[j].id != r[0].id {
          assert r[j] in s[1..];
        }
      }
    }
  }

  /** Searching by a book's own title finds it: the stored title is trimmed,
      and every string contains itself. */
  lemma SearchByOwnTitleFinds(s: seq<BookView>, v: BookView)
    requires v in s && WellFormed(v)
    ensures v in Filter(s, TitleMatches(v.title))
  {
    TrimOfTrimmed(v.title);
    ContainsSlice(Lower(v.title), 0, |v.title|);
    assert Lower(v.title)[0..|v.title|] == Lower(v.title);
  }

  lemma SearchByOwnAuthorFinds(s: seq<BookView>, v: BookView)
    requires v in s && WellFormed(v)
    ensures v in Filter(s, AuthorMatches(v.author))
  {
    TrimOfTrimmed(v.author);
    ContainsSlice(Lower(v.author), 0, |v.author|);
    assert Lower(v.author)[0..|v.author|] == Lower(v.author);
  }
}
