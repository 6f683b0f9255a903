/** The few `java.lang.String` operations the catalogue relies on:
    `trim`, `isEmpty` after `trim`, `toLowerCase`, `contains`, and the
    decimal rendering of an `int`. */
module Text {

  /** `String.trim` removes every leading and trailing character whose code
      is at most that of the space character. */
  predicate IsSpace(c: char) {
    c <= ' '
  }

  /** A string that `trim` leaves alone. */
  predicate Trimmed(s: string) {
    s == [] || (!IsSpace(s[0]) && !IsSpace(s[|s| - 1]))
  }

  function TrimStart(s: string): (r: string)
    ensures |r| <= |s| && r == s[|s| - |r|..]
    ensures r == [] || !IsSpace(r[0])
    ensures forall i :: 0 <= i < |s| - |r| ==> IsSpace(s[i])
  {
    if s != [] && IsSpace(s[0]) then
      var r := TrimStart(s[1..]);
      assert s[1..][|s| - 1 - |r|..] == s[|s| - |r|..];
      assert forall i :: 1 <= i < |s| - |r| ==> s[i] == s[1..][i - 1];
      r
    else s
  }

  function TrimEnd(s: string): (r: string)
    ensures |r| <= |s| && r == s[..|r|]
    ensures r == [] || !IsSpace(r[|r| - 1])
    ensures forall i :: |r| <= i < |s| ==> IsSpace(s[i])
  {
    if s != [] && IsSpace(s[|s| - 1]) then
      var r := TrimEnd(s[..|s| - 1]);
      assert s[..|s| - 1][..|r|] == s[..|r|];
      r
    else s
  }

  /** `r` is the piece of `s` starting at `a`, and everything of `s` before
      and after that piece is a space. */
  predicate TrimSliceAt(s: string, r: string, a: int) {
    0 <= a <= |s| - |r| && r == s[a..a + |r|]
    && (forall i :: 0 <= i < a ==> IsSpace(s[i]))
    && (forall i :: a + |r| <= i < |s| ==> IsSpace(s[i]))
  }

  lemma PrefixOfSuffix(s: string, t: string, r: string)
    requires |t| <= |s| && t == s[|s| - |t|..]
    requires |r| <= |t| && r == t[..|r|]
    ensures r == s[|s| - |t|..|s| - |t| + |r|]
  {
  }

  lemma SpacesAfterPrefix(s: string, t: string, r: string)
    requires |t| <= |s| && t == s[|s| - |t|..]
    requires |r| <= |t|
    requires forall i :: |r| <= i < |t| ==> IsSpace(t[i])
    ensures forall i :: |s| - |t| + |r| <= i < |s| ==> IsSpace(s[i])
  {
    forall i | |s| - |t| + |r| <= i < |s|
      ensures IsSpace(s[i])
    {
      assert s[i] == t[i - (|s| - |t|)];
    }
  }

  /** Dropping the leading spaces (leaving `t`) and then the trailing ones
      (leaving `r`) leaves a piece of `s` with nothing but spaces around it. */
  lemma TrimPieces(s: string, t: string, r: string)
    requires |t| <= |s| && t == s[|s| - |t|..]
    requires forall i :: 0 <= i < |s| - |t| ==> IsSpace(s[i])
    requires |r| <= |t| && r == t[..|r|]
    requires forall i :: |r| <= i < |t| ==> IsSpace(t[i])
    ensures TrimSliceAt(s, r, |s| - |t|)
  {
    PrefixOfSuffix(s, t, r);
    SpacesAfterPrefix(s, t, r);
  }

  /** `String.trim`: the slice of `s` left after dropping spaces at both ends. */
  function Trim(s: string): (r: string)
    ensures Trimmed(r)
    ensures |r| <= |s|
  {
    var t := TrimStart(s);
    assert TrimEnd(t) != [] ==> TrimEnd(t)[0] == t[0];
    TrimEnd(t)
  }

  /** The trim of `s` is a piece of `s` with only spaces before and after it. */
  lemma TrimIsSlice(s: string)
    ensures exists a :: TrimSliceAt(s, Trim(s), a)
  {
    var t := TrimStart(s);
    TrimPieces(s, t, TrimEnd(t));
    assert TrimSliceAt(s, Trim(s), |s| - |t|);
  }

  /** Two trimmed pieces of `s` with only spaces around them are the same. */
  lemma SliceUnique(s: string, r: string, a: int, q: string, b: int)
    requires Trimmed(r) && TrimSliceAt(s, r, a)
    requires Trimmed(q) && TrimSliceAt(s, q, b)
    ensures r == q
  {
    if r != [] {
      assert r[0] == s[a] && r[|r| - 1] == s[a + |r| - 1];
    }
    if q != [] {
      assert q[0] == s[b] && q[|q| - 1] == s[b + |q| - 1];
    }
    if r != [] && q != [] {
      assert a == b;
      assert |r| == |q|;
    }
  }

  /** Any trimmed piece of `s` with only spaces around it is the trim of `s`
      (when it is empty, so is the trim). */
  lemma TrimUnique(s: string, r: string, a: int)
    requires Trimmed(r) && TrimSliceAt(s, r, a)
    ensures Trim(s) == r
  {
    var t := TrimStart(s);
    TrimPieces(s, t, TrimEnd(t));
    SliceUnique(s, r, a, Trim(s), |s| - |t|);
  }

  /** `s == null || s.trim().isEmpty()` for a non-null `s`. */
  predicate IsBlank(s: string)
    ensures s == [] ==> IsBlank(s)
    ensures s != [] && !IsSpace(s[0]) ==> !IsBlank(s)
  {
    assert s != [] && !IsSpace(s[0]) ==> TrimStart(s) == s && TrimEnd(s)[0] == s[0];
    Trim(s) == []
  }

  lemma TrimOfTrimmed(s: string)
    requires Trimmed(s)
    ensures Trim(s) == s
  {
  }

  /** Trimming twice is trimming once. */
  lemma TrimIdempotent(s: string)
    ensures Trim(Trim(s)) == Trim(s)
  {
    TrimOfTrimmed(Trim(s));
  }

  /** A string is blank exactly when every one of its characters is a space. */
  lemma BlankIffAllSpace(s: string)
    ensures IsBlank(s) <==> forall i :: 0 <= i < |s| ==> IsSpace(s[i])
  {
    var t := TrimStart(s);
    if IsBlank(s) {
      assert TrimEnd(t) == [];
      assert |t| == 0;
    } else {
      if t != [] {
        assert t[0] == s[|s| - |t|];
      }
    }
  }

  /** A trimmed string that is not blank is not empty, and the trim of a
      string that is not blank is not blank. */
  lemma TrimKeepsNonBlank(s: string)
    requires !IsBlank(s)
    ensures Trim(s) != [] && !IsBlank(Trim(s))
  {
    TrimIdempotent(s);
  }

  /** `Character.toLowerCase` restricted to ASCII letters. */
  function LowerChar(c: char): char {
    if 'A' <= c <= 'Z' then (c as int + 32) as char else c
  }

  /** `String.toLowerCase`, one character at a time. */
  function Lower(s: string): (r: string)
    ensures |r| == |s|
    ensures forall i :: 0 <= i < |s| ==> r[i] == LowerChar(s[i])
  {
    if s == [] then [] else [LowerChar(s[0])] + Lower(s[1..])
  }

  /** Lower-casing a lower-cased string changes nothing. */
  lemma LowerIdempotent(s: string)
    ensures Lower(Lower(s)) == Lower(s)
  {
  }

  lemma {:induction false} TrimStartLower(s: string)
    ensures TrimStart(Lower(s)) == Lower(TrimStart(s))
    decreases |s|
  {
    if s != [] {
      var l := Lower(s);
      assert l[1..] == Lower(s[1..]);
      if IsSpace(s[0]) {
        TrimStartLower(s[1..]);
      } else {
        assert !IsSpace(l[0]);
      }
    }
  }

  lemma {:induction false} TrimEndLower(s: string)
    ensures TrimEnd(Lower(s)) == Lower(TrimEnd(s))
    decreases |s|
  {
    if s != [] {
      var l := Lower(s);
      assert l[..|l| - 1] == Lower(s[..|s| - 1]);
      if IsSpace(s[|s| - 1]) {
        TrimEndLower(s[..|s| - 1]);
      } else {
        assert !IsSpace(l[|l| - 1]);
      }
    }
  }

  /** Lower-casing leaves spaces alone and never makes a space, so trimming
      and lower-casing can be done in either order. */
  lemma TrimLower(s: string)
    ensures Trim(Lower(s)) == Lower(Trim(s))
  {
    TrimStartLower(s);
    TrimEndLower(TrimStart(s));
  }

  predicate OccursAt(s: string, t: string, i: int)
    requires 0 <= i <= |s| - |t|
  {
    s[i..i + |t|] == t
  }

  /** `String.contains`: `t` occurs as a contiguous piece of `s`. */
  predicate Contains(s: string, t: string)
    ensures t == [] ==> Contains(s, t)
    ensures Contains(s, t) ==> |t| <= |s|
  {
    assert t == [] ==> OccursAt(s, t, 0);
    exists i | 0 <= i <= |s| - |t| :: OccursAt(s, t, i)
  }

  /** Every string contains itself. */
  lemma ContainsItself()
    ensures forall s :: Contains(s, s)
  {
    forall s: string
      ensures Contains(s, s)
    {
      assert OccursAt(s, s, 0);
    }
  }

  /** A string contains each of its suffixes. */
  lemma ContainsSuffix(x: string, t: string)
    ensures Contains(x + t, t)
  {
    assert OccursAt(x + t, t, |x|);
  }

  /** Text added on either side keeps what a string contains. */
  lemma ContainsWithin(x: string, t: string, y: string)
    requires Contains(x, t)
    ensures Contains(x + y, t) && Contains(y + x, t)
  {
    var i :| 0 <= i <= |x| - |t| && OccursAt(x, t, i);
    assert (x + y)[i..i + |t|] == x[i..i + |t|];
    assert OccursAt(x + y, t, i);
    assert (y + x)[|y| + i..|y| + i + |t|] == x[i..i + |t|];
    assert OccursAt(y + x, t, |y| + i);
  }

  /** Every string contains itself and each of its pieces. */
  lemma ContainsSlice(s: string, lo: int, hi: int)
    requires 0 <= lo <= hi <= |s|
    ensures Contains(s, s[lo..hi])
  {
    assert OccursAt(s, s[lo..hi], lo);
  }

  function DigitChar(d: int): char
    requires 0 <= d < 10
  {
    ('0' as int + d) as char
  }

  predicate IsDigit(c: char) {
    '0' <= c <= '9'
  }

  /** The decimal digits of a natural number, most significant first, with no
      leading zero. */
  function Digits(n: nat): (r: string)
    ensures r != [] && forall i :: 0 <= i < |r| ==> IsDigit(r[i])
    ensures r[0] == '0' ==> n == 0
    decreases n
  {
    if n < 10 then [DigitChar(n)] else Digits(n / 10) + [DigitChar(n % 10)]
  }

  /** The decimal rendering of an `int` in ASCII digits: a minus sign exactly
      for a negative number, then the digits with no leading zero. This is
      `Integer.toString` (`StringBuilder.append(int)`), and what `%d` prints
      under a locale with ASCII digits. */
  function Decimal(n: int): (r: string)
    ensures r != []
    ensures (r[0] == '-') <==> n < 0
    ensures forall i :: 0 < i < |r| ==> IsDigit(r[i])
    ensures n >= 0 ==> IsDigit(r[0])
    ensures r[0] == '0' ==> n == 0
    ensures n < 0 ==> |r| > 1 && r[1] != '0'
  {
    if n < 0 then "-" + Digits(-n) else Digits(n)
  }

  /** The value of a string of decimal digits; the inverse of `Digits`. */
  function ParseDigits(s: string): int {
    if s == [] then 0 else ParseDigits(s[..|s| - 1]) * 10 + (s[|s| - 1] as int - '0' as int)
  }

  /** The inverse of `Decimal`. */
  function ParseDecimal(s: string): int {
    if s != [] && s[0] == '-' then -ParseDigits(s[1..]) else ParseDigits(s)
  }

  lemma {:induction false} DigitsRoundTrip(n: nat)
    ensures ParseDigits(Digits(n)) == n
    decreases n
  {
    if n >= 10 {
      var s := Digits(n);
      assert s[..|s| - 1] == Digits(n / 10);
      DigitsRoundTrip(n / 10);
    }
  }

  /** Reading back the decimal rendering of an integer gives the integer. */
  lemma DecimalRoundTrip(n: int)
    ensures ParseDecimal(Decimal(n)) == n
  {
    if n < 0 {
      assert Decimal(n)[1..] == Digits(-n);
      DigitsRoundTrip(-n);
    } else {
      DigitsRoundTrip(n);
    }
  }

  /** Distinct integers have distinct decimal renderings. */
  lemma DecimalInjective(a: int, b: int)
    requires Decimal(a) == Decimal(b)
    ensures a == b
  {
    DecimalRoundTrip(a);
    DecimalRoundTrip(b);
  }
}
