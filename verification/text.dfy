/**
 * The string primitives of the engine's `FString` / `FCString` that the
 * plugin's parsers rely on, stated over `seq<char>`:
 * searching (`Find` from the start or from the end, `Contains`),
 * clamped slicing (`LeftChop`, `RightChop`, `Mid`),
 * splitting (`ParseIntoArray` with empty pieces culled)
 * and integer conversion (`Atoi`).
 */
module Text {

  datatype Option<T> = None | Some(value: T)

  /** `pat` occurs in `s` starting at index `k`. */
  predicate OccursAt(s: string, pat: string, k: nat) {
    k + |pat| <= |s| && s[k..k + |pat|] == pat
  }

  /** Case-sensitive substring test. */
  predicate Contains(s: string, pat: string) {
    exists k: nat | k <= |s| :: OccursAt(s, pat, k)
  }

  /** Forward search starting at index `from`: the first occurrence at or after it. */
  function FindFrom(s: string, pat: string, from: nat): (r: Option<nat>)
    requires |pat| > 0
    ensures r.Some? ==> from <= r.value && OccursAt(s, pat, r.value)
    ensures r.Some? ==> forall k: nat :: from <= k < r.value ==> !OccursAt(s, pat, k)
    ensures r.None? ==> forall k: nat :: from <= k ==> !OccursAt(s, pat, k)
    decreases |s| + 1 - from
  {
    if from + |pat| > |s| then None
    else if OccursAt(s, pat, from) then Some(from)
    else FindFrom(s, pat, from + 1)
  }

  /** Backward search over the start indices below `bound`: the last occurrence there. */
  function FindLastBelow(s: string, pat: string, bound: nat): (r: Option<nat>)
    requires |pat| > 0
    ensures r.Some? ==> r.value < bound && OccursAt(s, pat, r.value)
    ensures r.Some? ==> forall k: nat :: r.value < k < bound ==> !OccursAt(s, pat, k)
    ensures r.None? ==> forall k: nat :: k < bound ==> !OccursAt(s, pat, k)
  {
    if bound == 0 then None
    else if OccursAt(s, pat, bound - 1) then Some(bound - 1)
    else FindLastBelow(s, pat, bound - 1)
  }

  /** Backward search over the whole string (`ESearchDir::FromEnd`). */
  function FindLast(s: string, pat: string): (r: Option<nat>)
    requires |pat| > 0
    ensures r.Some? ==> OccursAt(s, pat, r.value)
    ensures r.Some? ==> forall k: nat :: r.value < k ==> !OccursAt(s, pat, k)
    ensures r.None? ==> !Contains(s, pat)
  {
    FindLastBelow(s, pat, |s| + 1)
  }

  /** `FString::LeftChop`: drop `n` characters from the end, clamped at the empty string. */
  function LeftChop(s: string, n: nat): (r: string)
    ensures |r| == if n <= |s| then |s| - n else 0
    ensures r <= s
  {
    if n <= |s| then s[..|s| - n] else []
  }

  /** `FString::RightChop`: drop `n` characters from the start, clamped at the empty string. */
  function RightChop(s: string, n: nat): (r: string)
    ensures |r| == if n <= |s| then |s| - n else 0
    ensures forall i :: 0 <= i < |r| ==> r[i] == s[n + i]
  {
    if n <= |s| then s[n..] else []
  }

  /** `FString::Mid`: up to `count` characters starting at `start`, both clamped to the string. */
  function Mid(s: string, start: nat, count: nat): (r: string)
    ensures |r| <= count
    ensures start + count <= |s| ==> r == s[start..start + count]
    ensures start >= |s| ==> r == []
  {
    var a := if start <= |s| then start else |s|;
    var b := if a + count <= |s| then a + count else |s|;
    s[a..b]
  }

  // ---------------------------------------------------------------------------
  // Case folding (ASCII only) for the case-insensitive `Contains`
  // ---------------------------------------------------------------------------

  function UpperChar(c: char): char {
    if 'a' <= c <= 'z' then (c as int - 32) as char else c
  }

  function Upper(s: string): (r: string)
    ensures |r| == |s|
    ensures forall i :: 0 <= i < |s| ==> r[i] == UpperChar(s[i])
  {
    seq(|s|, i requires 0 <= i < |s| => UpperChar(s[i]))
  }

  /** `FString::Contains` with `ESearchCase::IgnoreCase`, the engine's default. */
  predicate ContainsIgnoreCase(s: string, pat: string) {
    Contains(Upper(s), Upper(pat))
  }

  /** `FString` equality (`==`, `!=` and map keys), which ignores case by default. */
  predicate EqualsIgnoreCase(a: string, b: string) {
    Upper(a) == Upper(b)
  }

  /** A case-sensitive match is also a case-insensitive one. */
  lemma ContainsImpliesIgnoreCase(s: string, pat: string)
    requires Contains(s, pat)
    ensures ContainsIgnoreCase(s, pat)
  {
    var k: nat :| OccursAt(s, pat, k);
    var u, p := Upper(s), Upper(pat);
    assert OccursAt(s, pat, k);
    assert k + |pat| <= |s| && |u| == |s| && |p| == |pat|;
    var w := u[k..k + |p|];
    forall i | 0 <= i < |p|
      ensures w[i] == p[i]
    {
      assert s[k..k + |pat|][i] == pat[i];
    }
    assert w == p;
    assert OccursAt(u, p, k);
  }

  // ---------------------------------------------------------------------------
  // Splitting: `FString::ParseIntoArray(Out, Delim, /*CullEmpty*/ true)`
  // ---------------------------------------------------------------------------

  /**
   * The pieces of `s` between the leftmost non-overlapping occurrences of `d`,
   * empty pieces included; there is always one more piece than occurrences.
   */
  function Pieces(s: string, d: string): (r: seq<string>)
    requires |d| > 0
    ensures |r| > 0
    decreases |s|
  {
    if |s| == 0 then [[]]
    else if OccursAt(s, d, 0) then [[]] + Pieces(s[|d|..], d)
    else
      var rest := Pieces(s[1..], d);
      [[s[0]] + rest[0]] + rest[1..]
  }

  /** Pieces glued back together with the delimiter between consecutive ones. */
  function Join(ps: seq<string>, d: string): string
    requires |ps| > 0
  {
    if |ps| == 1 then ps[0] else ps[0] + d + Join(ps[1..], d)
  }

  /** The non-empty elements of `ps`, in order. */
  function NonEmpty(ps: seq<string>): (r: seq<string>)
    ensures forall i :: 0 <= i < |r| ==> |r[i]| > 0
    ensures forall x :: x in r <==> x in ps && |x| > 0
  {
    if |ps| == 0 then []
    else if |ps[0]| == 0 then NonEmpty(ps[1..])
    else [ps[0]] + NonEmpty(ps[1..])
  }

  lemma {:induction false} JoinCons(c: char, ps: seq<string>, d: string)
    requires |ps| > 0
    ensures Join([[c] + ps[0]] + ps[1..], d) == [c] + Join(ps, d)
  {
    var qs := [[c] + ps[0]] + ps[1..];
    if |ps| > 1 {
      assert qs[1..] == ps[1..];
    }
  }

  /** Splitting loses nothing: joining all pieces with the delimiter rebuilds the input. */
  lemma {:induction false} JoinPieces(s: string, d: string)
    requires |d| > 0
    ensures Join(Pieces(s, d), d) == s
    decreases |s|
  {
    if |s| == 0 {
    } else if OccursAt(s, d, 0) {
      JoinPieces(s[|d|..], d);
      assert s == d + s[|d|..];
    } else {
      JoinPieces(s[1..], d);
      JoinCons(s[0], Pieces(s[1..], d), d);
      assert s == [s[0]] + s[1..];
    }
  }

  /** The first piece is a prefix of the input. */
  lemma {:induction false} FirstPieceIsPrefix(s: string, d: string)
    requires |d| > 0
    ensures Pieces(s, d)[0] <= s
    decreases |s|
  {
    if |s| != 0 && !OccursAt(s, d, 0) {
      FirstPieceIsPrefix(s[1..], d);
    }
  }

  /** No piece contains the delimiter. */
  lemma {:induction false} PiecesAvoidDelimiter(s: string, d: string)
    requires |d| > 0
    ensures forall i :: 0 <= i < |Pieces(s, d)| ==> !Contains(Pieces(s, d)[i], d)
    decreases |s|
  {
    if |s| == 0 {
      assert Pieces(s, d) == [[]];
    } else if OccursAt(s, d, 0) {
      PiecesAvoidDelimiter(s[|d|..], d);
      forall i | 0 <= i < |Pieces(s, d)|
        ensures !Contains(Pieces(s, d)[i], d)
      {
        if i > 0 {
          assert Pieces(s, d)[i] == Pieces(s[|d|..], d)[i - 1];
        }
      }
    } else {
      var rest := Pieces(s[1..], d);
      PiecesAvoidDelimiter(s[1..], d);
      FirstPieceIsPrefix(s[1..], d);
      var p0 := [s[0]] + rest[0];
      assert p0 <= s;
      forall k: nat
        ensures !OccursAt(p0, d, k)
      {
        if k + |d| <= |p0| {
          if k == 0 {
            assert p0[..|d|] == s[..|d|];
          } else {
            assert p0[k..k + |d|] == rest[0][k - 1..k - 1 + |d|];
            assert !OccursAt(rest[0], d, k - 1);
          }
        }
      }
      forall i | 0 <= i < |Pieces(s, d)|
        ensures !Contains(Pieces(s, d)[i], d)
      {
        if i > 0 {
          assert Pieces(s, d)[i] == rest[i];
        }
      }
    }
  }

  /**
   * `ParseIntoArray` with culling: the non-empty pieces of `s`, none of
   * which holds the delimiter.
   */
  function Split(s: string, d: string): (r: seq<string>)
    requires |d| > 0
    ensures forall i :: 0 <= i < |r| ==> |r[i]| > 0 && !Contains(r[i], d)
  {
    PiecesAvoidDelimiter(s, d);
    NonEmpty(Pieces(s, d))
  }

  /** With a one-character delimiter absent from `a`, `a` is the first piece of `a + d + b`. */
  lemma {:induction false} PiecesAfterField(a: string, c: char, b: string)
    requires forall i :: 0 <= i < |a| ==> a[i] != c
    ensures Pieces(a + [c] + b, [c]) == [a] + Pieces(b, [c])
    decreases |a|
  {
    var s := a + [c] + b;
    if |a| == 0 {
      assert OccursAt(s, [c], 0);
      assert s[1..] == b;
    } else {
      assert s[0] == a[0] && s[..1] == [s[0]];
      assert s[1..] == a[1..] + [c] + b;
      PiecesAfterField(a[1..], c, b);
      assert [a[0]] + a[1..] == a;
    }
  }

  /** With a one-character delimiter absent from a non-empty `a`, `a` is its own only piece. */
  lemma {:induction false} PiecesOfField(a: string, c: char)
    requires forall i :: 0 <= i < |a| ==> a[i] != c
    ensures Pieces(a, [c]) == [a]
    decreases |a|
  {
    if |a| > 0 {
      assert a[..1] == [a[0]];
      PiecesOfField(a[1..], c);
      assert [a[0]] + a[1..] == a;
    }
  }

  /** Fields free of a one-character delimiter are recovered by splitting their join. */
  lemma {:induction false} PiecesOfJoin(fs: seq<string>, c: char)
    requires |fs| > 0
    requires forall i, j :: 0 <= i < |fs| && 0 <= j < |fs[i]| ==> fs[i][j] != c
    ensures Pieces(Join(fs, [c]), [c]) == fs
    decreases |fs|
  {
    if |fs| == 1 {
      PiecesOfField(fs[0], c);
    } else {
      PiecesOfJoin(fs[1..], c);
      PiecesAfterField(fs[0], c, Join(fs[1..], [c]));
      assert fs == [fs[0]] + fs[1..];
    }
  }

  /** Culling keeps a sequence whose elements are all non-empty. */
  lemma {:induction false} NonEmptyKeepsFull(ps: seq<string>)
    requires forall i :: 0 <= i < |ps| ==> |ps[i]| > 0
    ensures NonEmpty(ps) == ps
  {
    if |ps| > 0 {
      var rest := ps[1..];
      assert forall i :: 0 <= i < |rest| ==> |rest[i]| > 0 by {
        forall i | 0 <= i < |rest| ensures |rest[i]| > 0 { assert rest[i] == ps[i + 1]; }
      }
      NonEmptyKeepsFull(rest);
      NonEmptyCons(ps[0], rest);
      assert [ps[0]] + rest == ps;
    }
  }

  /** A non-empty piece at the front is kept. */
  lemma NonEmptyCons(p: string, qs: seq<string>)
    requires |p| > 0
    ensures NonEmpty([p] + qs) == [p] + NonEmpty(qs)
  {
    assert ([p] + qs)[1..] == qs;
  }

  // ---------------------------------------------------------------------------
  // Integer conversion: `FCString::Atoi`
  // ---------------------------------------------------------------------------

  predicate IsDigit(c: char) { '0' <= c <= '9' }

  predicate IsSpace(c: char) {
    c == ' ' || c == '\t' || c == '\n' || c == '\r' || c as int == 11 || c as int == 12
  }

  predicate AllDigits(s: string) { forall i :: 0 <= i < |s| ==> IsDigit(s[i]) }

  function SkipSpaces(s: string): (r: string)
    ensures |r| > 0 ==> !IsSpace(r[0])
    ensures |s| > 0 && !IsSpace(s[0]) ==> r == s
  {
    if |s| > 0 && IsSpace(s[0]) then SkipSpaces(s[1..]) else s
  }

  /** The longest prefix of `s` made of decimal digits. */
  function LeadingDigits(s: string): (r: string)
    ensures r <= s && AllDigits(r)
    ensures |r| < |s| ==> !IsDigit(s[|r|])
  {
    if |s| > 0 && IsDigit(s[0]) then [s[0]] + LeadingDigits(s[1..]) else []
  }

  /** The value of a string of digits, most significant first. */
  function DigitsValue(ds: string): nat
    requires AllDigits(ds)
  {
    if |ds| == 0 then 0
    else DigitsValue(ds[..|ds| - 1]) * 10 + (ds[|ds| - 1] as int - '0' as int)
  }

  /**
   * `Atoi`: leading white space, an optional sign, then the longest run of
   * digits; text without digits converts to 0.
   */
  function Atoi(s: string): int {
    var t := SkipSpaces(s);
    if |t| > 0 && t[0] == '-' then -(DigitsValue(LeadingDigits(t[1..])) as int)
    else if |t| > 0 && t[0] == '+' then DigitsValue(LeadingDigits(t[1..]))
    else DigitsValue(LeadingDigits(t))
  }

  function DigitChar(d: nat): (c: char)
    requires d < 10
    ensures IsDigit(c) && c as int - '0' as int == d
  {
    ('0' as int + d) as char
  }

  /** Decimal rendering of a natural number, the inverse of `Atoi` on such text. */
  function DecimalText(n: nat): (r: string)
    ensures |r| > 0 && AllDigits(r)
  {
    if n < 10 then [DigitChar(n)] else DecimalText(n / 10) + [DigitChar(n % 10)]
  }

  lemma {:induction false} DigitsValueOfDecimal(n: nat)
    ensures DigitsValue(DecimalText(n)) == n
  {
    var r := DecimalText(n);
    if n >= 10 {
      assert r[..|r| - 1] == DecimalText(n / 10);
      DigitsValueOfDecimal(n / 10);
    }
  }

  lemma {:induction false} LeadingDigitsOfDigits(s: string)
    requires AllDigits(s)
    ensures LeadingDigits(s) == s
  {
    if |s| > 0 {
      LeadingDigitsOfDigits(s[1..]);
      assert [s[0]] + s[1..] == s;
    }
  }

  /** `Atoi` reads back what `DecimalText` writes, with or without a minus sign. */
  lemma AtoiDecimalText(n: nat)
    ensures Atoi(DecimalText(n)) == n
    ensures Atoi("-" + DecimalText(n)) == -(n as int)
  {
    var t := DecimalText(n);
    DigitsValueOfDecimal(n);
    LeadingDigitsOfDigits(t);
    assert !IsSpace(t[0]) && t[0] != '-' && t[0] != '+';
    var m := "-" + t;
    assert !IsSpace(m[0]);
    assert m[1..] == t;
  }

  /** A digit string is worth zero exactly when every digit is '0'. */
  lemma {:induction false} DigitsValueZero(ds: string)
    requires AllDigits(ds)
    ensures DigitsValue(ds) == 0 <==> forall i :: 0 <= i < |ds| ==> ds[i] == '0'
  {
    if |ds| > 0 {
      var init := ds[..|ds| - 1];
      DigitsValueZero(init);
      assert forall i :: 0 <= i < |init| ==> init[i] == ds[i];
    }
  }

  /** A string free of the delimiter is its own only piece. */
  lemma {:induction false} PiecesWithoutDelimiter(s: string, d: string)
    requires |d| > 0
    requires forall k: nat :: !OccursAt(s, d, k)
    ensures Pieces(s, d) == [s]
    decreases |s|
  {
    if |s| > 0 {
      forall k: nat
        ensures !OccursAt(s[1..], d, k)
      {
        if k + |d| <= |s| - 1 {
          assert s[1..][k..k + |d|] == s[k + 1..k + 1 + |d|];
          assert !OccursAt(s, d, k + 1);
        }
      }
      PiecesWithoutDelimiter(s[1..], d);
      assert [s[0]] + s[1..] == s;
    }
  }

  lemma SplitEmpty(d: string)
    requires |d| > 0
    ensures Split([], d) == []
  {
    var e: string := [];
    assert Pieces(e, d) == [e];
    assert [e][1..] == [];
    assert NonEmpty([e]) == NonEmpty([]) == [];
  }

  /** A non-empty string free of the delimiter splits into itself alone. */
  lemma SplitWithoutDelimiter(s: string, d: string)
    requires |d| > 0 && |s| > 0
    requires forall k: nat :: !OccursAt(s, d, k)
    ensures Split(s, d) == [s]
  {
    PiecesWithoutDelimiter(s, d);
    assert [s][1..] == [];
    assert NonEmpty([s]) == [s] + NonEmpty([]);
  }

  /** The delimiter's first character occurs nowhere else in it, as for "\n" and "\r\n". */
  predicate FirstCharUnique(d: string) {
    |d| > 0 && forall i :: 1 <= i < |d| ==> d[i] != d[0]
  }

  lemma NotContained(s: string, d: string)
    requires !Contains(s, d)
    ensures forall k: nat :: !OccursAt(s, d, k)
  {
    forall k: nat ensures !OccursAt(s, d, k) {
      if k <= |s| {
        assert !OccursAt(s, d, k);
      }
    }
  }

  /**
   * A field free of a delimiter whose first character is unique is the
   * first piece of `a + d + b`: no occurrence can straddle the field's end.
   */
  lemma {:induction false} PiecesAfterDelimitedField(a: string, d: string, b: string)
    requires FirstCharUnique(d)
    requires forall k: nat :: !OccursAt(a, d, k)
    ensures Pieces(a + d + b, d) == [a] + Pieces(b, d)
    decreases |a|
  {
    var s := a + d + b;
    if |a| == 0 {
      assert s == d + b;
      assert s[..|d|] == d;
      assert s[|d|..] == b;
    } else {
      assert !OccursAt(s, d, 0) by {
        if |d| <= |a| {
          assert s[..|d|] == a[..|d|];
          assert !OccursAt(a, d, 0);
        } else {
          assert s[..|d|][|a|] == d[0] != d[|a|];
        }
      }
      var tail := a[1..];
      forall k: nat
        ensures !OccursAt(tail, d, k)
      {
        if k + |d| <= |tail| {
          assert tail[k..k + |d|] == a[k + 1..k + 1 + |d|];
          assert !OccursAt(a, d, k + 1);
        }
      }
      assert s[1..] == tail + d + b;
      PiecesAfterDelimitedField(tail, d, b);
      assert [a[0]] + tail == a;
    }
  }

  /** Fields free of such a delimiter are recovered, empty ones included, by cutting their join at it. */
  lemma {:induction false} PiecesOfDelimitedJoin(fs: seq<string>, d: string)
    requires |fs| > 0 && FirstCharUnique(d)
    requires forall i :: 0 <= i < |fs| ==> !Contains(fs[i], d)
    ensures Pieces(Join(fs, d), d) == fs
    decreases |fs|
  {
    NotContained(fs[0], d);
    if |fs| == 1 {
      PiecesWithoutDelimiter(fs[0], d);
    } else {
      var rest := fs[1..];
      assert forall i :: 0 <= i < |rest| ==> rest[i] == fs[i + 1];
      PiecesOfDelimitedJoin(rest, d);
      PiecesAfterDelimitedField(fs[0], d, Join(rest, d));
      assert fs == [fs[0]] + rest;
    }
  }

  lemma {:induction false} JoinSnoc(ps: seq<string>, q: string, d: string)
    requires |ps| > 0
    ensures Join(ps + [q], d) == Join(ps, d) + d + q
    decreases |ps|
  {
    var qs := ps + [q];
    if |ps| == 1 {
      assert qs[1..] == [q];
    } else {
      assert qs[1..] == ps[1..] + [q];
      JoinSnoc(ps[1..], q, d);
    }
  }

  lemma {:induction false} NonEmptyAppend(a: seq<string>, b: seq<string>)
    ensures NonEmpty(a + b) == NonEmpty(a) + NonEmpty(b)
    decreases |a|
  {
    if |a| > 0 {
      assert (a + b)[1..] == a[1..] + b;
      NonEmptyAppend(a[1..], b);
    } else {
      assert a + b == b;
    }
  }

  /**
   * Lines, non-empty and free of a delimiter whose first character is
   * unique, split back into themselves, whether the delimiter only
   * separates them or also ends the last one.
   */
  lemma SplitOfJoin(ls: seq<string>, d: string)
    requires |ls| > 0 && FirstCharUnique(d)
    requires forall i :: 0 <= i < |ls| ==> |ls[i]| > 0 && !Contains(ls[i], d)
    ensures Split(Join(ls, d), d) == ls
    ensures Split(Join(ls, d) + d, d) == ls
  {
    PiecesOfDelimitedJoin(ls, d);
    NonEmptyKeepsFull(ls);
    var e: string := [];
    var ts := ls + [e];
    JoinSnoc(ls, e, d);
    assert Join(ls, d) + d + e == Join(ls, d) + d;
    assert !Contains(e, d);
    assert forall i :: 0 <= i < |ts| ==> !Contains(ts[i], d);
    PiecesOfDelimitedJoin(ts, d);
    NonEmptyAppend(ls, [e]);
    assert [e][1..] == [];
    assert NonEmpty([e]) == NonEmpty([]) == [];
  }

  // ---------------------------------------------------------------------------
  // Sequences of sequences
  // ---------------------------------------------------------------------------

  /** The concatenation of all inner sequences, in order. */
  function Flatten<T>(xss: seq<seq<T>>): (r: seq<T>)
    ensures |xss| == 0 ==> r == []
  {
    if |xss| == 0 then [] else xss[0] + Flatten(xss[1..])
  }

  lemma {:induction false} FlattenAppend<T>(xss: seq<seq<T>>, ys: seq<T>)
    ensures Flatten(xss + [ys]) == Flatten(xss) + ys
  {
    if |xss| == 0 {
      assert xss + [ys] == [ys];
      assert [ys][1..] == [];
    } else {
      assert (xss + [ys])[1..] == xss[1..] + [ys];
      FlattenAppend(xss[1..], ys);
    }
  }
}
