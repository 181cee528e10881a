/**
 * The Python string built-ins the converter relies on: `str.index`, `str.strip`,
 * `str.split` with a one-character separator, `str.join` and `str(int)`.
 */
module Strings {
  import opened Wrappers

  // ---------------------------------------------------------------- str.index

  /** The first position of `c` in `s`, or None where `str.index` would raise. */
  function IndexOf(s: string, c: char): Option<nat> {
    if s == [] then None
    else if s[0] == c then Some(0)
    else
      match IndexOf(s[1..], c)
      case None => None
      case Some(i) => Some(i + 1)
  }

  /** IndexOf finds the first occurrence, and finds nothing only when there is none. */
  lemma {:induction false} IndexOfSpec(s: string, c: char)
    ensures IndexOf(s, c).Some? ==>
      var i := IndexOf(s, c).value;
      i < |s| && s[i] == c && forall j | 0 <= j < i :: s[j] != c
    ensures IndexOf(s, c).None? <==> c !in s
  {
    if s != [] && s[0] != c {
      IndexOfSpec(s[1..], c);
      assert s == [s[0]] + s[1..];
    }
  }

  /** A first occurrence is what IndexOf finds. */
  lemma IndexOfAt(s: string, c: char, i: nat)
    requires i < |s| && s[i] == c
    requires forall j | 0 <= j < i :: s[j] != c
    ensures IndexOf(s, c) == Some(i)
  {
    IndexOfSpec(s, c);
  }

  // ---------------------------------------------------------------- str.strip

  /** Every character of `t` is one that `drop` removes. */
  predicate AllDropped(t: string, drop: char -> bool) {
    forall k | 0 <= k < |t| :: drop(t[k])
  }

  /** Neither end of `r` is a character that `drop` removes. */
  predicate Bare(r: string, drop: char -> bool) {
    r == [] || (!drop(r[0]) && !drop(r[|r| - 1]))
  }

  /**
   * `r` is what remains of `s` once every leading and every trailing character
   * satisfying `drop` is removed: a contiguous piece of `s` whose surroundings are
   * all dropped and whose own ends are not.
   */
  ghost predicate IsStripOf(r: string, s: string, drop: char -> bool) {
    exists i, j | 0 <= i <= j <= |s| :: CutAt(s, i, j, drop) && r == s[i..j]
  }

  /** A decomposition with its cut points given witnesses IsStripOf. */
  lemma CutWitness(r: string, s: string, i: int, j: int, drop: char -> bool)
    requires CutAt(s, i, j, drop) && r == s[i..j]
    ensures IsStripOf(r, s, drop)
  {
  }

  /**
   * `s.strip(chars)`: removes every leading and every trailing character
   * satisfying `drop`, one at a time from the front, then from the back.
   */
  function Strip(s: string, drop: char -> bool): (r: string)
    ensures IsStripOf(r, s, drop)
    decreases |s|
  {
    if s != [] && drop(s[0]) then
      var r := Strip(s[1..], drop);
      DropFirst(s, r, drop);
      r
    else if s != [] && drop(s[|s| - 1]) then
      var r := Strip(s[..|s| - 1], drop);
      DropLast(s, r, drop);
      r
    else
      assert s == s[0..|s|] && s[..0] == [] && s[|s|..] == [];
      CutWitness(s, s, 0, |s|, drop);
      s
  }

  /** A dropped first character joins the stripped prefix. */
  lemma DropFirst(s: string, r: string, drop: char -> bool)
    requires s != [] && drop(s[0]) && IsStripOf(r, s[1..], drop)
    ensures IsStripOf(r, s, drop)
  {
    var i, j :| 0 <= i <= j <= |s[1..]| && CutAt(s[1..], i, j, drop) && r == s[1..][i..j];
    ShiftCutRight(s, i, j, drop);
    CutWitness(r, s, i + 1, j + 1, drop);
  }

  /** A cut of `s[1..]` is a cut of `s`, one position further on, when `s[0]` is dropped. */
  lemma ShiftCutRight(s: string, i: int, j: int, drop: char -> bool)
    requires s != [] && drop(s[0]) && CutAt(s[1..], i, j, drop)
    ensures CutAt(s, i + 1, j + 1, drop) && s[1..][i..j] == s[i + 1..j + 1]
  {
    var t := s[1..];
    assert t[i..j] == s[i + 1..j + 1];
    var pre, post := s[..i + 1], s[j + 1..];
    forall k | 0 <= k < |pre|
      ensures drop(pre[k])
    {
      if k > 0 { assert pre[k] == t[..i][k - 1]; }
    }
    forall k | 0 <= k < |post|
      ensures drop(post[k])
    {
      assert post[k] == t[j..][k];
    }
  }

  /** A dropped last character joins the stripped suffix. */
  lemma DropLast(s: string, r: string, drop: char -> bool)
    requires s != [] && drop(s[|s| - 1]) && IsStripOf(r, s[..|s| - 1], drop)
    ensures IsStripOf(r, s, drop)
  {
    var i, j :| 0 <= i <= j <= |s[..|s| - 1]| && CutAt(s[..|s| - 1], i, j, drop) && r == s[..|s| - 1][i..j];
    ExtendCut(s, i, j, drop);
    CutWitness(r, s, i, j, drop);
  }

  /** A cut of all but the last character of `s` is a cut of `s` when that character is dropped. */
  lemma ExtendCut(s: string, i: int, j: int, drop: char -> bool)
    requires s != [] && drop(s[|s| - 1]) && CutAt(s[..|s| - 1], i, j, drop)
    ensures CutAt(s, i, j, drop) && s[..|s| - 1][i..j] == s[i..j]
  {
    var t := s[..|s| - 1];
    assert t[i..j] == s[i..j];
    assert s[..i] == t[..i];
    var post := s[j..];
    forall k | 0 <= k < |post|
      ensures drop(post[k])
    {
      if k < |t| - j { assert post[k] == t[j..][k]; }
    }
  }

  /** A kept character of `s` lies inside the part a decomposition keeps. */
  lemma KeptInside(s: string, i: int, j: int, drop: char -> bool, p: int)
    requires 0 <= i <= j <= |s| && AllDropped(s[..i], drop) && AllDropped(s[j..], drop)
    requires 0 <= p < |s| && !drop(s[p])
    ensures i <= p < j
  {
  }

  /** A decomposition as in IsStripOf, with its cut points given. */
  predicate CutAt(s: string, i: int, j: int, drop: char -> bool) {
    0 <= i <= j <= |s| && AllDropped(s[..i], drop) && AllDropped(s[j..], drop) && Bare(s[i..j], drop)
  }

  /** Two decompositions keep the same piece. */
  lemma SameCut(s: string, i1: int, j1: int, i2: int, j2: int, drop: char -> bool)
    requires CutAt(s, i1, j1, drop) && CutAt(s, i2, j2, drop)
    ensures s[i1..j1] == s[i2..j2]
  {
    if i1 < j1 {
      // the ends of the first piece are kept characters, so they lie within the second
      assert s[i1..j1][0] == s[i1] && s[i1..j1][j1 - i1 - 1] == s[j1 - 1];
      KeptInside(s, i2, j2, drop, i1);
      KeptInside(s, i2, j2, drop, j1 - 1);
    }
    if i2 < j2 {
      assert s[i2..j2][0] == s[i2] && s[i2..j2][j2 - i2 - 1] == s[j2 - 1];
      KeptInside(s, i1, j1, drop, i2);
      KeptInside(s, i1, j1, drop, j2 - 1);
    }
  }

  /** Two decompositions of `s` as in IsStripOf yield the same string. */
  lemma StripDecompositionUnique(s: string, r1: string, r2: string, drop: char -> bool)
    requires IsStripOf(r1, s, drop) && IsStripOf(r2, s, drop)
    ensures r1 == r2
  {
    var i1, j1 :| 0 <= i1 <= j1 <= |s| && CutAt(s, i1, j1, drop) && r1 == s[i1..j1];
    var i2, j2 :| 0 <= i2 <= j2 <= |s| && CutAt(s, i2, j2, drop) && r2 == s[i2..j2];
    SameCut(s, i1, j1, i2, j2, drop);
  }

  /** Strip is the only function meeting the description IsStripOf. */
  lemma StripUnique(s: string, r: string, drop: char -> bool)
    requires IsStripOf(r, s, drop)
    ensures r == Strip(s, drop)
  {
    StripDecompositionUnique(s, r, Strip(s, drop), drop);
  }

  /** A string whose ends are not dropped is left as it is. */
  lemma StripBare(s: string, drop: char -> bool)
    requires Bare(s, drop)
    ensures Strip(s, drop) == s
  {
    assert s == s[0..|s|] && s[..0] == [] && s[|s|..] == [];
    CutWitness(s, s, 0, |s|, drop);
    StripUnique(s, s, drop);
  }

  /** Dropped characters around a piece with kept ends are exactly what Strip removes. */
  lemma StripSurrounded(pre: string, mid: string, post: string, drop: char -> bool)
    requires AllDropped(pre, drop) && AllDropped(post, drop) && Bare(mid, drop)
    ensures Strip(pre + mid + post, drop) == mid
  {
    var s := pre + mid + post;
    assert s[..|pre|] == pre && s[|pre|..|pre| + |mid|] == mid && s[|pre| + |mid|..] == post;
    CutWitness(mid, s, |pre|, |pre| + |mid|, drop);
    StripUnique(s, mid, drop);
  }

  /** The result of Strip has no dropped character at either end. */
  lemma StripIsBare(s: string, drop: char -> bool)
    ensures Bare(Strip(s, drop), drop)
  {
  }

  /** Stripping twice is stripping once. */
  lemma StripIdempotent(s: string, drop: char -> bool)
    ensures Strip(Strip(s, drop), drop) == Strip(s, drop)
  {
    StripIsBare(s, drop);
    StripBare(Strip(s, drop), drop);
  }

  /**
   * The characters `str.strip()` without arguments removes: those for which
   * Python's `str.isspace` holds.
   */
  predicate IsSpace(c: char) {
    var n := c as int;
    n == 0x20 || 0x09 <= n <= 0x0D || 0x1C <= n <= 0x1F || n == 0x85 || n == 0xA0
    || n == 0x1680 || 0x2000 <= n <= 0x200A || n == 0x2028 || n == 0x2029
    || n == 0x202F || n == 0x205F || n == 0x3000
  }

  // ---------------------------------------------------------------- str.split, str.join

  /** The number of occurrences of `c` in `s`. */
  function Count(s: string, c: char): nat {
    if s == [] then 0 else (if s[0] == c then 1 else 0) + Count(s[1..], c)
  }

  lemma {:induction false} CountAppend(a: string, b: string, c: char)
    ensures Count(a + b, c) == Count(a, c) + Count(b, c)
  {
    if a != [] {
      assert (a + b)[1..] == a[1..] + b;
      CountAppend(a[1..], b, c);
    } else {
      assert a + b == b;
    }
  }

  lemma {:induction false} CountAbsent(s: string, c: char)
    requires c !in s
    ensures Count(s, c) == 0
  {
    if s != [] { CountAbsent(s[1..], c); }
  }

  /** `s.split(sep)` for a one-character separator. */
  function Split(s: string, sep: char): (parts: seq<string>)
    ensures |parts| >= 1
    ensures forall k | 0 <= k < |parts| :: sep !in parts[k]
    decreases |s|
  {
    IndexOfSpec(s, sep);
    match IndexOf(s, sep)
    case None => [s]
    case Some(i) => [s[..i]] + Split(s[i + 1..], sep)
  }

  /** Splitting yields one more piece than there are separators. */
  lemma {:induction false} SplitCount(s: string, sep: char)
    ensures |Split(s, sep)| == Count(s, sep) + 1
    decreases |s|
  {
    IndexOfSpec(s, sep);
    match IndexOf(s, sep)
    case None => CountAbsent(s, sep);
    case Some(i) =>
      assert s == s[..i] + ([s[i]] + s[i + 1..]);
      CountAppend(s[..i], [s[i]] + s[i + 1..], sep);
      CountAppend([s[i]], s[i + 1..], sep);
      CountAbsent(s[..i], sep);
      assert Count([s[i]], sep) == 1 by { assert [s[i]][1..] == []; }
      SplitCount(s[i + 1..], sep);
  }

  /** `sep.join(parts)`. */
  function Join(parts: seq<string>, sep: string): string {
    if |parts| == 0 then ""
    else if |parts| == 1 then parts[0]
    else parts[0] + sep + Join(parts[1..], sep)
  }

  /** Joining the pieces of a split with the same separator restores the string. */
  lemma {:induction false} JoinSplit(s: string, sep: char)
    ensures Join(Split(s, sep), [sep]) == s
    decreases |s|
  {
    IndexOfSpec(s, sep);
    match IndexOf(s, sep)
    case None =>
    case Some(i) =>
      var rest := Split(s[i + 1..], sep);
      assert Split(s, sep) == [s[..i]] + rest;
      assert ([s[..i]] + rest)[1..] == rest;
      JoinSplit(s[i + 1..], sep);
      assert s == s[..i] + [sep] + s[i + 1..];
  }

  /** Splitting a join of separator-free pieces gives the pieces back. */
  lemma {:induction false} SplitJoin(parts: seq<string>, sep: char)
    requires |parts| >= 1
    requires forall k | 0 <= k < |parts| :: sep !in parts[k]
    ensures Split(Join(parts, [sep]), sep) == parts
  {
    var p := parts[0];
    if |parts| == 1 {
      IndexOfSpec(p, sep);
    } else {
      var tail := Join(parts[1..], [sep]);
      var s := p + [sep] + tail;
      IndexOfAt(s, sep, |p|);
      var i := |p|;
      assert s[..i] == p;
      assert s[i + 1..] == tail;
      SplitJoin(parts[1..], sep);
      assert [p] + parts[1..] == parts;
    }
  }

  /** Appending one piece to a non-empty join. */
  lemma {:induction false} JoinSnoc(parts: seq<string>, last: string, sep: string)
    requires |parts| >= 1
    ensures Join(parts + [last], sep) == Join(parts, sep) + sep + last
  {
    if |parts| == 1 {
      assert (parts + [last])[1..] == [last];
    } else {
      assert (parts + [last])[1..] == parts[1..] + [last];
      JoinSnoc(parts[1..], last, sep);
    }
  }

  // ---------------------------------------------------------------- str(int)

  predicate IsDigit(c: char) {
    '0' <= c <= '9'
  }

  predicate AllDigits(s: string) {
    forall k | 0 <= k < |s| :: IsDigit(s[k])
  }

  function DigitChar(d: nat): (c: char)
    requires d < 10
    ensures IsDigit(c) && c as int - '0' as int == d
  {
    ('0' as int + d) as char
  }

  /** The decimal digits of `n`, most significant first, without leading zeros. */
  function NatDecimal(n: nat): (s: string)
    ensures |s| >= 1 && AllDigits(s)
    ensures s[0] == '0' ==> n == 0
  {
    if n < 10 then [DigitChar(n)] else NatDecimal(n / 10) + [DigitChar(n % 10)]
  }

  /** Python's `str(n)` for an integer `n`. */
  function DecimalString(n: int): (s: string)
    ensures |s| >= 1
    ensures forall k | 0 <= k < |s| :: IsDigit(s[k]) || (k == 0 && s[k] == '-')
  {
    if n < 0 then "-" + NatDecimal(-n) else NatDecimal(n)
  }

  /** The number a string of decimal digits denotes. */
  function DigitsValue(s: string): nat
    requires AllDigits(s)
  {
    if s == [] then 0
    else DigitsValue(s[..|s| - 1]) * 10 + (s[|s| - 1] as int - '0' as int)
  }

  /** Python's `int(s)` restricted to an optional minus sign followed by digits. */
  function ParseDecimal(s: string): Option<int> {
    if |s| >= 2 && s[0] == '-' && AllDigits(s[1..]) then
      var v: int := DigitsValue(s[1..]);
      Some(-v)
    else if |s| >= 1 && AllDigits(s) then Some(DigitsValue(s))
    else None
  }

  lemma {:induction false} NatDecimalValue(n: nat)
    ensures DigitsValue(NatDecimal(n)) == n
  {
    if n >= 10 {
      var s := NatDecimal(n);
      assert s[..|s| - 1] == NatDecimal(n / 10);
      NatDecimalValue(n / 10);
    }
  }

  /** `int(str(n)) == n`: the decimal rendering loses nothing. */
  lemma DecimalRoundTrip(n: int)
    ensures ParseDecimal(DecimalString(n)) == Some(n)
  {
    if n < 0 {
      assert DecimalString(n)[1..] == NatDecimal(-n);
      NatDecimalValue(-n);
    } else {
      NatDecimalValue(n);
    }
  }
}
