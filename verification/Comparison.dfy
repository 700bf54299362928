/** Facts behind the digit-by-digit comparisons of numbers given as bigits and an exponent. */
module Comparison {
  import opened Arithmetic
  import opened Bigits

  function Sign(x: int): int
  {
    if x < 0 then -1 else if x == 0 then 0 else 1
  }

  /** No leading zero bigit, except in the one-bigit zero. */
  predicate Canonical(s: seq<Bigit>)
  {
    |s| > 0 && (|s| == 1 || s[|s| - 1] != 0)
  }

  lemma CanonicalZero(s: seq<Bigit>, e: nat)
    requires Canonical(s)
    ensures ValAt(s, e) == 0 <==> s == [0]
  {
    if s[|s| - 1] != 0 {
      ValAtTop(s, e);
    } else {
      assert s == [0];
      ValAtOne(0, e);
    }
  }

  /** A number with more positions is larger. */
  lemma MorePositions(s: seq<Bigit>, e: nat, t: seq<Bigit>, f: nat)
    requires |s| > 0 && s[|s| - 1] != 0
    requires f + |t| < e + |s|
    ensures ValAt(t, f) < ValAt(s, e)
  {
    ValAtTop(s, e);
    ValAtBound(t, f);
    PowMonotonic(BASE, f + |t|, e + |s| - 1);
  }

  /** With the tops equal, the first differing bigit decides. */
  lemma FirstDifference(s: seq<Bigit>, e: nat, i: nat, t: seq<Bigit>, f: nat, j: nat)
    requires i < |s| && j < |t| && e + i == f + j
    requires s[i + 1..] == t[j + 1..] && s[i] > t[j]
    ensures ValAt(s, e) > ValAt(t, f)
  {
    DigitSplit(s, e, i);
    DigitSplit(t, f, j);
    ValAtBound(t[..j], f);
    HigherDigitWins(ValAt(s[..i], e), s[i], ValAt(t[..j], f), t[j], Place(e + i));
  }

  lemma HigherDigitWins(a: int, x: int, b: int, y: int, p: int)
    requires 0 <= a && 0 <= b < p && y < x
    ensures a + x * p > b + y * p
  {
    MulLe(y + 1, x, p);
    assert (y + 1) * p == y * p + p;
  }

  lemma DigitSplit(s: seq<Bigit>, e: nat, i: nat)
    requires i < |s|
    ensures ValAt(s, e) == ValAt(s[..i], e) + s[i] * Place(e + i) + ValAt(s[i + 1..], e + i + 1)
  {
    assert s == (s[..i] + [s[i]]) + s[i + 1..];
    ValAtConcat(s[..i] + [s[i]], s[i + 1..], e);
    ValAtConcat(s[..i], [s[i]], e);
    ValAtOne(s[i], e + i);
  }

  /** When one number only has extra low bigits, it is larger by exactly those. */
  lemma ExtraLowBigits(s: seq<Bigit>, e: nat, t: seq<Bigit>, f: nat)
    requires |s| >= |t| && e + |s| == f + |t|
    requires s[|s| - |t|..] == t
    ensures ValAt(s, e) == ValAt(s[..|s| - |t|], e) + ValAt(t, f)
  {
    var k := |s| - |t|;
    assert s == s[..k] + t;
    ValAtConcat(s[..k], t, e);
  }

  /**
   * What comparing two numbers position by position says: the sign of the difference,
   * except that equal numbers written with different lengths are ordered by length.
   */
  function Verdict(s: seq<Bigit>, e: nat, t: seq<Bigit>, f: nat): int
  {
    var d := ValAt(s, e) - ValAt(t, f);
    if d != 0 then Sign(d) else Sign(|s| - |t|)
  }

  /** `s` is a zero written above all positions of `t`. */
  predicate ZeroAbove(s: seq<Bigit>, e: nat, t: seq<Bigit>, f: nat) { s == [0] && e + 1 > f + |t| }

  /** Positions order the numbers by value then. */
  predicate Comparable(s: seq<Bigit>, e: nat, t: seq<Bigit>, f: nat)
  {
    Canonical(s) && Canonical(t) && !ZeroAbove(s, e, t, f) && !ZeroAbove(t, f, s, e)
  }

  /** A comparison with the operand of smaller or equal exponent on the left never misjudges `>=`. */
  lemma VerdictDecidesAtLeast(s: seq<Bigit>, e: nat, t: seq<Bigit>, f: nat)
    requires Comparable(s, e, t, f)
    requires e <= f || ValAt(s, e) != ValAt(t, f)
    ensures Verdict(s, e, t, f) >= 0 <==> ValAt(s, e) >= ValAt(t, f)
  {
    if ValAt(s, e) == ValAt(t, f) {
      EqualPositions(s, e, t, f);
    }
  }

  /** Equal numbers reach up to the same position. */
  lemma EqualPositions(s: seq<Bigit>, e: nat, t: seq<Bigit>, f: nat)
    requires Comparable(s, e, t, f) && ValAt(s, e) == ValAt(t, f)
    ensures e + |s| == f + |t|
  {
    CanonicalZero(s, e);
    CanonicalZero(t, f);
    if s != [0] {
      if e + |s| < f + |t| { MorePositions(t, f, s, e); }
      if f + |t| < e + |s| { MorePositions(s, e, t, f); }
    }
  }

  /** Positions bound how much larger a number is; used to size the divisions. */
  lemma PositionsFromRatio(s: seq<Bigit>, e: nat, t: seq<Bigit>, f: nat)
    requires |s| > 0 && s[|s| - 1] != 0
    requires ValAt(s, e) < BASE * ValAt(t, f)
    ensures e + |s| <= f + |t| + 1
  {
    ValAtTop(s, e);
    ValAtBound(t, f);
    PlaceNext(f + |t|);
    if e + |s| - 1 >= f + |t| + 1 {
      PowMonotonic(BASE, f + |t| + 1, e + |s| - 1);
    }
  }
}
