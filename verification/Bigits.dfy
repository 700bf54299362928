/** Little-endian sequences of 32-bit digits and the number they stand for. */
module Bigits {
  import opened Arithmetic

  const BASE: nat := WORD32

  type Bigit = x: int | 0 <= x < BASE witness 0

  /** The place value of position `i`. */
  function Place(i: nat): (p: nat)
    ensures p > 0
  {
    Pow(BASE, i)
  }

  function Val(s: seq<Bigit>): nat
  {
    if s == [] then 0 else s[0] + BASE * Val(s[1..])
  }

  lemma PlaceNext(i: nat)
    ensures Place(i + 1) == BASE * Place(i)
  {
  }

  lemma {:induction false} ValSnoc(s: seq<Bigit>, d: Bigit)
    ensures Val(s + [d]) == Val(s) + d * Place(|s|)
  {
    if s == [] {
      assert s + [d] == [d];
    } else {
      ValSnoc(s[1..], d);
      assert (s + [d])[1..] == s[1..] + [d];
      SnocArithmetic(Val(s[1..]), d, Place(|s| - 1));
    }
  }

  lemma SnocArithmetic(v: int, d: int, p: int)
    ensures BASE * (v + d * p) == BASE * v + d * (BASE * p)
  {
  }

  lemma ValLast(s: seq<Bigit>)
    requires |s| > 0
    ensures Val(s) == Val(s[..|s| - 1]) + s[|s| - 1] * Place(|s| - 1)
  {
    assert s == s[..|s| - 1] + [s[|s| - 1]];
    ValSnoc(s[..|s| - 1], s[|s| - 1]);
  }

  lemma ValPrefix(s: seq<Bigit>, i: nat)
    requires i < |s|
    ensures Val(s[..i + 1]) == Val(s[..i]) + s[i] * Place(i)
  {
    assert s[..i + 1] == s[..i] + [s[i]];
    ValSnoc(s[..i], s[i]);
  }

  lemma ValTopZero(s: seq<Bigit>)
    requires |s| > 0 && s[|s| - 1] == 0
    ensures Val(s) == Val(s[..|s| - 1])
  {
    ValLast(s);
  }

  lemma {:induction false} ValBound(s: seq<Bigit>)
    ensures Val(s) < Place(|s|)
  {
    if s == [] {
    } else {
      ValBound(s[1..]);
      PlaceNext(|s| - 1);
    }
  }

  /** A number without a leading zero bigit is at least the place value of its top position. */
  lemma ValTop(s: seq<Bigit>)
    requires |s| > 0 && s[|s| - 1] != 0
    ensures Place(|s| - 1) <= Val(s)
  {
    MulLe(1, s[|s| - 1], Place(|s| - 1));
  }

  lemma Distribute(v: int, d: int, p: int, q: int)
    ensures (v + d * p) * q == v * q + d * (q * p)
  {
    assert d * (q * p) == (d * p) * q;
  }

  lemma NonZeroTop(s: seq<Bigit>)
    requires |s| > 0 && Place(|s| - 1) <= Val(s)
    ensures s[|s| - 1] != 0
  {
    if s[|s| - 1] == 0 {
      ValTopZero(s);
      ValBound(s[..|s| - 1]);
    }
  }

  lemma {:induction false} ValConcat(s: seq<Bigit>, t: seq<Bigit>)
    ensures Val(s + t) == Val(s) + Val(t) * Place(|s|)
  {
    if s == [] {
      assert s + t == t;
    } else {
      ValConcat(s[1..], t);
      assert (s + t)[1..] == s[1..] + t;
      SnocArithmetic(Val(s[1..]), Val(t), Place(|s| - 1));
    }
  }

  function Zeros(n: nat): (z: seq<Bigit>)
    ensures |z| == n
    ensures forall i :: 0 <= i < n ==> z[i] == 0
  {
    seq(n, i => 0)
  }

  lemma {:induction false} ValZeros(s: seq<Bigit>)
    requires forall i :: 0 <= i < |s| ==> s[i] == 0
    ensures Val(s) == 0
  {
    if s == [] {
    } else {
      ValZeros(s[1..]);
    }
  }

  /** Changing one position changes the value by the difference of the digits there. */
  lemma {:induction false} ValUpdate(s: seq<Bigit>, i: nat, d: Bigit)
    requires i < |s|
    ensures Val(s[i := d]) == Val(s) + (d - s[i]) * Place(i)
  {
    if i == 0 {
      assert s[i := d][1..] == s[1..];
      assert (d - s[i]) * Place(0) == d - s[i];
    } else {
      assert s[i := d][1..] == s[1..][i - 1 := d];
      ValUpdate(s[1..], i - 1, d);
      SnocArithmetic(Val(s[1..]), d - s[i], Place(i - 1));
    }
  }

  /** The number a bigit sequence stands for when its lowest position has exponent `e`. */
  function ValAt(s: seq<Bigit>, e: nat): nat
  {
    if e == 0 then Val(s) else BASE * ValAt(s, e - 1)
  }

  lemma {:induction false} ValAtIs(s: seq<Bigit>, e: nat)
    ensures ValAt(s, e) == Val(s) * Place(e)
  {
    if e > 0 {
      ValAtIs(s, e - 1);
      SnocArithmetic(0, Val(s), Place(e - 1));
    }
  }

  lemma ValAtConcat(s: seq<Bigit>, t: seq<Bigit>, e: nat)
    ensures ValAt(s + t, e) == ValAt(s, e) + ValAt(t, e + |s|)
  {
    ValAtIs(s + t, e);
    ValAtIs(s, e);
    ValAtIs(t, e + |s|);
    ValConcat(s, t);
    PowAdd(BASE, e, |s|);
    Distribute(Val(s), Val(t), Place(|s|), Place(e));
  }

  lemma ValAtOne(d: Bigit, e: nat)
    ensures ValAt([d], e) == d * Place(e)
  {
    ValAtIs([d], e);
  }

  lemma ValAtBound(s: seq<Bigit>, e: nat)
    ensures ValAt(s, e) < Place(e + |s|)
  {
    ValAtIs(s, e);
    ValBound(s);
    PowAdd(BASE, e, |s|);
    MulLt(Val(s), Place(|s|), Place(e));
  }

  /** A number whose top bigit is not zero is at least the place value of that bigit. */
  lemma ValAtTop(s: seq<Bigit>, e: nat)
    requires |s| > 0 && s[|s| - 1] != 0
    ensures 0 < Place(e + |s| - 1) <= ValAt(s, e)
  {
    ValAtIs(s, e);
    ValTop(s);
    PowAdd(BASE, e, |s| - 1);
    MulLe(Place(|s| - 1), Val(s), Place(e));
  }

  /** One step of a multiply-with-carry loop over the bigits from the low end. */
  lemma CarryStep(v: int, c: int, w: int, k: int, p: int, x: int, d: int, c': int)
    requires v + c * p == w * k
    requires x * k + c == d + BASE * c'
    ensures (v + d * p) + c' * (BASE * p) == (w + x * p) * k
  {
    assert d * p + c' * (BASE * p) == (d + BASE * c') * p;
    assert (x * k + c) * p == (x * p) * k + c * p;
  }

  /** Positions `m` to `n` of the number `ValAt(s, e)`, lowest first. */
  function Aligned(s: seq<Bigit>, e: nat, m: nat, n: nat): (r: seq<Bigit>)
    requires m <= e && e + |s| <= n
    ensures |r| == n - m
  {
    Zeros(e - m) + s + Zeros(n - e - |s|)
  }

  lemma ZerosAt(s: seq<Bigit>, e: nat)
    requires forall i :: 0 <= i < |s| ==> s[i] == 0
    ensures ValAt(s, e) == 0
  {
    ValZeros(s);
    ValAtIs(s, e);
  }

  lemma AlignedValue(s: seq<Bigit>, e: nat, m: nat, n: nat)
    requires m <= e && e + |s| <= n
    ensures ValAt(Aligned(s, e, m, n), m) == ValAt(s, e)
  {
    var lo, hi := Zeros(e - m), Zeros(n - e - |s|);
    ZerosAt(lo, m);
    ZerosAt(hi, e + |s|);
    ValAtConcat(lo + s, hi, m);
    ValAtConcat(lo, s, m);
  }

  lemma ValCons(s: seq<Bigit>, k: nat)
    requires k < |s|
    ensures Val(s[k..]) == s[k] + BASE * Val(s[k + 1..])
  {
    assert s[k..][1..] == s[k + 1..];
  }

  lemma ValSplit(s: seq<Bigit>, k: nat)
    requires k <= |s|
    ensures Val(s) == Val(s[..k]) + Val(s[k..]) * Place(k)
    ensures Val(s[..k]) < Place(k)
  {
    assert s == s[..k] + s[k..];
    ValConcat(s[..k], s[k..]);
    ValBound(s[..k]);
  }
}
