/**
 * Exact digit generation with big integers (Steele & White): a given number of digits rounded half
 * to even, or the shortest digits inside the rounding interval.
 */
module Dragon4 {
  import opened Arithmetic
  import opened Bigits
  import opened Comparison
  import opened BigIntegers
  import opened Decimal

  /** A positive binary floating-point value `f * 2^e`. */
  datatype Fp = Fp(f: nat, e: int)
  {
    ghost predicate Valid() { 0 < f < 0x20_0000_0000_0000 }
  }

  /** 1, or 2 when the gap below the value is half the gap above it. */
  function Shift(closer: bool): nat { if closer then 2 else 1 }

  ghost function NumeratorOf(v: Fp, closer: bool, exp10: int): nat
  {
    v.f * Pow(2, Shift(closer)) * LowerOf(v, exp10)
  }

  ghost function DenominatorOf(v: Fp, closer: bool, exp10: int): nat
  {
    Pow(10, Above(exp10)) * Pow(2, Shift(closer) + Above(-v.e))
  }

  /** A quarter or half of the unit in the last binary place, on the scale of the numerator. */
  ghost function LowerOf(v: Fp, exp10: int): nat
  {
    Pow(2, Above(v.e)) * Pow(10, Above(-exp10))
  }

  ghost function UpperOf(v: Fp, closer: bool, exp10: int): nat
  {
    if closer then 2 * LowerOf(v, exp10) else LowerOf(v, exp10)
  }

  /** The invariant that `fallback_format` states: value == (numerator / denominator) * 10^exp10. */
  lemma RatioIsValue(v: Fp, closer: bool, exp10: int)
    ensures NumeratorOf(v, closer, exp10) * Pow(10, Above(exp10)) * Pow(2, Above(-v.e))
         == (v.f * Pow(2, Above(v.e))) * (DenominatorOf(v, closer, exp10) * Pow(10, Above(-exp10)))
  {
    PowAdd(2, Shift(closer), Above(-v.e));
    RatioArithmetic(v.f, Pow(2, Shift(closer)), Pow(2, Above(v.e)), Pow(10, Above(-exp10)),
                    Pow(10, Above(exp10)), Pow(2, Above(-v.e)));
  }

  lemma RatioArithmetic(f: int, s: int, u: int, n: int, p: int, w: int)
    ensures (f * s * (u * n)) * p * w == (f * u) * ((p * (s * w)) * n)
  {
    assert (f * s * (u * n)) * p == (f * u) * ((p * s) * n);
    assert ((f * u) * ((p * s) * n)) * w == (f * u) * ((p * (s * w)) * n);
  }

  /**
   * The gaps are half the distances to the neighbouring floating-point values, on the scale of the numerator. The
   * value below is `(f - 1) * 2^e`, or `(2 * f - 1) * 2^(e - 1)` where that is closer.
   */
  lemma GapsAreHalfDistances(v: Fp, closer: bool, exp10: int)
    requires v.f > 0
    ensures NumeratorOf(Fp(v.f + 1, v.e), closer, exp10)
            == NumeratorOf(v, closer, exp10) + 2 * UpperOf(v, closer, exp10)
    ensures !closer ==>
              NumeratorOf(v, closer, exp10) == NumeratorOf(Fp(v.f - 1, v.e), closer, exp10) + 2 * LowerOf(v, exp10)
    ensures closer ==>
              2 * NumeratorOf(v, closer, exp10)
              == NumeratorOf(Fp(2 * v.f - 1, v.e), closer, exp10) + 2 * (2 * LowerOf(v, exp10))
  {
    assert Pow(2, 1) == 2 && Pow(2, 2) == 4;
    var l, k := LowerOf(v, exp10), if closer then 4 else 2;
    Multiples(v.f, k, l);
  }

  lemma Multiples(f: int, k: int, l: int)
    ensures (f + 1) * k * l == f * k * l + k * l && f * k * l == (f - 1) * k * l + k * l
    ensures 2 * (f * k * l) == (2 * f - 1) * k * l + k * l
  {
  }

  /** Round `n / d` to an integer, ties to the even one. */
  function RoundHalfEven(n: nat, d: nat): nat
    requires d > 0
  {
    var q, r := n / d, n % d;
    if 2 * r > d || (2 * r == d && q % 2 == 1) then q + 1 else q
  }

  lemma Rounding(n: nat, d: nat, q: nat, r: nat)
    requires n == q * d + r && r < d
    ensures RoundHalfEven(n, d) == if 2 * r > d || (2 * r == d && q % 2 == 1) then q + 1 else q
  {
    DivModUnique(n, d, q, r);
  }

  /** The rounded integer is nearest: no other integer is closer, and the only equal rival is odd. */
  lemma RoundHalfEvenIsNearest(n: nat, d: nat, w: int)
    requires d > 0
    ensures var q := RoundHalfEven(n, d);
            Abs(q * d - n) <= Abs(w * d - n)
            && (Abs(q * d - n) == Abs(w * d - n) && w != q ==> q % 2 == 0)
  {
    var t, r := n / d, n % d;
    var q := RoundHalfEven(n, d);
    assert n == t * d + r;
    assert (w - t) * d == w * d - t * d;
    assert (t + 1) * d == t * d + d;
    if w - t >= 2 {
      MulLe(2, w - t, d);
    } else if w - t <= -1 {
      MulLe(w - t, -1, d);
    } else {
      assert w == t || w == t + 1;
    }
  }

  function Abs(x: int): nat { if x < 0 then -x else x }

  /** What the division loop needs from its operands. */
  ghost predicate Dividable(numerator: Bigint, denominator: Bigint)
    reads numerator, denominator
  {
    && numerator != denominator
    && numerator.Normal() && denominator.Positive()
    && (numerator.bigits == [0] ==> numerator.exp <= denominator.exp)
    && numerator.Value() < 10 * denominator.Value()
    && (numerator.exp > denominator.exp ==> NeverReaches(numerator.Value(), denominator.Value()))
  }

  /** No power-of-ten multiple of `n` is `d`. */
  ghost predicate NeverReaches(n: nat, d: nat)
  {
    forall j: nat :: n * Pow(10, j) != d
  }

  lemma StillNeverReaches(n: nat, d: nat)
    requires NeverReaches(n, d)
    ensures NeverReaches(n * 10, d)
  {
    forall j: nat ensures (n * 10) * Pow(10, j) != d {
      assert n * Pow(10, j + 1) != d;
      assert n * (10 * Pow(10, j)) == (n * 10) * Pow(10, j);
    }
  }

  /** One digit: divides and leaves the remainder. */
  method NextDigit(numerator: Bigint, denominator: Bigint) returns (digit: nat)
    requires Dividable(numerator, denominator)
    modifies numerator
    ensures old(numerator.Value()) == digit * denominator.Value() + numerator.Value()
    ensures numerator.Value() < denominator.Value() && digit <= 9
    ensures numerator.Normal() && numerator.exp <= old(numerator.exp)
    ensures old(numerator.exp) <= denominator.exp ==> numerator.exp == old(numerator.exp)
    ensures if digit == 0 then numerator.exp == old(numerator.exp) else numerator.exp <= denominator.exp
    ensures numerator.bigits == [0] ==> numerator.exp <= denominator.exp
    ensures numerator.exp > denominator.exp ==> NeverReaches(numerator.Value(), denominator.Value())
  {
    ghost var d := denominator.Value();
    ghost var v := numerator.Value();
    if numerator.bigits != [0] {
      PositionsFromRatio(numerator.bigits, numerator.exp, denominator.bigits, denominator.exp);
    }
    if numerator.exp > denominator.exp {
      assert v * Pow(10, 0) != d;
    }
    digit := numerator.DivModAssign(denominator);
    if digit >= 10 {
      MulLe(10, digit, d);
    }
  }

  method TimesTen(numerator: Bigint, denominator: Bigint)
    requires numerator != denominator
    requires numerator.Normal() && denominator.Positive()
    requires numerator.Value() < denominator.Value()
    requires numerator.bigits == [0] ==> numerator.exp <= denominator.exp
    requires numerator.exp > denominator.exp ==> NeverReaches(numerator.Value(), denominator.Value())
    modifies numerator
    ensures Dividable(numerator, denominator)
    ensures numerator.Value() == 10 * old(numerator.Value())
    ensures numerator.exp == old(numerator.exp)
  {
    if numerator.exp > denominator.exp {
      StillNeverReaches(numerator.Value(), denominator.Value());
    }
    CanonicalZero(numerator.bigits, numerator.exp);
    numerator.Multiply32(10);
    CanonicalZero(numerator.bigits, numerator.exp);
  }

  /** The digits of `numerator / denominator`, `numDigits` of them, rounded half to even. */
  method GivenDigits(numerator: Bigint, denominator: Bigint, numDigits: nat, exp10: int)
    returns (buf: array<char>, exp: int)
    requires numDigits > 0 && Dividable(numerator, denominator)
    modifies numerator
    ensures fresh(buf) && buf.Length == numDigits && AllDigits(buf[..])
    ensures exp10 <= exp <= exp10 + 1
    ensures TimesTenIf(exp > exp10, DecVal(buf[..]))
         == RoundHalfEven(old(numerator.Value()) * Pow(10, numDigits - 1), denominator.Value())
  {
    exp := exp10;
    buf := new char[numDigits](_ => '0');
    ghost var n0, d := numerator.Value(), denominator.Value();
    var last := numDigits - 1;
    for i := 0 to last
      invariant AllDigits(buf[..i]) && Dividable(numerator, denominator)
      invariant DigitsSoFar(n0, d, buf[..i], numerator.Value())
    {
      GivenDigit(n0, numerator, denominator, buf, i);
    }
    ghost var prefix := buf[..last];
    var digit := NextDigit(numerator, denominator);
    LastDigit(n0, d, prefix, digit, numerator.Value());
    var up := RoundsUp(numerator, denominator, digit);
    assert buf[..last] == prefix;
    exp := StoreLast(buf, digit, up, exp10);
  }

  /** One of the leading digits. */
  method GivenDigit(ghost n: nat, numerator: Bigint, denominator: Bigint, buf: array<char>, i: nat)
    requires i < buf.Length && AllDigits(buf[..i]) && Dividable(numerator, denominator)
    requires DigitsSoFar(n, denominator.Value(), buf[..i], numerator.Value())
    modifies numerator, buf
    ensures AllDigits(buf[..i + 1]) && Dividable(numerator, denominator)
    ensures DigitsSoFar(n, denominator.Value(), buf[..i + 1], numerator.Value())
  {
    ghost var prefix := buf[..i];
    var digit := NextDigit(numerator, denominator);
    buf[i] := DigitChar(digit);
    assert buf[..i + 1] == prefix + [DigitChar(digit)];
    AddDigit(n, denominator.Value(), prefix, digit, numerator.Value());
    TimesTen(numerator, denominator);
  }

  /** What the digits stand for when rounding moved the exponent up by one. */
  function TimesTenIf(bumped: bool, v: int): int
  {
    if bumped then 10 * v else v
  }

  /** Stores the last digit, rounded up or not, with the carry out of a 9. */
  method StoreLast(buf: array<char>, digit: nat, up: bool, exp10: int) returns (exp: int)
    requires buf.Length > 0 && digit <= 9 && AllDigits(buf[..buf.Length - 1])
    modifies buf
    ensures AllDigits(buf[..]) && exp10 <= exp <= exp10 + 1
    ensures TimesTenIf(exp > exp10, DecVal(buf[..]))
         == 10 * DecVal(old(buf[..buf.Length - 1])) + digit + if up then 1 else 0
  {
    exp := exp10;
    var last := buf.Length - 1;
    ghost var prefix := buf[..last];
    var c := if up then DigitChar(digit + 1) else DigitChar(digit);
    buf[last] := c;
    DecSnoc(prefix, c);
    assert buf[..] == prefix + [c];
    if up && digit == 9 {
      exp := CarryOut(buf, exp);
    }
  }

  /** Carries an overflow in the last digit to the front, and out of it into the exponent. */
  method CarryOut(buf: array<char>, exp10: int) returns (exp: int)
    requires buf.Length > 0 && AllDigits(buf[..buf.Length - 1]) && buf[buf.Length - 1] == OVERFLOW
    modifies buf
    ensures AllDigits(buf[..]) && exp10 <= exp <= exp10 + 1
    ensures TimesTenIf(exp > exp10, DecVal(buf[..])) == DecVal(old(buf[..]))
  {
    assert buf[..buf.Length] == buf[..];
    CarryChain(buf, buf.Length);
    assert buf[..buf.Length] == buf[..];
    exp := BumpFirst(buf, exp10);
  }

  /** An overflow that reached the first digit becomes a larger exponent. */
  method BumpFirst(buf: array<char>, exp10: int) returns (exp: int)
    requires buf.Length > 0
    requires forall k :: 1 <= k < buf.Length ==> IsDigit(buf[k])
    requires IsDigit(buf[0]) || buf[0] == OVERFLOW
    requires buf[0] == OVERFLOW ==> forall k :: 1 <= k < buf.Length ==> buf[k] == '0'
    modifies buf
    ensures AllDigits(buf[..]) && exp10 <= exp <= exp10 + 1
    ensures TimesTenIf(exp > exp10, DecVal(buf[..])) == DecVal(old(buf[..]))
  {
    exp := exp10;
    if buf[0] == OVERFLOW {
      ghost var s := buf[..];
      OverflowedFirst(s);
      buf[0] := '1';
      assert buf[..] == s[0 := '1'];
      exp := exp + 1;
    }
  }

  /** `s` holds the digits produced so far and `rest` is ten times the remainder. */
  ghost predicate DigitsSoFar(n: nat, d: nat, s: seq<char>, rest: int)
  {
    n * Pow(10, |s|) == DecVal(s) * (10 * d) + rest
  }

  lemma AddDigit(n: nat, d: nat, s: seq<char>, digit: nat, r: int)
    requires digit <= 9 && DigitsSoFar(n, d, s, digit * d + r)
    ensures DigitsSoFar(n, d, s + [DigitChar(digit)], 10 * r)
  {
    DecSnoc(s, DigitChar(digit));
    AddDigitArithmetic(n, Pow(10, |s|), DecVal(s), d, digit, r);
  }

  lemma AddDigitArithmetic(n: int, p: int, v: int, d: int, digit: int, r: int)
    requires n * p == v * (10 * d) + (digit * d + r)
    ensures n * (10 * p) == (10 * v + digit) * (10 * d) + 10 * r
  {
    assert n * (10 * p) == 10 * (n * p);
    assert (10 * v + digit) * (10 * d) == 10 * (v * (10 * d)) + 10 * (digit * d);
  }

  /** With the last digit the digits are the truncated quotient, to be rounded by the remainder. */
  lemma LastDigit(n: nat, d: nat, s: seq<char>, digit: nat, r: nat)
    requires digit <= 9 && r < d && AllDigits(s) && DigitsSoFar(n, d, s, digit * d + r)
    ensures RoundHalfEven(n * Pow(10, |s|), d)
         == 10 * DecVal(s) + digit + if 2 * r > d || (2 * r == d && digit % 2 == 1) then 1 else 0
  {
    DecBound(s);
    QuotientDigits(n * Pow(10, |s|), DecVal(s), d, digit, r);
    SameParity(DecVal(s), digit);
    Rounding(n * Pow(10, |s|), d, 10 * DecVal(s) + digit, r);
  }

  lemma QuotientDigits(x: int, v: int, d: int, digit: int, r: int)
    requires x == v * (10 * d) + (digit * d + r)
    ensures x == (10 * v + digit) * d + r
  {
    assert v * (10 * d) == 10 * (v * d);
    assert (10 * v + digit) * d == 10 * (v * d) + digit * d;
  }

  /** Whether the numerator starts with an exponent no larger than the denominator's. */
  predicate NoticesTies(e: int, exp10: int) { e < 32 || e / 32 <= exp10 / 32 }

  /** Numerator, denominator and the gaps to the neighbours; `upper` is only used when it differs. */
  ghost predicate SetUp(n: nat, d: nat, l: nat, u: nat, closer: bool, ties: bool,
                        numerator: Bigint, denominator: Bigint, lower: Bigint, upper: Bigint?)
    reads numerator, denominator, lower, upper
  {
    && numerator != denominator && numerator != lower && denominator != lower
    && upper != numerator && upper != denominator && upper != lower
    && numerator.Positive() && numerator.Value() == n
    && denominator.Positive() && denominator.Value() == d
    && lower.Positive() && lower.Value() == l
    && (upper == null <==> !closer)
    && (upper != null ==> upper.Positive() && upper.Value() == u)
    && numerator.exp == lower.exp
    && (numerator.exp <= denominator.exp <==> ties)
  }

  function Significand(v: Fp, closer: bool): (r: nat)
    requires v.f < 0x20_0000_0000_0000
    ensures r < WORD64
    ensures r == v.f * Pow(2, Shift(closer))
  {
    assert Pow(2, 1) == 2 && Pow(2, 2) == 4;
    if closer then v.f * 4 else v.f * 2
  }

  lemma SmallCase(v: Fp, closer: bool, exp10: int)
    requires v.e < 0 && exp10 < 0
    ensures LowerOf(v, exp10) == Pow(10, -exp10)
    ensures UpperOf(v, closer, exp10) == if closer then Pow(10, -exp10) * Pow(2, 1) else Pow(10, -exp10)
    ensures NumeratorOf(v, closer, exp10) == Pow(10, -exp10) * (v.f * Pow(2, Shift(closer)))
    ensures DenominatorOf(v, closer, exp10) == Pow(2, Shift(closer) - v.e)
  {
    assert Pow(10, 0) == 1 && Pow(2, 0) == 1 && Pow(2, 1) == 2;
  }

  lemma IntegralCase(v: Fp, closer: bool, exp10: int)
    requires v.e >= 0 && exp10 >= 0
    ensures LowerOf(v, exp10) == Pow(2, v.e)
    ensures UpperOf(v, closer, exp10) == if closer then Pow(2, v.e + 1) else Pow(2, v.e)
    ensures NumeratorOf(v, closer, exp10) == (v.f * Pow(2, Shift(closer))) * Pow(2, v.e)
    ensures DenominatorOf(v, closer, exp10) == Pow(10, exp10) * Pow(2, Shift(closer))
  {
    assert Pow(10, 0) == 1;
  }

  lemma FractionCase(v: Fp, closer: bool, exp10: int)
    requires v.e < 0 && exp10 >= 0
    ensures LowerOf(v, exp10) == 1
    ensures UpperOf(v, closer, exp10) == if closer then 2 else 1
    ensures NumeratorOf(v, closer, exp10) == v.f * Pow(2, Shift(closer))
    ensures DenominatorOf(v, closer, exp10) == Pow(10, exp10) * Pow(2, Shift(closer) - v.e)
  {
    assert Pow(10, 0) == 1 && Pow(2, 0) == 1;
  }

  /** Below 10^(exp10+1) the binary exponent is at least as negative as the decimal one. */
  lemma SmallExponent(v: Fp, closer: bool, exp10: int)
    requires v.Valid() && v.e < 0 && exp10 < 0
    requires NumeratorOf(v, closer, exp10) < 10 * DenominatorOf(v, closer, exp10)
    ensures v.e <= exp10
  {
    var k, m, s := -exp10, -v.e, Pow(2, Shift(closer));
    SmallCase(v, closer, exp10);
    PowAdd(2, Shift(closer), m);
    assert Pow(10, k) == 10 * Pow(10, k - 1);
    CancelCommon(Pow(10, k - 1), v.f, s, Pow(2, m));
    if k > m {
      PowBaseMonotonic(2, 10, k - 1);
      PowMonotonic(2, m, k - 1);
    }
  }

  lemma CancelCommon(p: int, f: int, s: int, q: int)
    requires (10 * p) * (f * s) < 10 * (s * q) && p > 0 && f > 0 && s > 0
    ensures p < q
  {
    assert (10 * p) * (f * s) == (p * f) * (10 * s);
    assert 10 * (s * q) == q * (10 * s);
    CancelLt(p * f, q, 10 * s);
    MulLe(1, f, p);
  }

  method AssignPowerOfTwo(b: Bigint, amount: nat)
    modifies b
    ensures b.Positive() && b.Value() == Pow(2, amount) && b.exp == amount / 32
  {
    b.Assign(1);
    b.ShiftLeft(amount);
  }

  method SetUpIntegral(v: Fp, closer: bool, exp10: int)
    returns (numerator: Bigint, denominator: Bigint, lower: Bigint, upper: Bigint?)
    requires v.Valid() && v.e >= 0 && 0 <= exp10 < 0x4000_0000
    ensures fresh(numerator) && fresh(denominator) && fresh(lower) && (upper != null ==> fresh(upper))
    ensures SetUp((v.f * Pow(2, Shift(closer))) * Pow(2, v.e), Pow(10, exp10) * Pow(2, Shift(closer)),
                  Pow(2, v.e), Pow(2, v.e + 1), closer, NoticesTies(v.e, exp10), numerator, denominator, lower, upper)
  {
    numerator := new Bigint();
    denominator := new Bigint();
    lower := new Bigint();
    upper := null;
    numerator.Assign(Significand(v, closer));
    numerator.ShiftLeft(v.e);
    AssignPowerOfTwo(lower, v.e);
    if closer {
      upper := new Bigint();
      AssignPowerOfTwo(upper, v.e + 1);
    }
    denominator.AssignPow10(exp10);
    denominator.ShiftLeft(Shift(closer));
  }

  method Doubled(b: Bigint) returns (r: Bigint)
    requires b.Positive()
    ensures fresh(r) && r.Positive() && r.Value() == b.Value() * Pow(2, 1)
  {
    r := new Bigint();
    r.AssignFrom(b);
    r.ShiftLeft(1);
  }

  method SetUpSmall(v: Fp, closer: bool, exp10: int)
    returns (numerator: Bigint, denominator: Bigint, lower: Bigint, upper: Bigint?)
    requires v.Valid() && v.e <= exp10 && -0x4000_0000 < exp10 < 0
    ensures fresh(numerator) && fresh(denominator) && fresh(lower) && (upper != null ==> fresh(upper))
    ensures SetUp(Pow(10, -exp10) * (v.f * Pow(2, Shift(closer))), Pow(2, Shift(closer) - v.e),
                  Pow(10, -exp10), Pow(10, -exp10) * Pow(2, 1), closer, true, numerator, denominator, lower, upper)
  {
    numerator := new Bigint();
    denominator := new Bigint();
    lower := new Bigint();
    upper := null;
    numerator.AssignPow10(-exp10);
    lower.AssignFrom(numerator);
    if closer {
      upper := Doubled(numerator);
    }
    numerator.Multiply64(Significand(v, closer));
    AssignPowerOfTwo(denominator, Shift(closer) - v.e);
  }

  method FromWord(w: nat) returns (r: Bigint)
    requires 0 < w < WORD64
    ensures fresh(r) && r.Positive() && r.Value() == w && r.exp == 0
  {
    r := new Bigint();
    r.Assign(w);
  }

  method SetUpFraction(v: Fp, closer: bool, exp10: int)
    returns (numerator: Bigint, denominator: Bigint, lower: Bigint, upper: Bigint?)
    requires v.Valid() && v.e < 0 && 0 <= exp10 < 0x4000_0000
    ensures fresh(numerator) && fresh(denominator) && fresh(lower) && (upper != null ==> fresh(upper))
    ensures SetUp(v.f * Pow(2, Shift(closer)), Pow(10, exp10) * Pow(2, Shift(closer) - v.e),
                  1, 2, closer, true, numerator, denominator, lower, upper)
  {
    numerator := FromWord(Significand(v, closer));
    denominator := new Bigint();
    denominator.AssignPow10(exp10);
    denominator.ShiftLeft(Shift(closer) - v.e);
    lower := FromWord(1);
    upper := null;
    if closer {
      upper := FromWord(2);
    }
  }

  method SetUpOperands(v: Fp, closer: bool, exp10: int)
    returns (numerator: Bigint, denominator: Bigint, lower: Bigint, upper: Bigint?)
    requires v.Valid() && (v.e >= 0 ==> exp10 >= 0) && -0x4000_0000 < exp10 < 0x4000_0000
    requires NumeratorOf(v, closer, exp10) < 10 * DenominatorOf(v, closer, exp10)
    ensures fresh(numerator) && fresh(denominator) && fresh(lower) && (upper != null ==> fresh(upper))
    ensures SetUp(NumeratorOf(v, closer, exp10), DenominatorOf(v, closer, exp10),
                  LowerOf(v, exp10), UpperOf(v, closer, exp10), closer, NoticesTies(v.e, exp10),
                  numerator, denominator, lower, upper)
  {
    if v.e >= 0 {
      IntegralCase(v, closer, exp10);
      numerator, denominator, lower, upper := SetUpIntegral(v, closer, exp10);
    } else if exp10 < 0 {
      SmallCase(v, closer, exp10);
      SmallExponent(v, closer, exp10);
      numerator, denominator, lower, upper := SetUpSmall(v, closer, exp10);
    } else {
      FractionCase(v, closer, exp10);
      numerator, denominator, lower, upper := SetUpFraction(v, closer, exp10);
    }
  }

  /**
   * `w / d` lies in the rounding interval around `x / d`. The endpoints count for even significands, the lower
   * one only with `ties`: without, this is the part of the interval in which the loop notices numbers.
   */
  predicate InGap(x: int, l: int, u: int, d: int, even: bool, ties: bool, w: int)
  {
    && (if even && ties then x - l <= w * d else x - l < w * d)
    && (if even then w * d <= x + u else w * d < x + u)
  }

  /** What the shortest digits `v` promise at their own precision. */
  ghost predicate GoodDigits(x: int, l: int, u: int, d: int, even: bool, ties: bool, v: int)
  {
    && InGap(x, l, u, d, even, ties, v)
    && forall w: int :: InGap(x, l, u, d, even, ties, w) ==> Abs(v * d - x) <= Abs(w * d - x)
  }

  /** No integer multiple of 10^-j lies in the interval. */
  ghost predicate NothingWith(j: nat, n: nat, l: nat, u: nat, d: nat, even: bool, ties: bool)
  {
    forall w: int :: !InGap(ScaledBy10(n, j), ScaledBy10(l, j), ScaledBy10(u, j), d, even, ties, w)
  }

  ghost predicate NothingShorter(k: nat, n: nat, l: nat, u: nat, d: nat, even: bool, ties: bool)
  {
    forall j: nat :: j < k ==> NothingWith(j, n, l, u, d, even, ties)
  }

  lemma OneMoreNothing(k: nat, n: nat, l: nat, u: nat, d: nat, even: bool, ties: bool)
    requires NothingShorter(k, n, l, u, d, even, ties)
    requires forall w: int :: !InGap(ScaledBy10(n, k), ScaledBy10(l, k), ScaledBy10(u, k), d, even, ties, w)
    ensures NothingShorter(k + 1, n, l, u, d, even, ties)
  {
  }

  /** Neither neighbour of the remainder is in the interval: no integer is. */
  lemma NothingYet(x: int, v: int, r: int, l: int, u: int, d: int, even: bool, ties: bool)
    requires x == v * d + r && 0 <= r < d
    requires (if even && ties then r > l else r >= l) && if even then r + u < d else r + u <= d
    ensures forall w: int :: !InGap(x, l, u, d, even, ties, w)
  {
    forall w: int
      ensures !InGap(x, l, u, d, even, ties, w)
    {
      assert w * d - v * d == (w - v) * d;
      if w <= v { MulLe(w - v, 0, d); } else { MulLe(1, w - v, d); }
    }
  }

  /** Choosing between the truncated quotient and its successor. */
  lemma ChooseNeighbour(x: int, v: int, r: int, l: int, u: int, d: int, even: bool, ties: bool,
                        low: bool, high: bool, up: bool)
    requires x == v * d + r && 0 <= r < d && 0 < l && 0 < u && (low || high)
    requires low <==> if even && ties then r <= l else r < l
    requires high <==> if even then r + u >= d else r + u > d
    requires up <==> if low && high then 2 * r > d || (2 * r == d && v % 2 == 1) else high
    ensures GoodDigits(x, l, u, d, even, ties, if up then v + 1 else v)
  {
    var t := if up then v + 1 else v;
    assert (v + 1) * d == v * d + d;
    forall w: int | InGap(x, l, u, d, even, ties, w)
      ensures Abs(t * d - x) <= Abs(w * d - x)
    {
      assert w * d - v * d == (w - v) * d;
      if w < v {
        MulLe(w - v, -1, d);
      } else if w > v + 1 {
        MulLe(2, w - v, d);
      } else {
        assert w == v || w == v + 1;
      }
    }
  }

  /**
   * With `ties` remainder and gap keep the same exponent. Without, the remainder has a smaller one from the
   * first digit that is not zero on; until then it is larger than the gap.
   */
  ghost predicate TiesState(ties: bool, numerator: Bigint, denominator: Bigint, lower: Bigint)
    reads numerator, denominator, lower
  {
    if ties then numerator.exp == lower.exp && numerator.exp <= denominator.exp
    else denominator.exp < lower.exp && (numerator.exp < lower.exp || numerator.Value() >= 2 * lower.Value())
  }

  /** What holds before each digit of the shortest loop, `buf` being the digits so far. */
  ghost predicate ShortestState(n: nat, l: nat, u: nat, even: bool, ties: bool, buf: seq<char>,
                                numerator: Bigint, denominator: Bigint, lower: Bigint, upper: Bigint)
    reads numerator, denominator, lower, upper
  {
    && Dividable(numerator, denominator) && lower.Positive() && upper.Positive()
    && lower != numerator && lower != denominator && upper != numerator && upper != denominator
    && numerator.exp <= lower.exp && AllDigits(buf)
    && TiesState(ties, numerator, denominator, lower)
    && DigitsSoFar(n, denominator.Value(), buf, numerator.Value())
    && lower.Value() == ScaledBy10(l, |buf|) && upper.Value() == ScaledBy10(u, |buf|)
    && lower.Value() <= upper.Value()
    && FitsOneMoreDigit(numerator.Value(), upper.Value(), denominator.Value(), even)
    && NothingShorter(|buf|, n, l, u, denominator.Value(), even, ties)
  }

  /** `buf` is good at its own precision and nothing coarser is in the interval. */
  ghost predicate Shortest(n: nat, d: nat, l: nat, u: nat, even: bool, ties: bool, buf: seq<char>)
  {
    && AllDigits(buf) && |buf| > 0
    && var k := |buf| - 1;
       && GoodDigits(ScaledBy10(n, k), ScaledBy10(l, k), ScaledBy10(u, k), d, even, ties, DecVal(buf))
       && NothingShorter(k, n, l, u, d, even, ties)
  }

  /** The shortest digits in the rounding interval. */
  method ShortestDigits(numerator: Bigint, denominator: Bigint, lower: Bigint, givenUpper: Bigint?, even: bool,
                        exp10: int, ghost ties: bool)
    returns (buf: seq<char>, exp: int)
    requires Dividable(numerator, denominator)
    requires lower != numerator && lower != denominator && lower.Positive()
    requires numerator.exp <= lower.exp
    requires TiesState(ties, numerator, denominator, lower)
    requires givenUpper != null ==> givenUpper != numerator && givenUpper != denominator && givenUpper != lower
                                    && givenUpper.Positive() && lower.Value() <= givenUpper.Value()
    requires FitsOneMoreDigit(numerator.Value(), if givenUpper == null then lower.Value() else givenUpper.Value(),
                              denominator.Value(), even)
    modifies numerator, lower, givenUpper
    ensures exp == exp10 - (|buf| - 1)
    ensures Shortest(old(numerator.Value()), denominator.Value(), old(lower.Value()),
                     if givenUpper == null then old(lower.Value()) else old(givenUpper.Value()), even, ties, buf)
  {
    var upper := if givenUpper == null then lower else givenUpper;
    ghost var n, l, u := numerator.Value(), lower.Value(), upper.Value();
    buf := [];
    var stop := false;
    assert ShortestState(n, l, u, even, ties, buf, numerator, denominator, lower, upper);
    while !stop
      invariant if stop then Shortest(n, denominator.Value(), l, u, even, ties, buf)
                else ShortestState(n, l, u, even, ties, buf, numerator, denominator, lower, upper)
      decreases !stop, 10 * denominator.Value() - lower.Value()
    {
      stop, buf := ShortestStep(n, l, u, even, ties, buf, numerator, denominator, lower, upper);
    }
    exp := exp10 - (|buf| - 1);
  }

  lemma EndsWith(n: nat, d: nat, l: nat, u: nat, even: bool, ties: bool, buf: seq<char>, digit: nat)
    requires AllDigits(buf) && digit <= 9
    requires GoodDigits(ScaledBy10(n, |buf|), ScaledBy10(l, |buf|), ScaledBy10(u, |buf|), d, even, ties,
                        10 * DecVal(buf) + digit)
    requires NothingShorter(|buf|, n, l, u, d, even, ties)
    ensures Shortest(n, d, l, u, even, ties, buf + [DigitChar(digit)])
  {
    DecSnoc(buf, DigitChar(digit));
  }

  /** One more digit: either the last one or one to go on from. */
  method ShortestStep(ghost n: nat, ghost l: nat, ghost u: nat, even: bool, ghost ties: bool, buf: seq<char>,
                      numerator: Bigint, denominator: Bigint, lower: Bigint, upper: Bigint)
    returns (stop: bool, next: seq<char>)
    requires ShortestState(n, l, u, even, ties, buf, numerator, denominator, lower, upper)
    modifies numerator, lower, upper
    ensures stop ==> Shortest(n, denominator.Value(), l, u, even, ties, next)
    ensures !stop ==> ShortestState(n, l, u, even, ties, next, numerator, denominator, lower, upper)
    ensures !stop ==> old(lower.Value()) < lower.Value() <= 10 * denominator.Value()
  {
    ghost var d := denominator.Value();
    var digit := DivideOnce(n, l, u, even, ties, buf, numerator, denominator, lower, upper);
    ghost var x, v := ScaledBy10(n, |buf|), 10 * DecVal(buf) + digit;
    var up;
    stop, up := Decide(numerator, denominator, lower, upper, even, digit, ties, x, v);
    assert lower.Value() == ScaledBy10(l, |buf|) && upper.Value() == ScaledBy10(u, |buf|);
    if stop {
      var last := if up then digit + 1 else digit;
      assert last <= 9 && 10 * DecVal(buf) + last == if up then v + 1 else v;
      EndsWith(n, d, l, u, even, ties, buf, last);
      next := buf + [DigitChar(last)];
    } else {
      next := GoOn(n, l, u, even, ties, buf, digit, numerator, denominator, lower, upper);
    }
  }

  /** Stores a digit that is not the last one. */
  method GoOn(ghost n: nat, ghost l: nat, ghost u: nat, even: bool, ghost ties: bool, buf: seq<char>, digit: nat,
              numerator: Bigint, denominator: Bigint, lower: Bigint, upper: Bigint)
    returns (next: seq<char>)
    requires numerator != denominator && lower != numerator && lower != denominator
    requires upper != numerator && upper != denominator
    requires lower.Positive() && upper.Positive() && numerator.Normal() && denominator.Positive()
    requires numerator.Value() < denominator.Value() && digit <= 9 && AllDigits(buf)
    requires numerator.bigits == [0] ==> numerator.exp <= denominator.exp
    requires numerator.exp > denominator.exp ==> NeverReaches(numerator.Value(), denominator.Value())
    requires numerator.exp <= lower.exp && TiesState(ties, numerator, denominator, lower)
    requires lower.Value() == ScaledBy10(l, |buf|) && upper.Value() == ScaledBy10(u, |buf|)
    requires lower.Value() <= upper.Value()
    requires DigitsSoFar(n, denominator.Value(), buf, digit * denominator.Value() + numerator.Value())
    requires FitsOneMoreDigit(10 * numerator.Value(), 10 * upper.Value(), denominator.Value(), even)
    requires NothingShorter(|buf|, n, l, u, denominator.Value(), even, ties)
    requires forall w: int :: !InGap(ScaledBy10(n, |buf|), lower.Value(), upper.Value(), denominator.Value(), even,
                                     ties, w)
    modifies numerator, lower, upper
    ensures ShortestState(n, l, u, even, ties, next, numerator, denominator, lower, upper)
    ensures old(lower.Value()) < lower.Value() <= 10 * denominator.Value()
  {
    CanonicalZero(lower.bigits, lower.exp);
    OneMoreNothing(|buf|, n, l, u, denominator.Value(), even, ties);
    AddDigit(n, denominator.Value(), buf, digit, numerator.Value());
    ScaleOnce(l, |buf|);
    ScaleOnce(u, |buf|);
    next := buf + [DigitChar(digit)];
    AllTimesTen(numerator, denominator, lower, upper);
  }

  /** The division of such a step, with what it leaves for the decision. */
  method DivideOnce(ghost n: nat, ghost l: nat, ghost u: nat, even: bool, ghost ties: bool, buf: seq<char>,
                    numerator: Bigint, denominator: Bigint, lower: Bigint, upper: Bigint)
    returns (digit: nat)
    requires ShortestState(n, l, u, even, ties, buf, numerator, denominator, lower, upper)
    modifies numerator
    ensures numerator.Normal() && numerator.Value() < denominator.Value() && digit <= 9
    ensures numerator.exp <= lower.exp && TiesState(ties, numerator, denominator, lower)
    ensures numerator.bigits == [0] ==> numerator.exp <= denominator.exp
    ensures numerator.exp > denominator.exp ==> NeverReaches(numerator.Value(), denominator.Value())
    ensures DigitsSoFar(n, denominator.Value(), buf, digit * denominator.Value() + numerator.Value())
    ensures var v := 10 * DecVal(buf) + digit;
            ScaledBy10(n, |buf|) == v * denominator.Value() + numerator.Value() && v % 2 == digit % 2
    ensures FitsOneMoreDigit(digit * denominator.Value() + numerator.Value(), upper.Value(), denominator.Value(), even)
  {
    ghost var before := numerator.Value();
    digit := NextDigit(numerator, denominator);
    if digit == 0 {
      assert numerator.Value() == before;
    }
    TruncatedQuotient(n, denominator.Value(), buf, digit, numerator.Value());
  }

  function ScaledBy10(n: nat, k: nat): nat { n * Pow(10, k) }

  lemma ScaleOnce(n: nat, k: nat)
    ensures ScaledBy10(n, k + 1) == 10 * ScaledBy10(n, k)
  {
    assert n * (10 * Pow(10, k)) == 10 * (n * Pow(10, k));
  }

  /** The next digit cannot be pushed past 9 by rounding up. */
  predicate FitsOneMoreDigit(v: int, u: int, d: int, even: bool)
  {
    if even then v + u < 10 * d else v + u <= 10 * d
  }

  /** Ten times the remainder and the gaps; one multiplication when the gaps are the same object. */
  method AllTimesTen(numerator: Bigint, denominator: Bigint, lower: Bigint, upper: Bigint)
    requires numerator != denominator && lower != numerator && lower != denominator
    requires upper != numerator && upper != denominator
    requires lower.Positive() && upper.Positive()
    requires numerator.Normal() && denominator.Positive()
    requires numerator.Value() < denominator.Value()
    requires numerator.bigits == [0] ==> numerator.exp <= denominator.exp
    requires numerator.exp > denominator.exp ==> NeverReaches(numerator.Value(), denominator.Value())
    modifies numerator, lower, upper
    ensures Dividable(numerator, denominator) && lower.Positive() && upper.Positive()
    ensures numerator.Value() == 10 * old(numerator.Value())
    ensures lower.Value() == 10 * old(lower.Value()) && upper.Value() == 10 * old(upper.Value())
    ensures numerator.exp == old(numerator.exp) && lower.exp == old(lower.exp)
  {
    TimesTen(numerator, denominator);
    lower.Multiply32(10);
    if upper != lower {
      upper.Multiply32(10);
    }
  }

  /** When the lower gap ends the digits: a tie counts only if the remainder is written with no more bigits. */
  ghost predicate LowStop(numerator: Bigint, lower: Bigint, even: bool)
    reads numerator, lower
  {
    || numerator.Value() < lower.Value()
    || (even && numerator.Value() == lower.Value() && |numerator.bigits| <= |lower.bigits|)
  }

  /** Half to even between a digit and the next. */
  method RoundsUp(numerator: Bigint, denominator: Bigint, digit: nat) returns (up: bool)
    requires numerator.Normal() && denominator.Positive()
    requires numerator.bigits == [0] ==> numerator.exp <= denominator.exp
    ensures up <==> 2 * numerator.Value() > denominator.Value()
                    || (2 * numerator.Value() == denominator.Value() && digit % 2 == 1)
  {
    var c := AddCompare(numerator, numerator, denominator);
    up := c > 0 || (c == 0 && digit % 2 != 0);
  }

  /** Whether to stop at this digit, and whether to round it up then. */
  method Decide(numerator: Bigint, denominator: Bigint, lower: Bigint, upper: Bigint, even: bool, digit: nat,
                ghost ties: bool, ghost x: int, ghost v: int)
    returns (stop: bool, up: bool)
    requires numerator.Normal() && denominator.Positive() && lower.Positive() && upper.Positive()
    requires numerator.Value() < denominator.Value() && numerator.exp <= lower.exp
    requires numerator.bigits == [0] ==> numerator.exp <= denominator.exp
    requires x == v * denominator.Value() + numerator.Value() && v % 2 == digit % 2
    requires TiesState(ties, numerator, denominator, lower)
    ensures stop <==> LowStop(numerator, lower, even)
                      || !FitsOneMoreDigit(10 * numerator.Value(), 10 * upper.Value(), denominator.Value(), even)
    ensures stop ==> GoodDigits(x, lower.Value(), upper.Value(), denominator.Value(), even, ties,
                                if up then v + 1 else v)
    ensures stop && up ==> !FitsOneMoreDigit(numerator.Value() + 9 * denominator.Value(), upper.Value(),
                                             denominator.Value(), even)
    ensures !stop ==> numerator.Value() >= lower.Value()
    ensures !stop ==> FitsOneMoreDigit(10 * numerator.Value(), 10 * upper.Value(), denominator.Value(), even)
    ensures !stop ==> forall w: int :: !InGap(x, lower.Value(), upper.Value(), denominator.Value(), even, ties, w)
  {
    ComparesWithLower(numerator.bigits, numerator.exp, lower.bigits, lower.exp);
    CanonicalZero(lower.bigits, lower.exp);
    CanonicalZero(upper.bigits, upper.exp);
    var c := Compare(numerator, lower);
    var low := c - (if even then 1 else 0) < 0;
    c := AddCompare(numerator, upper, denominator);
    var high := c + (if even then 1 else 0) > 0;
    stop := low || high;
    up := high;
    if low && high {
      up := RoundsUp(numerator, denominator, digit);
    }
    ghost var r, d, l, u := numerator.Value(), denominator.Value(), lower.Value(), upper.Value();
    if stop {
      ChooseNeighbour(x, v, r, l, u, d, even, ties, low, high, up);
    } else {
      NothingYet(x, v, r, l, u, d, even, ties);
    }
  }

  lemma TruncatedQuotient(n: nat, d: nat, s: seq<char>, digit: nat, r: nat)
    requires DigitsSoFar(n, d, s, digit * d + r)
    ensures ScaledBy10(n, |s|) == (10 * DecVal(s) + digit) * d + r
    ensures (10 * DecVal(s) + digit) % 2 == digit % 2
  {
    QuotientDigits(ScaledBy10(n, |s|), DecVal(s), d, digit, r);
    SameParity(DecVal(s), digit);
  }

  lemma SameParity(v: int, digit: nat)
    ensures (10 * v + digit) % 2 == digit % 2
  {
    EvenShift(digit, 5 * v);
  }

  lemma EvenShift(digit: int, k: int)
    ensures (2 * k + digit) % 2 == digit % 2
  {
  }

  /**
   * `numerator` never has the larger exponent, so the comparison can only misjudge equality, and then
   * only towards "larger": a tie may be missed, it is never invented.
   */
  lemma ComparesWithLower(s: seq<Bigit>, e: nat, t: seq<Bigit>, f: nat)
    requires Canonical(s) && |t| > 0 && t[|t| - 1] != 0 && e <= f
    ensures Comparable(s, e, t, f)
    ensures Verdict(s, e, t, f) < 0 <==> ValAt(s, e) < ValAt(t, f)
    ensures Verdict(s, e, t, f) <= 0 ==> ValAt(s, e) <= ValAt(t, f)
    ensures Verdict(s, e, t, f) <= 0 <==> ValAt(s, e) < ValAt(t, f) || (ValAt(s, e) == ValAt(t, f) && |s| <= |t|)
    ensures ValAt(s, e) == ValAt(t, f) ==> e + |s| == f + |t|
  {
    VerdictDecidesAtLeast(s, e, t, f);
    if ValAt(s, e) == ValAt(t, f) { EqualPositions(s, e, t, f); }
  }

  /** The lower end of the interval is a number with j decimals, the nearest one, and the first in the interval. */
  ghost predicate LowerEndIsNearest(n: nat, d: nat, l: nat, u: nat, j: nat, w: int)
  {
    var x, gap := ScaledBy10(n, j), ScaledBy10(l, j);
    && w * d == x - gap && NothingShorter(j, n, l, u, d, true, false)
    && forall other: int :: InGap(x, gap, ScaledBy10(u, j), d, true, false, other) ==> gap < Abs(other * d - x)
  }

  /** The shortest number in the interval, nearest to the value, is its lower end. */
  ghost predicate LowerEndWins(n: nat, d: nat, l: nat, u: nat)
  {
    exists j: nat, w: int :: LowerEndIsNearest(n, d, l, u, j, w)
  }

  /**
   * Digits that are shortest without the lower end are shortest in the whole interval exactly unless the
   * significand is even and the lower end would have been the shortest and nearest number.
   */
  lemma ShortestIff(n: nat, d: nat, l: nat, u: nat, even: bool, buf: seq<char>)
    requires Shortest(n, d, l, u, even, false, buf)
    ensures Shortest(n, d, l, u, even, true, buf) <==> !(even && LowerEndWins(n, d, l, u))
  {
    if even {
      if j: nat, w: int :| LowerEndIsNearest(n, d, l, u, j, w) {
        LowerEndBeats(n, d, l, u, buf, j, w);
      }
      if !Shortest(n, d, l, u, even, true, buf) {
        var j, w := BeatenByLowerEnd(n, d, l, u, buf);
      }
    } else {
      SameWithoutEnds(n, d, l, u, buf);
    }
  }

  lemma LowerEndBeats(n: nat, d: nat, l: nat, u: nat, buf: seq<char>, j: nat, w: int)
    requires Shortest(n, d, l, u, true, false, buf) && LowerEndIsNearest(n, d, l, u, j, w)
    ensures !Shortest(n, d, l, u, true, true, buf) && j < |buf|
  {
    var k := |buf| - 1;
    var x, gap, above := ScaledBy10(n, j), ScaledBy10(l, j), ScaledBy10(u, j);
    assert InGap(ScaledBy10(n, k), ScaledBy10(l, k), ScaledBy10(u, k), d, true, false, DecVal(buf));
    assert k < j ==> NothingWith(k, n, l, u, d, true, false);
    assert InGap(x, gap, above, d, true, true, w) && Abs(w * d - x) == gap;
    assert j < k && NothingShorter(k, n, l, u, d, true, true) ==> NothingWith(j, n, l, u, d, true, true);
  }

  lemma BeatenByLowerEnd(n: nat, d: nat, l: nat, u: nat, buf: seq<char>) returns (j: nat, w: int)
    requires Shortest(n, d, l, u, true, false, buf) && !Shortest(n, d, l, u, true, true, buf)
    ensures LowerEndIsNearest(n, d, l, u, j, w)
  {
    var k, v := |buf| - 1, DecVal(buf);
    if i: nat :| i < k && !NothingWith(i, n, l, u, d, true, true) {
      j := i;
      w :| InGap(ScaledBy10(n, j), ScaledBy10(l, j), ScaledBy10(u, j), d, true, true, w);
      assert NothingWith(j, n, l, u, d, true, false);
      assert !InGap(ScaledBy10(n, j), ScaledBy10(l, j), ScaledBy10(u, j), d, true, false, w);
    } else {
      j := k;
      var x, gap, above := ScaledBy10(n, k), ScaledBy10(l, k), ScaledBy10(u, k);
      w :| InGap(x, gap, above, d, true, true, w) && Abs(w * d - x) < Abs(v * d - x);
      assert !InGap(x, gap, above, d, true, false, w);
    }
  }

  lemma SameWithoutEnds(n: nat, d: nat, l: nat, u: nat, buf: seq<char>)
    requires Shortest(n, d, l, u, false, false, buf)
    ensures Shortest(n, d, l, u, false, true, buf)
  {
    assert forall x: int, gap: int, above: int, w: int ::
             InGap(x, gap, above, d, false, true, w) ==> InGap(x, gap, above, d, false, false, w);
    forall j: nat | j < |buf| - 1 ensures NothingWith(j, n, l, u, d, false, true) {
      assert NothingWith(j, n, l, u, d, false, false);
    }
  }

  /** The value whose lower neighbour boundary is exactly 3584 * 10^22. */
  const TIED: Fp := Fp(8344650268554688, 32)

  /**
   * For that value the whole function is allowed its usual input, and misses the tie: the lower end of its
   * interval has four digits, and all digits shortest without it are longer.
   */
  lemma LowerTieIsMissed(buf: seq<char>)
    ensures TIED.Valid() && TIED.f % 2 == 0 && !NoticesTies(TIED.e, 25)
    ensures var (n, d, l) := (NumeratorOf(TIED, false, 25), DenominatorOf(TIED, false, 25), LowerOf(TIED, 25));
            && UpperOf(TIED, false, 25) == l && n < 10 * d && FitsOneMoreDigit(n, l, d, true)
            && LowerEndIsNearest(n, d, l, l, 3, 3584)
            && (Shortest(n, d, l, l, true, false, buf) ==> |buf| > 4 && !Shortest(n, d, l, l, true, true, buf))
  {
    var n, d, l := NumeratorOf(TIED, false, 25), DenominatorOf(TIED, false, 25), LowerOf(TIED, 25);
    TiedPowers();
    IntegralCase(TIED, false, 25);
    TiedInterval(n, d, l);
    if Shortest(n, d, l, l, true, false, buf) {
      LowerEndBeats(n, d, l, l, buf, 3, 3584);
      NotThatShort(n, d, l, l, buf, 3);
    }
  }

  lemma NotThatShort(n: nat, d: nat, l: nat, u: nat, buf: seq<char>, j: nat)
    requires Shortest(n, d, l, u, true, false, buf) && NothingWith(j, n, l, u, d, true, false)
    ensures |buf| != j + 1
  {
    var k := |buf| - 1;
    assert InGap(ScaledBy10(n, k), ScaledBy10(l, k), ScaledBy10(u, k), d, true, false, DecVal(buf));
  }

  /** No number with up to three decimals, in units of 10^25, lies above the lower end. */
  lemma TiedInterval(n: nat, d: nat, l: nat)
    requires n == 71680000000000004294967296 && d == 20000000000000000000000000 && l == 4294967296
    ensures LowerEndIsNearest(n, d, l, l, 3, 3584) && NothingWith(3, n, l, l, d, true, false)
  {
    assert Pow(10, 0) == 1 && Pow(10, 1) == 10 && Pow(10, 2) == 100 && Pow(10, 3) == 1000;
    forall j: nat | j < 4 ensures NothingWith(j, n, l, l, d, true, false) {
      forall w: int ensures !InGap(ScaledBy10(n, j), ScaledBy10(l, j), ScaledBy10(l, j), d, true, false, w) {
        assert j == 0 || j == 1 || j == 2 || j == 3;
      }
    }
  }

  lemma TiedPowers()
    ensures Pow(10, 25) == 10000000000000000000000000 && Pow(10, 3) == 1000 && Pow(2, 32) == BASE
    ensures Pow(2, 1) == 2 && Place(1) == BASE
  {
    assert Pow(10, 3) == 1000 && Pow(10, 2) == 100 && Pow(10, 5) == 100000;
    PowAdd(10, 5, 5);
    PowAdd(10, 10, 10);
    PowAdd(10, 20, 5);
    PowerOfTwo32();
  }

  lemma {:induction false} PowerOfFiveIsOdd(n: nat)
    ensures Pow(5, n) % 2 == 1
  {
    if n > 0 {
      PowerOfFiveIsOdd(n - 1);
      FiveKeepsParity(Pow(5, n - 1));
    }
  }

  lemma FiveKeepsParity(x: nat)
    ensures (5 * x) % 2 == x % 2
  {
    DivModUnique(5 * x, 2, 2 * x + x / 2, x % 2);
  }

  lemma PowerOfFive32(n: nat)
    requires n >= 32
    ensures Pow(5, n) >= 0x20_0000_0000_0000
  {
    assert Pow(5, 8) == 390625;
    PowAdd(5, 8, 8);
    PowAdd(5, 16, 16);
    PowMonotonic(5, 32, n);
  }

  /** A significand of at most 53 bits times 2^32 or more is no power of ten. */
  lemma NotAPowerOfTen(f: nat, e: nat, y: nat)
    requires 0 < f < 0x20_0000_0000_0000 && e >= 32
    ensures f * Pow(2, e) != Pow(10, y)
  {
    PowMulBase(2, 5, y);
    if y <= e {
      MoreTwos(f, e, y);
    } else {
      MoreFives(f, e, y);
    }
  }

  lemma MoreTwos(f: nat, e: nat, y: nat)
    requires 0 < f < 0x20_0000_0000_0000 && e >= 32 && y <= e
    ensures f * Pow(2, e) != Pow(2, y) * Pow(5, y)
  {
    PowAdd(2, y, e - y);
    FactorOut(f, Pow(2, y), Pow(2, e - y), Pow(5, y));
    if e == y {
      PowerOfFive32(y);
      assert f * Pow(2, 0) == f;
    } else {
      PowerOfFiveIsOdd(y);
      EvenProduct(f, Pow(2, e - y - 1));
    }
  }

  lemma MoreFives(f: nat, e: nat, y: nat)
    requires 0 < f < 0x20_0000_0000_0000 && e >= 32 && y > e
    ensures f * Pow(2, e) != Pow(2, y) * Pow(5, y)
  {
    PowAdd(2, e, y - e);
    PowerOfFive32(y);
    MulLe(1, Pow(2, y - e), Pow(5, y));
    TooManyFives(f, Pow(2, e), Pow(2, y - e), Pow(5, y));
  }

  lemma TooManyFives(f: int, p: int, q: int, w: int)
    requires p > 0 && f < q * w
    ensures f * p != (p * q) * w
  {
    assert (p * q) * w == (q * w) * p;
    CancelLt(f, q * w, p);
  }

  lemma FactorOut(f: int, p: int, q: int, w: int)
    requires p > 0
    ensures f * (p * q) == p * w <==> f * q == w
  {
    assert f * (p * q) == (f * q) * p;
    CancelLt(f * q, w, p);
  }

  lemma EvenProduct(f: int, h: int)
    ensures (f * (2 * h)) % 2 == 0
  {
    assert f * (2 * h) == 2 * (f * h);
  }

  /** When the numerator has the larger exponent, no multiple of it by a power of ten equals the denominator. */
  lemma ValueNeverReaches(v: Fp, closer: bool, exp10: int)
    requires v.Valid() && v.e >= 32 && exp10 >= 0
    ensures NeverReaches(NumeratorOf(v, closer, exp10), DenominatorOf(v, closer, exp10))
  {
    IntegralCase(v, closer, exp10);
    var s, w := Pow(2, Shift(closer)), Pow(2, v.e);
    forall j: nat ensures NumeratorOf(v, closer, exp10) * Pow(10, j) != DenominatorOf(v, closer, exp10) {
      CancelShift(v.f, s, w, Pow(10, j), Pow(10, exp10));
      if j <= exp10 {
        NotAPowerOfTen(v.f, v.e, exp10 - j);
        PowAdd(10, exp10 - j, j);
        CancelLt(v.f * w, Pow(10, exp10 - j), Pow(10, j));
      } else {
        PowStrict(10, exp10, j);
        MulLe(1, v.f * w, Pow(10, j));
      }
    }
  }

  lemma NumeratorAtLeast(v: Fp, closer: bool, exp10: int)
    requires v.Valid()
    ensures NumeratorOf(v, closer, exp10) >= 2 * LowerOf(v, exp10)
  {
    assert Pow(2, 1) == 2 && Pow(2, 2) == 4;
    MulLe(2, v.f * Pow(2, Shift(closer)), LowerOf(v, exp10));
  }

  lemma CancelShift(f: int, s: int, w: int, t: int, d: int)
    requires s > 0
    ensures ((f * s) * w) * t == d * s <==> (f * w) * t == d
  {
    assert ((f * s) * w) * t == ((f * w) * t) * s;
    CancelLt((f * w) * t, d, s);
  }

  lemma OneDigitValue(c: char)
    ensures DecVal([c]) == DigitVal(c)
  {
    DecSnoc([], c);
    assert [] + [c] == [c];
  }

  /** Without digits asked for: 1 or 0, as the value rounds to a multiple of 10^(exp10+1). */
  method OneRoundedDigit(numerator: Bigint, denominator: Bigint) returns (buf: seq<char>)
    requires Dividable(numerator, denominator)
    modifies denominator
    ensures |buf| == 1 && AllDigits(buf)
    ensures DecVal(buf) == RoundHalfEven(numerator.Value(), 10 * old(denominator.Value()))
  {
    denominator.Multiply32(10);
    Rounding(numerator.Value(), denominator.Value(), 0, numerator.Value());
    var c := AddCompare(numerator, numerator, denominator);
    buf := [if c > 0 then '1' else '0'];
    OneDigitValue(buf[0]);
  }

  /**
   * `fallback_format`: exact digits of a positive value below 10^(exp10+1). A negative digit count asks
   * for the shortest digits.
   */
  method FallbackFormat(v: Fp, closer: bool, numDigits: int, exp10: int) returns (buf: seq<char>, exp: int)
    requires v.Valid() && (v.e >= 0 ==> exp10 >= 0) && -0x4000_0000 < exp10 < 0x4000_0000
    requires NumeratorOf(v, closer, exp10) < 10 * DenominatorOf(v, closer, exp10)
    requires numDigits < 0 ==> FitsOneMoreDigit(NumeratorOf(v, closer, exp10), UpperOf(v, closer, exp10),
                                                DenominatorOf(v, closer, exp10), v.f % 2 == 0)
    ensures AllDigits(buf)
    ensures numDigits < 0 ==>
              var n, d := NumeratorOf(v, closer, exp10), DenominatorOf(v, closer, exp10);
              var l, u, even := LowerOf(v, exp10), UpperOf(v, closer, exp10), v.f % 2 == 0;
              && exp == exp10 - (|buf| - 1)
              && Shortest(n, d, l, u, even, NoticesTies(v.e, exp10), buf)
              && (Shortest(n, d, l, u, even, true, buf)
                  <==> NoticesTies(v.e, exp10) || !(even && LowerEndWins(n, d, l, u)))
    ensures numDigits == 0 ==>
              && |buf| == 1 && exp == exp10 + 1
              && DecVal(buf) == RoundHalfEven(NumeratorOf(v, closer, exp10), 10 * DenominatorOf(v, closer, exp10))
    ensures numDigits > 0 ==>
              && |buf| == numDigits && exp10 - (numDigits - 1) <= exp <= exp10 - (numDigits - 1) + 1
              && TimesTenIf(exp > exp10 - (numDigits - 1), DecVal(buf))
                 == RoundHalfEven(ScaledBy10(NumeratorOf(v, closer, exp10), numDigits - 1),
                                  DenominatorOf(v, closer, exp10))
  {
    var numerator, denominator, lower, upper := SetUpOperands(v, closer, exp10);
    ghost var ties := NoticesTies(v.e, exp10);
    if !ties {
      ValueNeverReaches(v, closer, exp10);
      NumeratorAtLeast(v, closer, exp10);
    }
    if numDigits < 0 {
      buf, exp := ShortestDigits(numerator, denominator, lower, upper, v.f % 2 == 0, exp10, ties);
      if !ties {
        ShortestIff(NumeratorOf(v, closer, exp10), DenominatorOf(v, closer, exp10), LowerOf(v, exp10),
                    UpperOf(v, closer, exp10), v.f % 2 == 0, buf);
      }
      return;
    }
    exp := exp10 - (numDigits - 1);
    if numDigits == 0 {
      buf := OneRoundedDigit(numerator, denominator);
      return;
    }
    var digits;
    digits, exp := GivenDigits(numerator, denominator, numDigits, exp);
    buf := digits[..];
  }
}
