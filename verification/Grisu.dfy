/**
 * Fast digit generation in 64-bit words from an approximated value (Grisu), with the handler that stops
 * at a fixed precision: it either rounds soundly for every number within the error, or gives up.
 */
module Grisu {
  import opened Arithmetic
  import opened Decimal

  datatype RoundDirection = Unknown | Up | Down

  datatype DigitsResult = More | Done | Error

  /** Which way `v` rounds when `remainder` = v mod `divisor` is only known up to `error`. */
  function GetRoundDirection(divisor: nat, remainder: nat, error: nat): RoundDirection
    requires remainder < divisor < WORD64 && error < divisor && error < divisor - error
  {
    if remainder <= divisor - remainder && error * 2 <= divisor - remainder * 2 then Down
    else if remainder >= error && remainder - error >= divisor - (remainder - error) then Up
    else Unknown
  }

  predicate Within(x: int, rest: int, error: int) { rest - error <= x <= rest + error }

  predicate AtMostHalf(x: int, unit: int) { 2 * x <= unit }

  predicate AtLeastHalf(x: int, unit: int) { unit <= 2 * x }

  /** A direction is given exactly when all numbers within the error agree on it; an exact tie goes down. */
  lemma DirectionIsSound(divisor: nat, remainder: nat, error: nat)
    requires remainder < divisor < WORD64 && error < divisor && error < divisor - error
    ensures GetRoundDirection(divisor, remainder, error) == Down
            <==> forall x: int :: Within(x, remainder, error) ==> AtMostHalf(x, divisor)
    ensures GetRoundDirection(divisor, remainder, error) == Up
            <==> (error > 0 || 2 * remainder != divisor)
                 && forall x: int :: Within(x, remainder, error) ==> AtLeastHalf(x, divisor)
  {
    assert Within(remainder - error, remainder, error) && Within(remainder + error, remainder, error);
  }

  /** Two numbers within the error round to different units. */
  ghost predicate Undecided(unit: int, rest: int, error: int)
  {
    exists x, y :: Within(x, rest, error) && Within(y, rest, error) && 2 * x < unit < 2 * y
  }

  /** No direction is given exactly when there are two such numbers. */
  lemma UnknownIsUndecided(divisor: nat, remainder: nat, error: nat)
    requires remainder < divisor < WORD64 && error < divisor && error < divisor - error
    ensures GetRoundDirection(divisor, remainder, error) == Unknown <==> Undecided(divisor, remainder, error)
  {
    assert Within(remainder - error, remainder, error) && Within(remainder + error, remainder, error);
  }

  /** `t` units are within half a unit of every number within `error` of `rest`. */
  predicate HalfUnit(t: int, unit: int, rest: int, error: int)
  {
    2 * (rest + error) - 2 * (t * unit) <= unit && 2 * (t * unit) - 2 * (rest - error) <= unit
  }

  /** Adding whole units on both sides changes nothing. */
  lemma HalfUnitShift(v: int, t: int, unit: int, rest: int, error: int)
    requires HalfUnit(t, unit, rest, error)
    ensures HalfUnit(v + t, unit, v * unit + rest, error)
  {
    assert (v + t) * unit == v * unit + t * unit;
  }

  /** What being within half a unit means for any real number within the error. */
  lemma HalfUnitForReals(t: int, unit: int, rest: int, error: int, x: real)
    requires HalfUnit(t, unit, rest, error)
    requires (rest - error) as real <= x <= (rest + error) as real
    ensures -(unit as real) <= 2.0 * (x - (t * unit) as real) <= unit as real
  {
    var c := t * unit;
    assert 2.0 * (rest + error) as real == (2 * (rest + error)) as real;
    assert 2.0 * (rest - error) as real == (2 * (rest - error)) as real;
    assert 2.0 * (c as real) == (2 * c) as real;
  }

  lemma DirectionRounds(divisor: nat, remainder: nat, error: nat)
    requires remainder < divisor < WORD64 && error < divisor && error < divisor - error
    ensures GetRoundDirection(divisor, remainder, error) == Down ==> HalfUnit(0, divisor, remainder, error)
    ensures GetRoundDirection(divisor, remainder, error) == Up ==> HalfUnit(1, divisor, remainder, error)
  {
  }

  /** Collects digits up to a precision. */
  class FixedHandler {
    const buf: array<char>
    var size: nat
    var precision: int
    var exp10: int
    const fixed: bool

    constructor (buf: array<char>, precision: int, exp10: int, fixed: bool)
      ensures this.buf == buf && this.fixed == fixed
      ensures size == 0 && this.precision == precision && this.exp10 == exp10
    {
      this.buf, this.size, this.precision, this.exp10, this.fixed := buf, 0, precision, exp10, fixed;
    }

    ghost function Digits(): seq<char>
      requires size <= buf.Length
      reads this, buf
    {
      buf[..size]
    }

    /**
     * Before any digit: a fixed format turns its precision into a digit count, which may already be zero
     * or negative. `remainder` and `divisor` are a tenth of the value and of the unit above it.
     */
    method OnStart(divisor: nat, remainder: nat, error: nat, exp: int) returns (r: DigitsResult)
      requires size == 0 < buf.Length
      requires remainder < divisor < WORD64 && error < divisor && error < divisor - error
      modifies this, buf
      ensures exp10 == old(exp10)
      ensures precision == if fixed then old(precision) + exp + exp10 else old(precision)
      ensures r == More <==> !fixed || precision > 0
      ensures r == Error <==> fixed && precision == 0 && Undecided(divisor, remainder, error)
      ensures r != Done || precision < 0 ==> size == 0
      ensures r == Done ==> fixed && precision <= 0
      ensures r == Done && precision == 0 ==>
                && size == 1
                && GetRoundDirection(divisor, remainder, error) == (if buf[0] == '1' then Up else Down)
                && (buf[0] == '1' || buf[0] == '0')
    {
      if !fixed {
        return More;
      }
      precision := precision + exp + exp10;
      if precision > 0 {
        return More;
      }
      if precision < 0 {
        return Done;
      }
      var dir := GetRoundDirection(divisor, remainder, error);
      UnknownIsUndecided(divisor, remainder, error);
      if dir == Unknown {
        return Error;
      }
      buf[size] := if dir == Up then '1' else '0';
      size := size + 1;
      return Done;
    }

    /** One more digit, with what is left below it and how exact that is. */
    method OnDigit(digit: char, divisor: nat, remainder: nat, error: nat, integral: bool) returns (r: DigitsResult)
      requires size + 1 < buf.Length && AllDigits(Digits()) && IsDigit(digit)
      requires remainder < divisor < WORD64
      requires integral ==> error == 1 && divisor > 2
      modifies this, buf
      ensures size <= buf.Length && precision == old(precision)
      ensures r == More ==> Digits() == old(Digits()) + [digit] && size < precision && exp10 == old(exp10)
      ensures r == More <==> (integral || error < remainder) && old(size) + 1 < precision
      ensures r != More ==>
                (r == Error <==> (!integral && error >= remainder) || 2 * error >= divisor
                                 || Undecided(divisor, remainder, error))
      ensures r == Error ==> size == old(size) + 1 && exp10 == old(exp10)
      ensures r == Done ==>
                && AllDigits(Digits()) && old(exp10) <= exp10 <= old(exp10) + 1
                && precision <= old(size) + 1
                && old(size) + 1 <= size <= old(size) + 2 && (size == old(size) + 2 ==> fixed)
                && (exp10 > old(exp10) ==> !fixed)
                && HalfUnit((if exp10 > old(exp10) then 10 * DecVal(Digits()) else DecVal(Digits()))
                            - DecVal(old(Digits()) + [digit]),
                            divisor, remainder, error)
    {
      buf[size] := digit;
      size := size + 1;
      assert Digits() == old(Digits()) + [digit];
      if !integral && error >= remainder {
        return Error;
      }
      if size < precision {
        return More;
      }
      if !integral {
        if error >= divisor || error >= divisor - error {
          return Error;
        }
      }
      var dir := GetRoundDirection(divisor, remainder, error);
      DirectionRounds(divisor, remainder, error);
      UnknownIsUndecided(divisor, remainder, error);
      if dir != Up {
        return if dir == Down then Done else Error;
      }
      RoundUp();
      return Done;
    }

    /** Increments the last digit and carries; an overflowing first digit grows the number instead. */
    method RoundUp()
      requires 0 < size < buf.Length && AllDigits(Digits())
      modifies this`size, this`exp10, buf
      ensures size <= buf.Length && AllDigits(Digits())
      ensures old(exp10) <= exp10 <= old(exp10) + 1
      ensures size == old(size) || (fixed && size == old(size) + 1)
      ensures exp10 > old(exp10) ==> !fixed
      ensures (if exp10 > old(exp10) then 10 * DecVal(Digits()) else DecVal(Digits())) == old(DecVal(Digits())) + 1
    {
      ghost var s := buf[..size];
      buf[size - 1] := buf[size - 1] + 1 as char;
      assert buf[..size] == s[size - 1 := buf[size - 1]];
      DecUpdate(s, size - 1, buf[size - 1]);
      CarryChain(buf, size);
      if buf[0] > '9' {
        ghost var t := buf[..size];
        OverflowedFirst(t);
        buf[0] := '1';
        assert buf[..size] == t[0 := '1'];
        if fixed {
          buf[size] := '0';
          size := size + 1;
          assert buf[..size] == t[0 := '1'] + ['0'];
        } else {
          exp10 := exp10 + 1;
        }
      }
    }
  }

  /** The approximated value `f * 2^e`, scaled so that its integral part has at most 32 bits. */
  datatype Scaled = Scaled(f: nat, e: int)
  {
    ghost predicate Valid() { f < WORD64 && -60 <= e <= -32 && f >= One() }

    function One(): (one: nat)
      requires e <= 0
      ensures one > 0
    {
      Pow(2, -e)
    }
  }

  lemma OneBounds(v: Scaled)
    requires v.Valid()
    ensures 0x1_0000_0000 <= v.One() <= 0x1000_0000_0000_0000
    ensures v.f / v.One() < 0x1_0000_0000
  {
    PowerOfTwo32();
    PowMonotonic(2, 32, -v.e);
    PowMonotonic(2, -v.e, 60);
    PowerOfTwo60();
    QuotientFits(v.f, v.One());
  }

  lemma PowerOfTwo60()
    ensures Pow(2, 60) == 0x1000_0000_0000_0000
  {
    assert Pow(2, 14) == 0x4000;
    PowerOfTwo32();
    PowAdd(2, 14, 14);
    PowAdd(2, 32, 28);
  }

  lemma QuotientFits(f: nat, one: nat)
    requires f < WORD64 && one >= 0x1_0000_0000
    ensures f / one < 0x1_0000_0000
  {
    var q := f / one;
    assert q * one <= f;
    if q >= 0x1_0000_0000 {
      MulLe(0x1_0000_0000, q, one);
    }
  }

  /** The weight of the last digit when `exp` more integral digits were due, on the scale of the value. */
  ghost function Unit(v: Scaled, exp: int): nat
    requires v.e <= 0
  {
    Pow(10, Above(exp)) * v.One()
  }

  /** What an integral and a fractional part amount to together. */
  function Rest(v: Scaled, integral: nat, fractional: nat): nat
    requires v.e <= 0
  {
    integral * v.One() + fractional
  }

  /** The value and its error, multiplied up by the fractional digits produced. */
  ghost function Target(v: Scaled, exp: int): nat { v.f * Pow(10, Above(-exp)) }

  ghost function TargetError(exp: int): nat { Pow(10, Above(-exp)) }

  /** The digits so far times the current unit plus the remainder are the scaled value. */
  ghost predicate Accounted(v: Scaled, exp: int, digits: seq<char>, remainder: nat)
    requires v.e <= 0
  {
    && AllDigits(digits)
    && Target(v, exp) == DecVal(digits) * Unit(v, exp) + remainder
    && remainder < Unit(v, exp)
  }

  /** `number` units are within half a unit of everything within the error of the scaled value. */
  ghost predicate Rounded(v: Scaled, exp: int, number: int)
    requires v.e <= 0
  {
    HalfUnit(number, Unit(v, exp), Target(v, exp), TargetError(exp))
  }

  /** The number the handler has written, allowing for a bumped exponent. */
  ghost function Number(h: FixedHandler, exp10: int): int
    requires h.size <= h.buf.Length
    reads h, h.buf
  {
    if h.exp10 > exp10 then 10 * DecVal(h.Digits()) else DecVal(h.Digits())
  }

  /** Removing the leading digit of the integral part. */
  lemma IntegralStep(v: Scaled, exp: int, digits: seq<char>, integral: nat, fractional: nat, digit: nat, rest: nat)
    requires v.Valid() && 0 < exp && fractional < v.One()
    requires integral == digit * Pow(10, exp - 1) + rest && rest < Pow(10, exp - 1)
    requires Accounted(v, exp, digits, Rest(v, integral, fractional))
    ensures digit <= 9
    ensures Accounted(v, exp - 1, digits + [DigitChar(digit)], Rest(v, rest, fractional))
  {
    var p, one := Pow(10, exp - 1), v.One();
    DigitIsSmall(integral, fractional, p, one, digit, rest);
    RestIsSmall(rest, fractional, p, one);
    LeadingDigit(integral, p, one, digit, rest, DecVal(digits));
    DecSnoc(digits, DigitChar(digit));
    assert Pow(10, 0) == 1;
  }

  lemma DigitIsSmall(integral: nat, fractional: nat, p: nat, one: nat, digit: nat, rest: nat)
    requires one > 0 && integral == digit * p + rest
    requires integral * one + fractional < (10 * p) * one
    ensures digit <= 9
  {
    if digit >= 10 {
      MulLe(10, digit, p);
      MulLe(10 * p, integral, one);
    }
  }

  lemma RestIsSmall(rest: nat, fractional: nat, p: nat, one: nat)
    requires rest < p && fractional < one
    ensures rest * one + fractional < p * one
  {
    MulLe(rest + 1, p, one);
    assert (rest + 1) * one == rest * one + one;
  }

  lemma LeadingDigit(integral: int, p: int, one: int, digit: int, rest: int, w: int)
    requires integral == digit * p + rest
    ensures w * ((10 * p) * one) + integral * one == (10 * w + digit) * (p * one) + rest * one
  {
    assert integral * one == digit * (p * one) + rest * one;
    assert (10 * w + digit) * (p * one) == w * ((10 * p) * one) + digit * (p * one);
  }

  /** Moving one digit out of the fractional part. */
  lemma FractionalStep(v: Scaled, exp: int, digits: seq<char>, fractional: nat, digit: nat, rest: nat)
    requires v.Valid() && exp <= 0
    requires 10 * fractional == digit * v.One() + rest && rest < v.One()
    requires Accounted(v, exp, digits, fractional)
    ensures digit <= 9
    ensures Accounted(v, exp - 1, digits + [DigitChar(digit)], rest)
    ensures TargetError(exp - 1) == 10 * TargetError(exp)
  {
    var one := v.One();
    UnitIsOne(v, exp);
    UnitIsOne(v, exp - 1);
    FractionalDigitIsSmall(fractional, one, digit, rest);
    DecSnoc(digits, DigitChar(digit));
    NextFraction(v.f, Pow(10, -exp), DecVal(digits), one, fractional, digit, rest);
  }

  lemma FractionalDigitIsSmall(fractional: nat, one: nat, digit: nat, rest: nat)
    requires 10 * fractional == digit * one + rest && fractional < one
    ensures digit <= 9
  {
    if digit >= 10 {
      MulLe(10, digit, one);
    }
  }

  lemma NextFraction(f: int, p: int, w: int, one: int, fractional: int, digit: int, rest: int)
    requires f * p == w * one + fractional && 10 * fractional == digit * one + rest
    ensures f * (10 * p) == (10 * w + digit) * one + rest
  {
    assert f * (10 * p) == 10 * (f * p);
    assert (10 * w + digit) * one == 10 * (w * one) + digit * one;
  }

  /** A handler that stops turns what it promises about the remainder into a promise about the value. */
  lemma DoneIsRounded(v: Scaled, exp: int, digits: seq<char>, remainder: nat, number: int)
    requires v.Valid() && Accounted(v, exp, digits, remainder)
    requires HalfUnit(number - DecVal(digits), Unit(v, exp), remainder, TargetError(exp))
    ensures Rounded(v, exp, number)
  {
    HalfUnitShift(DecVal(digits), number - DecVal(digits), Unit(v, exp), remainder, TargetError(exp));
  }

  /** At most 18 digits can follow the decimal point before the error fills the unit. */
  lemma FewFractionalDigits(k: nat)
    requires Pow(10, k) < 0x1000_0000_0000_0000
    ensures k <= 18
  {
    assert Pow(10, 9) == 1000000000;
    PowAdd(10, 9, 9);
    if k >= 19 {
      PowMonotonic(10, 19, k);
    }
  }

  lemma IntegralDigits(v: Scaled)
    requires v.Valid()
    ensures var exp := NumDigits(v.f / v.One());
            && exp <= 10 && v.f / v.One() < Pow(10, exp)
            && Pow(10, exp - 1) * v.One() <= v.f < Unit(v, exp)
  {
    OneBounds(v);
    var one := v.One();
    var integral := v.f / one;
    var exp := NumDigits(integral);
    NumDigitsBounds(integral);
    NonZeroPart(v.f, one);
    IntegralPart(v.f, one, Pow(10, exp - 1), Pow(10, exp));
    TenDigits(integral);
  }

  lemma NonZeroPart(f: nat, one: nat)
    requires 0 < one <= f
    ensures f / one > 0
  {
    if f / one <= 0 {
      MulLe(f / one, 0, one);
    }
  }

  lemma IntegralPart(f: nat, one: nat, low: nat, high: nat)
    requires one > 0 && low <= f / one < high
    ensures low * one <= f < high * one
  {
    var q := f / one;
    assert f == q * one + f % one;
    MulLe(low, q, one);
    MulLe(q + 1, high, one);
    assert (q + 1) * one == q * one + one;
  }

  lemma TenDigits(n: nat)
    requires n < 0x1_0000_0000
    ensures NumDigits(n) <= 10
  {
    assert Pow(10, 5) == 100000;
    PowAdd(10, 5, 5);
    FewDigits(n, 10);
  }

  /** The tenth of the value handed to `OnStart` decides the rounding of the whole. */
  lemma StartDirection(f: nat, divisor: nat)
    requires f < 10 * divisor < 10 * WORD64 && 10 < divisor - 10
    ensures f / 10 < divisor
    ensures GetRoundDirection(divisor, f / 10, 10) == Up ==> HalfUnit(1, 10 * divisor, f, 1)
    ensures GetRoundDirection(divisor, f / 10, 10) == Down ==> HalfUnit(0, 10 * divisor, f, 1)
  {
  }

  /** `size` digits are out, `exp` more integral digits are due; more are only asked for below the precision. */
  ghost predicate Collecting(h: FixedHandler, start: int, exp: int, precision: int, exp10: int)
    reads h
  {
    && h.buf.Length >= 32 && 1 <= start <= 10
    && h.size == start - exp <= h.buf.Length
    && h.precision == precision && h.exp10 == exp10
    && (h.size == 0 || h.size < precision)
  }

  /** What the caller is told: rounded soundly with the digits asked for, or not at all. */
  ghost predicate Outcome(v: Scaled, h: FixedHandler, r: DigitsResult, start: int, exp: int, exp10: int)
    requires v.e <= 0
    reads h, h.buf
  {
    && h.size <= h.buf.Length && r != More
    && (r == Error ==> h.size + exp == start && h.exp10 == exp10)
    && (r == Done ==>
          && AllDigits(h.Digits())
          && h.precision <= h.size <= Max(h.precision, 1) + (if h.fixed then 1 else 0)
          && (h.size > 0 ==> Rounded(v, exp, Number(h, exp10))))
  }

  /** What is left of the scaled value below a position. */
  ghost function Below(v: Scaled, exp: int): nat
    requires v.e <= 0
  {
    Target(v, exp) % Unit(v, exp)
  }

  /** Within the fraction the error has reached what is left. */
  ghost predicate Drowned(v: Scaled, exp: int)
    requires v.e <= 0
  {
    exp < 0 && TargetError(exp) >= Below(v, exp)
  }

  /** Generation ends at a position with the digits asked for, or before when the error is too large. */
  ghost predicate StopsAt(v: Scaled, start: int, precision: int, exp: int)
    requires v.e <= 0
  {
    Drowned(v, exp) || start - exp >= precision
  }

  /** The error leaves no sound answer at the position. */
  ghost predicate GivesUpAt(v: Scaled, exp: int)
    requires v.e <= 0
  {
    || Drowned(v, exp) || 2 * TargetError(exp) >= Unit(v, exp)
    || Undecided(Unit(v, exp), Below(v, exp), TargetError(exp))
  }

  ghost predicate GoesOn(v: Scaled, start: int, precision: int, exp: int)
    requires v.e <= 0
  {
    forall q :: exp <= q < start ==> !StopsAt(v, start, precision, q)
  }

  /** Generation has ended at the first position where it must, without an answer exactly if there is none. */
  ghost predicate Ended(v: Scaled, start: int, precision: int, exp: int, r: DigitsResult)
    requires v.e <= 0
  {
    && exp < start && GoesOn(v, start, precision, exp + 1) && StopsAt(v, start, precision, exp)
    && (r == Error <==> GivesUpAt(v, exp))
  }

  lemma AccountedIsBelow(v: Scaled, exp: int, digits: seq<char>, remainder: nat)
    requires v.e <= 0 && Accounted(v, exp, digits, remainder)
    ensures Unit(v, exp) > 0 && Below(v, exp) == remainder
  {
    DivModUnique(Target(v, exp), Unit(v, exp), DecVal(digits), remainder);
  }

  /** The same in the numbers that the handler is given. */
  lemma Stopping(v: Scaled, start: int, precision: int, exp: int, digits: seq<char>,
                 unit: nat, remainder: nat, error: nat)
    requires v.e <= 0 && Accounted(v, exp, digits, remainder) && unit == Unit(v, exp) && error == TargetError(exp)
    ensures StopsAt(v, start, precision, exp) <==> (exp < 0 && error >= remainder) || start - exp >= precision
    ensures GivesUpAt(v, exp)
            <==> (exp < 0 && error >= remainder) || 2 * error >= unit || Undecided(unit, remainder, error)
  {
    AccountedIsBelow(v, exp, digits, remainder);
  }

  /** Hands a digit to the handler; `exp` is its position. */
  method TellDigit(v: Scaled, h: FixedHandler, ghost start: int, ghost exp: int,
                   digit: nat, unit: nat, remainder: nat, error: nat, integral: bool) returns (r: DigitsResult)
    requires v.Valid() && Collecting(h, start, exp + 1, h.precision, h.exp10) && start - exp < 32 && digit <= 9
    requires AllDigits(h.Digits()) && Accounted(v, exp, h.Digits() + [DigitChar(digit)], remainder)
    requires unit == Unit(v, exp) < WORD64 && error == TargetError(exp) && (integral ==> error == 1 && unit > 2)
    requires integral <==> exp >= 0
    modifies h, h.buf
    ensures h.precision == old(h.precision)
    ensures r == More ==> Collecting(h, start, exp, h.precision, old(h.exp10))
    ensures r == More ==> Accounted(v, exp, h.Digits(), remainder) && (!integral ==> error < remainder)
    ensures r != More ==> h.size > 0 && Outcome(v, h, r, start, exp, old(h.exp10))
    ensures r == More <==> !StopsAt(v, start, h.precision, exp)
    ensures r != More ==> (r == Error <==> GivesUpAt(v, exp))
  {
    ghost var digits := h.Digits() + [DigitChar(digit)];
    Stopping(v, start, h.precision, exp, digits, unit, remainder, error);
    r := h.OnDigit(DigitChar(digit), unit, remainder, error, integral);
    if r == Done {
      DoneIsSound(v, h, start, exp, old(h.exp10), digits, unit, remainder, error);
    }
  }

  lemma DoneIsSound(v: Scaled, h: FixedHandler, start: int, exp: int, exp10: int,
                    digits: seq<char>, unit: nat, remainder: nat, error: nat)
    requires v.Valid() && Accounted(v, exp, digits, remainder) && unit == Unit(v, exp) && error == TargetError(exp)
    requires h.size <= h.buf.Length && AllDigits(h.Digits())
    requires h.precision <= h.size <= Max(h.precision, 1) + (if h.fixed then 1 else 0)
    requires HalfUnit(Number(h, exp10) - DecVal(digits), unit, remainder, error)
    ensures Outcome(v, h, Done, start, exp, exp10)
  {
    DoneIsRounded(v, exp, digits, remainder, Number(h, exp10));
  }

  /** One digit of the integral part, by dividing by the power of ten of its position. */
  method IntegralDigit(v: Scaled, h: FixedHandler, ghost start: int, exp: int, integral: nat, fractional: nat)
    returns (r: DigitsResult, rest: nat)
    requires v.Valid() && start == NumDigits(v.f / v.One()) && 0 < exp <= start
    requires Collecting(h, start, exp, h.precision, h.exp10)
    requires integral < 0x1_0000_0000 && fractional < v.One()
    requires Accounted(v, exp, h.Digits(), Rest(v, integral, fractional))
    modifies h, h.buf
    ensures h.precision == old(h.precision)
    ensures rest <= integral && (exp == 1 ==> rest == 0)
    ensures r == More ==> Collecting(h, start, exp - 1, h.precision, old(h.exp10))
    ensures r == More ==> Accounted(v, exp - 1, h.Digits(), Rest(v, rest, fractional))
    ensures r != More ==> h.size > 0 && Outcome(v, h, r, start, exp - 1, old(h.exp10))
    ensures r == More <==> !StopsAt(v, start, h.precision, exp - 1)
    ensures r != More ==> (r == Error <==> GivesUpAt(v, exp - 1))
  {
    var p := Pow(10, exp - 1);
    DivParts(integral, p);
    var digit := integral / p;
    rest := integral % p;
    IntegralStep(v, exp, h.Digits(), integral, fractional, digit, rest);
    DigitChange(integral, p);
    UnitFits(v, start, exp - 1);
    r := TellDigit(v, h, start, exp - 1, digit, p * v.One(), Rest(v, rest, fractional), 1, true);
  }

  /** The digits of the integral part, up to ten of them. */
  method GenIntegral(v: Scaled, h: FixedHandler, start: int, integralPart: nat, fractional: nat)
    returns (r: DigitsResult, exp: int)
    requires v.Valid() && h.size == 0 && Collecting(h, start, start, h.precision, h.exp10)
    requires start == NumDigits(v.f / v.One())
    requires integralPart == v.f / v.One() && fractional == v.f % v.One()
    modifies h, h.buf
    ensures h.precision == old(h.precision)
    ensures r == More ==> exp == 0 && Collecting(h, start, 0, h.precision, old(h.exp10))
    ensures r == More ==> Accounted(v, 0, h.Digits(), fractional)
    ensures r != More ==> h.size > 0 && Outcome(v, h, r, start, exp, old(h.exp10))
    ensures if r == More then GoesOn(v, start, h.precision, 0) else Ended(v, start, h.precision, exp, r)
  {
    var integral := integralPart;
    exp := start;
    OneBounds(v);
    assert h.Digits() == [];
    StartsAccounted(v, start, integral, fractional);
    r := More;
    while r == More && exp > 0
      invariant 0 <= exp <= start && h.precision == old(h.precision)
      invariant 0 <= integral <= integralPart && (exp == 0 ==> integral == 0)
      invariant r == More ==> Collecting(h, start, exp, h.precision, old(h.exp10))
      invariant r == More ==> Accounted(v, exp, h.Digits(), Rest(v, integral, fractional))
      invariant r != More ==> h.size > 0 && Outcome(v, h, r, start, exp, old(h.exp10))
      invariant if r == More then GoesOn(v, start, h.precision, exp) else Ended(v, start, h.precision, exp, r)
    {
      r, integral := IntegralDigit(v, h, start, exp, integral, fractional);
      exp := exp - 1;
    }
  }

  lemma StartsAccounted(v: Scaled, start: int, integral: nat, fractional: nat)
    requires v.Valid() && start == NumDigits(v.f / v.One())
    requires integral == v.f / v.One() && fractional == v.f % v.One()
    ensures fractional < v.One() && Accounted(v, start, [], Rest(v, integral, fractional))
  {
    IntegralDigits(v);
    Recompose(v.f, v.One(), Unit(v, start));
    assert Pow(10, 0) == 1;
  }

  lemma Recompose(f: nat, one: nat, unit: nat)
    requires one > 0
    ensures (f / one) * one + f % one == f && f * 1 == f && 0 * unit == 0
  {
  }

  lemma DigitChange(integral: nat, p: nat)
    requires p > 0
    ensures 0 <= integral % p <= integral && (p == 1 ==> integral % p == 0)
  {
    var q := integral / p;
    if q < 0 { MulLe(q, -1, p); }
    MulLe(0, q, p);
  }

  /** The unit handed to the handler fits 64 bits and is far larger than the error. */
  lemma UnitFits(v: Scaled, start: int, exp: int)
    requires v.Valid() && start == NumDigits(v.f / v.One()) && 0 <= exp < start
    ensures 2 < Pow(10, exp) * v.One() < WORD64
    ensures Unit(v, exp) == Pow(10, exp) * v.One() && TargetError(exp) == 1
  {
    IntegralDigits(v);
    OneBounds(v);
    PowMonotonic(10, exp, start - 1);
    MulLe(Pow(10, exp), Pow(10, start - 1), v.One());
    MulLe(1, Pow(10, exp), v.One());
    IntegralUnit(v, exp);
  }

  lemma IntegralUnit(v: Scaled, exp: int)
    requires v.e <= 0 && 0 <= exp
    ensures Unit(v, exp) == Pow(10, exp) * v.One() && TargetError(exp) == 1
  {
    assert Pow(10, 0) == 1;
  }

  method SplitAt(n: nat, one: nat) returns (digit: nat, rest: nat)
    requires one > 0
    ensures n == digit * one + rest && rest < one
  {
    DivParts(n, one);
    digit, rest := n / one, n % one;
  }

  /** One digit of the fractional part. */
  method FractionalDigit(v: Scaled, h: FixedHandler, ghost start: int, exp: int, fractional: nat, error: nat)
    returns (r: DigitsResult, rest: nat)
    requires v.Valid() && exp <= 0 && Collecting(h, start, exp, h.precision, h.exp10)
    requires Accounted(v, exp, h.Digits(), fractional)
    requires error == TargetError(exp) < v.One()
    modifies h, h.buf
    ensures h.precision == old(h.precision)
    ensures r == More ==> Collecting(h, start, exp - 1, h.precision, old(h.exp10))
    ensures r == More ==> Accounted(v, exp - 1, h.Digits(), rest)
    ensures r == More ==> 10 * error == TargetError(exp - 1) < rest < v.One()
    ensures r != More ==> h.size > 0 && Outcome(v, h, r, start, exp - 1, old(h.exp10))
    ensures r == More <==> !StopsAt(v, start, h.precision, exp - 1)
    ensures r != More ==> (r == Error <==> GivesUpAt(v, exp - 1))
  {
    OneBounds(v);
    FewFractionalDigits(-exp);
    UnitIsOne(v, exp);
    UnitIsOne(v, exp - 1);
    assert fractional * 10 < WORD64 && error * 10 < WORD64;
    var digit;
    digit, rest := SplitAt(10 * fractional, v.One());
    FractionalStep(v, exp, h.Digits(), fractional, digit, rest);
    r := TellDigit(v, h, start, exp - 1, digit, v.One(), rest, 10 * error, false);
  }

  lemma UnitIsOne(v: Scaled, exp: int)
    requires v.e <= 0 && exp <= 0
    ensures Unit(v, exp) == v.One()
  {
    assert Pow(10, 0) == 1;
  }

  /** The digits after the point: both the fraction and the error grow tenfold until they meet. */
  method GenFractional(v: Scaled, h: FixedHandler, ghost start: int, fractionalPart: nat)
    returns (r: DigitsResult, exp: int)
    requires v.Valid() && Collecting(h, start, 0, h.precision, h.exp10)
    requires Accounted(v, 0, h.Digits(), fractionalPart) && GoesOn(v, start, h.precision, 0)
    modifies h, h.buf
    ensures h.precision == old(h.precision)
    ensures h.size > 0 && Outcome(v, h, r, start, exp, old(h.exp10)) && Ended(v, start, h.precision, exp, r)
  {
    var fractional, error := fractionalPart, 1;
    exp := 0;
    OneBounds(v);
    assert Pow(10, 0) == 1;
    r := More;
    while r == More
      invariant exp <= 0 && h.precision == old(h.precision)
      invariant r == More ==> Collecting(h, start, exp, h.precision, old(h.exp10))
      invariant r == More ==> Accounted(v, exp, h.Digits(), fractional)
      invariant r == More ==> 0 < error == TargetError(exp) < v.One()
      invariant r != More ==> h.size > 0 && Outcome(v, h, r, start, exp, old(h.exp10))
      invariant if r == More then GoesOn(v, start, h.precision, exp) else Ended(v, start, h.precision, exp, r)
      decreases r == More, v.One() - error
    {
      r, fractional := FractionalDigit(v, h, start, exp, fractional, error);
      error, exp := 10 * error, exp - 1;
    }
  }

  /**
   * `grisu_gen_digits` with the fixed handler and an error of one. `exp` counts the integral digits
   * that were still due when it stopped.
   */
  method GrisuGenDigits(v: Scaled, h: FixedHandler) returns (r: DigitsResult, exp: int)
    requires v.Valid() && h.size == 0 && h.buf.Length >= 32
    modifies h, h.buf
    ensures var start := NumDigits(v.f / v.One());
            && h.precision == (if h.fixed then old(h.precision) + start + old(h.exp10) else old(h.precision))
            && Outcome(v, h, r, start, exp, old(h.exp10))
            && (if h.fixed && h.precision <= 0 then
                  r == Error <==> h.precision == 0 && Undecided(Pow(10, start - 1) * v.One(), v.f / 10, 10)
                else Ended(v, start, h.precision, exp, r))
            && (r == Done && h.size == 0 ==> h.precision < 0 && 2 * (v.f + 1) <= Unit(v, start - h.precision))
  {
    var one := v.One();
    var integral, fractional := v.f / one, v.f % one;
    exp := NumDigits(integral);
    ghost var start := exp;
    IntegralDigits(v);
    r := StartDigits(v, h, exp);
    if r != More { return; }
    r, exp := GenIntegral(v, h, exp, integral, fractional);
    if r == More {
      r, exp := GenFractional(v, h, start, fractional);
    }
  }

  /** Hands a tenth of the value to the handler, which may already be done. */
  method StartDigits(v: Scaled, h: FixedHandler, exp: int) returns (r: DigitsResult)
    requires v.Valid() && h.size == 0 && h.buf.Length >= 32 && exp == NumDigits(v.f / v.One())
    modifies h, h.buf
    ensures h.exp10 == old(h.exp10)
    ensures h.precision == (if h.fixed then old(h.precision) + exp + old(h.exp10) else old(h.precision))
    ensures r == More ==> h.size == 0 && Collecting(h, exp, exp, h.precision, h.exp10)
    ensures r != More ==> Outcome(v, h, r, exp, exp, old(h.exp10))
    ensures r == More <==> !(h.fixed && h.precision <= 0)
    ensures r == Error <==> h.fixed && h.precision == 0 && Undecided(Pow(10, exp - 1) * v.One(), v.f / 10, 10)
    ensures r == Done && h.size == 0 ==> h.precision < 0 && 2 * (v.f + 1) <= Unit(v, exp - h.precision)
  {
    var divisor := Pow(10, exp - 1) * v.One();
    StartFacts(v, exp, divisor);
    r := h.OnStart(divisor, v.f / 10, 10, exp);
    if r == Done && h.size == 0 {
      RoundsToNothing(v, exp, h.precision);
    }
    if r == Done && h.size == 1 {
      assert h.Digits() == [h.buf[0]];
      OneStartDigit(v, exp, h.buf[0], divisor);
    }
  }

  /** The digit written before all others is 1 or 0, as the value rounds to its unit. */
  lemma OneStartDigit(v: Scaled, exp: int, c: char, divisor: nat)
    requires v.Valid() && exp == NumDigits(v.f / v.One()) && divisor == Pow(10, exp - 1) * v.One()
    requires v.f / 10 < divisor < WORD64 && 10 < divisor - 10
    requires (c == '1' || c == '0') && GetRoundDirection(divisor, v.f / 10, 10) == (if c == '1' then Up else Down)
    ensures Rounded(v, exp, DecVal([c]))
  {
    StartFacts(v, exp, divisor);
    DecSnoc([], c);
    assert [] + [c] == [c];
    StartIsRounded(v, exp, DecVal([c]), divisor);
  }

  lemma StartFacts(v: Scaled, exp: int, divisor: nat)
    requires v.Valid() && exp == NumDigits(v.f / v.One()) && divisor == Pow(10, exp - 1) * v.One()
    ensures 0 < exp <= 10 && Unit(v, exp) == 10 * divisor && v.f / 10 < divisor < WORD64 && 10 < divisor - 10
    ensures GetRoundDirection(divisor, v.f / 10, 10) == Up ==> HalfUnit(1, 10 * divisor, v.f, 1)
    ensures GetRoundDirection(divisor, v.f / 10, 10) == Down ==> HalfUnit(0, 10 * divisor, v.f, 1)
  {
    IntegralDigits(v);
    UnitFits(v, exp, exp - 1);
    TenthOfUnit(v, exp);
    OneBounds(v);
    MulLe(1, Pow(10, exp - 1), v.One());
    StartDirection(v.f, divisor);
  }

  lemma TenthOfUnit(v: Scaled, start: int)
    requires v.e <= 0 && start > 0
    ensures Unit(v, start) == 10 * (Pow(10, start - 1) * v.One())
  {
    assert (10 * Pow(10, start - 1)) * v.One() == 10 * (Pow(10, start - 1) * v.One());
  }

  lemma StartIsRounded(v: Scaled, start: int, number: int, divisor: nat)
    requires v.Valid() && start > 0 && Unit(v, start) == 10 * divisor
    requires HalfUnit(number, 10 * divisor, v.f, 1)
    ensures Rounded(v, start, number)
  {
    assert Pow(10, 0) == 1;
  }

  /** A value wholly below a tenth of the unit asked for rounds to zero. */
  lemma RoundsToNothing(v: Scaled, start: int, precision: int)
    requires v.Valid() && start == NumDigits(v.f / v.One()) && precision < 0
    ensures 2 * (v.f + 1) <= Unit(v, start - precision)
  {
    IntegralDigits(v);
    PowMonotonic(10, start + 1, start - precision);
    MulLe(Pow(10, start + 1), Pow(10, start - precision), v.One());
    TenthOfUnit(v, start + 1);
  }
}
