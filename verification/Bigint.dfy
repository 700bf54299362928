/** Multi-precision unsigned integers, updated in place. */
module BigIntegers {
  import opened Arithmetic
  import opened Bigits
  import opened Comparison
  import opened Convolution

  /** A 128-bit sum kept in two 64-bit words. */
  class Accumulator {
    var lower: int
    var upper: int

    ghost predicate Valid()
      reads this
    {
      0 <= lower < WORD64 && 0 <= upper < WORD64
    }

    ghost function Sum(): int
      reads this
    {
      upper * WORD64 + lower
    }

    constructor ()
      ensures Valid() && Sum() == 0
    {
      lower, upper := 0, 0;
    }

    /** Adds a 64-bit term; the carry out of the low word shows as a wrapped sum. */
    method Add(n: int)
      requires Valid() && 0 <= n < WORD64
      requires Sum() + n < WORD64 * WORD64
      modifies this
      ensures Valid() && Sum() == old(Sum()) + n
    {
      lower := (lower + n) % WORD64;
      if lower < n {
        upper := upper + 1;
      }
    }

    /** The low 32 bits of the sum. */
    function Low(): (d: Bigit)
      requires Valid()
      reads this
      ensures d == Sum() % BASE
    {
      LowWord(upper, lower);
      lower % BASE
    }

    method Shift32()
      requires Valid()
      modifies this
      ensures Valid() && Sum() == old(Sum()) / BASE
    {
      ShiftedWords(upper, lower);
      lower := (upper * BASE) % WORD64 + lower / BASE;
      upper := upper / BASE;
    }
  }

  lemma LowWord(upper: int, lower: int)
    ensures (upper * WORD64 + lower) % BASE == lower % BASE
  {
    DivModUnique(upper * WORD64 + lower, BASE, upper * BASE + lower / BASE, lower % BASE);
  }

  lemma ShiftedWords(upper: int, lower: int)
    requires 0 <= upper < WORD64 && 0 <= lower < WORD64
    ensures 0 <= (upper * BASE) % WORD64 + lower / BASE < WORD64
    ensures (upper / BASE) * WORD64 + (upper * BASE) % WORD64 + lower / BASE == (upper * WORD64 + lower) / BASE
  {
    var h, l := upper / BASE, upper % BASE;
    DivModUnique(upper * BASE, WORD64, h, l * BASE);
    DivModUnique(upper * WORD64 + lower, BASE, upper * BASE + lower / BASE, lower % BASE);
  }

  class Bigint {
    var bigits: seq<Bigit>
    var exp: nat

    ghost function Value(): nat
      reads this
    {
      ValAt(bigits, exp)
    }

    predicate Normal()
      reads this
    {
      Canonical(bigits)
    }

    /** Not zero and no leading zero bigit. */
    predicate Positive()
      reads this
    {
      |bigits| > 0 && bigits[|bigits| - 1] != 0
    }

    function NumBigits(): nat
      reads this
    {
      |bigits| + exp
    }

    constructor ()
      ensures bigits == [] && exp == 0
    {
      bigits, exp := [], 0;
    }

    /** Subtracts `other` and the borrow from one bigit through a wrapping 64-bit difference. */
    method SubtractBigits(index: nat, other: Bigit, borrow: int) returns (newBorrow: int)
      requires index < |bigits| && 0 <= borrow <= 1
      modifies this`bigits
      ensures 0 <= newBorrow <= 1
      ensures |bigits| == |old(bigits)|
      ensures bigits == old(bigits)[index := bigits[index]]
      ensures bigits[index] - BASE * newBorrow == old(bigits)[index] - other - borrow
    {
      var result := (bigits[index] - other - borrow) % WORD64;
      bigits := bigits[index := result % BASE];
      newBorrow := result / 0x8000_0000_0000_0000;
    }

    method RemoveLeadingZeros()
      requires |bigits| > 0
      modifies this`bigits
      ensures Normal() && Value() == old(Value())
      ensures |bigits| <= |old(bigits)|
    {
      ghost var before := bigits;
      var numBigits := |bigits| - 1;
      assert bigits[..numBigits + 1] == bigits;
      while numBigits > 0 && bigits[numBigits] == 0
        invariant 0 <= numBigits < |before| && bigits == before
        invariant Val(before[..numBigits + 1]) == Val(before)
      {
        ghost var upTo := before[..numBigits + 1];
        ValTopZero(upTo);
        assert upTo[..numBigits] == before[..numBigits];
        numBigits := numBigits - 1;
      }
      bigits := bigits[..numBigits + 1];
      ValAtIs(before, exp);
      ValAtIs(bigits, exp);
    }

    /** Multiplies by a 32-bit number. */
    method Multiply32(value: Bigit)
      requires value > 0 && Normal()
      modifies this`bigits
      ensures Normal() && Value() == old(Value()) * value
      ensures old(Positive()) ==> Positive()
    {
      ghost var before := bigits;
      var carry := 0;
      var n := |bigits|;
      for i := 0 to n
        invariant |bigits| == n && 0 <= carry < BASE
        invariant forall k :: i <= k < n ==> bigits[k] == before[k]
        invariant Val(bigits[..i]) + carry * Place(i) == Val(before[..i]) * value
      {
        var result := bigits[i] * value + carry;
        ProductFits(bigits[i], value, carry);
        var d, c := result % BASE, result / BASE;
        CarryAdvance(bigits, before, i, carry, value, d, c);
        bigits := bigits[i := d];
        carry := c;
      }
      FinishCarry(before, bigits, carry, value, exp);
      if carry != 0 {
        bigits := bigits + [carry];
      }
    }

    /** Multiplies by a 64-bit number; the running carry stays within 64 bits. */
    method Multiply64(value: int)
      requires 0 < value < WORD64 && Normal()
      modifies this`bigits
      ensures Normal() && Value() == old(Value()) * value
      ensures old(Positive()) ==> Positive()
    {
      ghost var before := bigits;
      var lower, upper := value % BASE, value / BASE;
      var carry := 0;
      var n := |bigits|;
      for i := 0 to n
        invariant |bigits| == n && 0 <= carry < WORD64
        invariant forall k :: i <= k < n ==> bigits[k] == before[k]
        invariant Val(bigits[..i]) + carry * Place(i) == Val(before[..i]) * value
      {
        WideProductFits(bigits[i], lower, upper, carry);
        var result := bigits[i] * lower + carry % BASE;
        var d := result % BASE;
        var c := bigits[i] * upper + result / BASE + carry / BASE;
        CarryAdvance(bigits, before, i, carry, value, d, c);
        bigits := bigits[i := d];
        carry := c;
      }
      FinishWideCarry(before, bigits, carry, value, exp);
      AppendCarries(carry);
    }

    /** Appends the bigits of a carry out of the top. */
    method AppendCarries(wideCarry: int)
      requires 0 <= wideCarry < WORD64
      requires wideCarry == 0 ==> Normal()
      modifies this`bigits
      ensures Normal() && Value() == (Val(old(bigits)) + wideCarry * Place(|old(bigits)|)) * Place(exp)
      ensures wideCarry == 0 ==> bigits == old(bigits)
      ensures wideCarry != 0 ==> Positive()
    {
      var carry := wideCarry;
      ghost var total := Val(bigits) + carry * Place(|bigits|);
      while carry != 0
        invariant 0 <= carry < WORD64
        invariant carry == 0 ==> Normal() && (wideCarry != 0 ==> Positive())
        invariant carry == wideCarry ==> bigits == old(bigits)
        invariant wideCarry == 0 ==> carry == 0
        invariant Val(bigits) + carry * Place(|bigits|) == total
        decreases carry
      {
        AppendCarry(bigits, carry % BASE, carry / BASE);
        bigits := bigits + [carry % BASE];
        carry := carry / BASE;
      }
      ValAtIs(bigits, exp);
    }

    /** Copies another number. */
    method AssignFrom(other: Bigint)
      modifies this
      ensures bigits == old(other.bigits) && exp == old(other.exp)
    {
      bigits := other.bigits;
      exp := other.exp;
    }

    /** Takes a 64-bit number apart into bigits. */
    method Assign(n: int)
      requires 0 <= n < WORD64
      modifies this
      ensures Normal() && Value() == n && exp == 0
      ensures n > 0 ==> Positive()
    {
      exp := 0;
      bigits := [n % BASE];
      var rest := n / BASE;
      ValAtOne(n % BASE, 0);
      while rest != 0
        invariant 0 <= rest < WORD64 && |bigits| > 0 && exp == 0
        invariant rest == 0 ==> Canonical(bigits) && (n > 0 ==> Positive())
        invariant Val(bigits) + rest * Place(|bigits|) == n
        decreases rest
      {
        AppendCarry(bigits, rest % BASE, rest / BASE);
        bigits := bigits + [rest % BASE];
        rest := rest / BASE;
      }
    }

    /** Multiplies by a power of two: whole positions move into the exponent. */
    method ShiftLeft(amount: nat)
      requires Normal()
      modifies this
      ensures Normal() && Value() == old(Value()) * Pow(2, amount)
      ensures exp == old(exp) + amount / 32
      ensures old(Positive()) ==> Positive()
    {
      ghost var before := bigits;
      exp := exp + amount / 32;
      var shift := amount % 32;
      ghost var m := Pow(2, shift);
      ShiftIsPowerOfTwo(before, old(exp), amount);
      if shift == 0 {
        return;
      }
      var carry := 0;
      var n := |bigits|;
      assert Val(before[..0]) * m == 0;
      for i := 0 to n
        invariant |bigits| == n && 0 <= carry < m && exp == old(exp) + amount / 32
        invariant forall k :: i <= k < n ==> bigits[k] == before[k]
        invariant Val(bigits[..i]) + carry * Place(i) == Val(before[..i]) * m
      {
        ShiftedBigit(bigits[i], shift, carry);
        var c := bigits[i] / Pow(2, 32 - shift);
        var d := (bigits[i] * Pow(2, shift)) % BASE + carry;
        CarryAdvance(bigits, before, i, carry, m, d, c);
        bigits := bigits[i := d];
        carry := c;
      }
      ShiftAmountFits(shift);
      FinishCarry(before, bigits, carry, m, exp);
      if carry != 0 {
        bigits := bigits + [carry];
      }
    }

    /** The loop of `Align`: moves the bigits up and puts zeros below them. */
    method MoveUp(difference: nat)
      modifies this`bigits
      ensures bigits == Zeros(difference) + old(bigits)
    {
      var n := |bigits|;
      bigits := bigits + Zeros(difference);
      var i := n - 1;
      while i >= 0
        invariant -1 <= i < n && |bigits| == n + difference
        invariant forall k :: 0 <= k <= i ==> bigits[k] == old(bigits)[k]
        invariant forall k :: i < k < n ==> bigits[k + difference] == old(bigits)[k]
      {
        bigits := bigits[i + difference := bigits[i]];
        i := i - 1;
      }
      bigits := Zeros(difference) + bigits[difference..];
    }

    /** Gives this number an exponent no larger than `other`'s by adding low zero bigits. */
    method Align(other: Bigint)
      requires this != other && |bigits| > 0
      modifies this
      ensures Value() == old(Value()) && exp == Min(old(exp), other.exp)
      ensures NumBigits() == old(NumBigits())
      ensures bigits == Zeros(old(exp) - exp) + old(bigits)
    {
      var difference := exp - other.exp;
      if difference <= 0 {
        assert Zeros(0) + bigits == bigits;
        return;
      }
      ghost var before := bigits;
      MoveUp(difference);
      exp := exp - difference;
      ZerosAt(Zeros(difference), exp);
      ValAtConcat(Zeros(difference), before, exp);
    }

    /** Takes a final borrow from one bigit, going back to that same bigit while it lasts. */
    method RepayBorrow(i: nat)
      requires i < |bigits|
      modifies this`bigits
      ensures bigits == old(bigits)[i := if old(bigits)[i] != 0 then old(bigits)[i] - 1 else BASE - 2]
    {
      var borrow := 1;
      while borrow > 0
        invariant 0 <= borrow <= 1 && |bigits| == |old(bigits)|
        invariant bigits == old(bigits)[i := bigits[i]]
        invariant borrow == 1 && bigits[i] != old(bigits)[i] ==> bigits[i] == BASE - 1 && old(bigits)[i] == 0
        invariant borrow == 0 ==> bigits[i] == if old(bigits)[i] != 0 then old(bigits)[i] - 1 else BASE - 2
        decreases if borrow == 0 then 0 else if bigits[i] != 0 then 1 else 2
      {
        borrow := SubtractBigits(i, 0, borrow);
      }
    }

    /**
     * Subtracts a number that is not larger and whose exponent is not smaller.
     * Exact exactly when the final borrow can be repaid by the one bigit above `other`.
     */
    method SubtractAligned(other: Bigint)
      requires this != other && Normal() && other.Positive()
      requires exp <= other.exp && Value() >= other.Value()
      modifies this`bigits
      ensures Normal() && NumBigits() <= old(NumBigits())
      ensures Value() == old(Value()) - other.Value()
                         + if old(Repayable(bigits, exp, other.bigits, other.exp)) then 0
                           else (BASE - 1) * Place(other.NumBigits())
    {
      ghost var before := bigits;
      ghost var off := other.exp - exp;
      ghost var whole := Val(other.bigits) * Place(off);
      EnoughPositions(bigits, exp, other.bigits, other.exp);
      AlignedDifference(before, exp, other.bigits, other.exp);
      var i, borrow := SubtractAll(other);
      BorrowMeans(before, bigits, i, whole, borrow);
      assert Repayable(before, exp, other.bigits, other.exp) <==> borrow == 0 || before[i] != 0;
      FinishBorrow(i, borrow, Val(before) - whole);
      RemoveLeadingZeros();
    }

    /** Repays the last borrow of the loop, if there is one. */
    method FinishBorrow(i: nat, borrow: int, ghost difference: int)
      requires 0 <= borrow <= 1 && (borrow == 1 ==> i < |bigits|)
      requires difference == if borrow == 0 then Val(bigits) else Val(bigits) - Place(i)
      modifies this`bigits
      ensures |bigits| == |old(bigits)|
      ensures Value() == difference * Place(exp)
                         + if borrow == 0 || old(bigits)[i] != 0 then 0 else (BASE - 1) * Place(exp + i)
    {
      if borrow > 0 {
        RepaidDifference(bigits, i, exp, difference);
        RepayBorrow(i);
      } else {
        NoBorrow(bigits, exp, difference);
      }
    }

    /** The loop over the bigits of the other number; a last borrow stays to be repaid. */
    method SubtractAll(other: Bigint) returns (i: nat, borrow: int)
      requires this != other && exp <= other.exp && other.exp - exp + |other.bigits| <= |bigits|
      modifies this`bigits
      ensures i == other.exp - exp + |other.bigits| && 0 <= borrow <= 1 && |bigits| == old(|bigits|)
      ensures forall k :: i <= k < |bigits| ==> bigits[k] == old(bigits[k])
      ensures Val(bigits) + Val(other.bigits) * Place(other.exp - exp) - borrow * Place(i) == old(Val(bigits))
    {
      ghost var before := bigits;
      ghost var off := other.exp - exp;
      borrow := 0;
      i := other.exp - exp;
      var n := |other.bigits|;
      assert Val(other.bigits[..0]) * Place(off) == 0;
      for j := 0 to n
        invariant i == off + j && 0 <= borrow <= 1 && |bigits| == |before|
        invariant forall k :: i <= k < |before| ==> bigits[k] == before[k]
        invariant Val(bigits) + Val(other.bigits[..j]) * Place(off) - borrow * Place(i) == Val(before)
      {
        ghost var was, b := bigits, borrow;
        borrow := SubtractBigits(i, other.bigits[j], borrow);
        BorrowStep(was, bigits, i, other.bigits, j, off, b, borrow);
        i := i + 1;
      }
      assert other.bigits[..n] == other.bigits;
    }

    /**
     * Divides by repeated subtraction, leaving the remainder here.
     * The quotient-zero shortcut trusts `Compare`, which needs this number to have the smaller
     * exponent or a different value.
     */
    method DivModAssign(divisor: Bigint) returns (quotient: nat)
      requires this != divisor && Normal() && divisor.Positive()
      requires bigits == [0] ==> exp <= divisor.exp
      requires exp <= divisor.exp || Value() != divisor.Value()
      requires NumBigits() <= divisor.NumBigits() + 1
      modifies this
      ensures old(Value()) == quotient * divisor.Value() + Value()
      ensures Value() < divisor.Value()
      ensures Normal() && exp <= old(exp)
      ensures if quotient == 0 then bigits == old(bigits) && exp == old(exp) else exp == Min(old(exp), divisor.exp)
      ensures bigits == [0] ==> exp <= divisor.exp
      ensures NumBigits() <= old(NumBigits())
    {
      VerdictDecidesAtLeast(bigits, exp, divisor.bigits, divisor.exp);
      CanonicalZero(divisor.bigits, divisor.exp);
      var c := Compare(this, divisor);
      if c < 0 {
        return 0;
      }
      ghost var v0 := Value();
      ghost var d := divisor.Value();
      CanonicalZero(bigits, exp);
      assert Positive();
      Align(divisor);
      quotient := 0;
      while true
        invariant Normal() && exp == Min(old(exp), divisor.exp)
        invariant NumBigits() <= old(NumBigits())
        invariant v0 == quotient * d + Value() && d <= Value() && 0 <= quotient
        decreases Value()
      {
        c := SubtractOnce(divisor);
        assert (quotient + 1) * d == quotient * d + d;
        quotient := quotient + 1;
        if c < 0 {
          break;
        }
      }
    }

    /** One round of the division: subtracts and compares what is left. */
    method SubtractOnce(divisor: Bigint) returns (c: int)
      requires this != divisor && Normal() && divisor.Positive() && exp <= divisor.exp
      requires NumBigits() <= divisor.NumBigits() + 1 && Value() >= divisor.Value()
      modifies this`bigits
      ensures Normal() && NumBigits() <= old(NumBigits()) && Value() == old(Value()) - divisor.Value()
      ensures c < 0 <==> Value() < divisor.Value()
    {
      FewPositionsRepayable(bigits, exp, divisor.bigits, divisor.exp);
      SubtractAligned(divisor);
      VerdictDecidesAtLeast(bigits, exp, divisor.bigits, divisor.exp);
      c := Compare(this, divisor);
    }

    /** Stores the low word of a column's sum and carries the rest into the next column. */
    method StoreColumn(k: nat, sum: Accumulator, ghost n: seq<Bigit>, ghost carry: int)
      requires sum.Valid() && k < |bigits| && sum.Sum() == carry + Column(n, n, k, |n|)
      requires Val(bigits[..k]) + carry * Place(k) == Columns(n, n, |n|, k)
      modifies this`bigits, sum
      ensures sum.Valid() && sum.Sum() == old(sum.Sum()) / BASE && |bigits| == |old(bigits)|
      ensures Val(bigits[..k + 1]) + sum.Sum() * Place(k + 1) == Columns(n, n, |n|, k + 1)
    {
      StoreBigit(bigits, k, n, carry, sum.Sum());
      bigits := bigits[k := sum.Low()];
      sum.Shift32();
    }

    /** The first loop of `Square`: the columns below the length of the number. */
    method LowColumns(n: seq<Bigit>, sum: Accumulator)
      requires |n| < 0x8000_0000 && |bigits| == 2 * |n| && sum.Valid() && sum.Sum() == 0
      modifies this`bigits, sum
      ensures sum.Valid() && sum.Sum() <= |n| * BASE && |bigits| == 2 * |n|
      ensures Val(bigits[..|n|]) + sum.Sum() * Place(|n|) == Columns(n, n, |n|, |n|)
    {
      for k := 0 to |n|
        invariant sum.Valid() && sum.Sum() <= |n| * BASE && |bigits| == 2 * |n|
        invariant Val(bigits[..k]) + sum.Sum() * Place(k) == Columns(n, n, |n|, k)
      {
        ghost var carry := sum.Sum();
        ColumnFits(n, k, carry);
        AddLowColumn(n, k, sum);
        StoreColumn(k, sum, n, carry);
      }
    }

    /** The second loop of `Square`: the columns from the length of the number on. */
    method HighColumns(n: seq<Bigit>, sum: Accumulator)
      requires |n| < 0x8000_0000 && |bigits| == 2 * |n| && sum.Valid() && sum.Sum() <= |n| * BASE
      requires Val(bigits[..|n|]) + sum.Sum() * Place(|n|) == Columns(n, n, |n|, |n|)
      modifies this`bigits, sum
      ensures |bigits| == 2 * |n| && sum.Sum() >= 0
      ensures Val(bigits[..2 * |n|]) + sum.Sum() * Place(2 * |n|) == Columns(n, n, |n|, 2 * |n|)
    {
      for k := |n| to 2 * |n|
        invariant sum.Valid() && sum.Sum() <= |n| * BASE && |bigits| == 2 * |n|
        invariant Val(bigits[..k]) + sum.Sum() * Place(k) == Columns(n, n, |n|, k)
      {
        ghost var carry := sum.Sum();
        ColumnFits(n, k, carry);
        AddHighColumn(n, k, sum);
        StoreColumn(k, sum, n, carry);
      }
    }

    /** Squares by columns through a two-word accumulator. */
    method Square()
      requires Normal() && |bigits| < 0x4000_0000
      modifies this
      ensures Normal() && Value() == old(Value()) * old(Value())
      ensures exp == 2 * old(exp)
    {
      var n := bigits;
      bigits := Zeros(2 * |n|);
      var sum := new Accumulator();
      LowColumns(n, sum);
      HighColumns(n, sum);
      SquareIsComplete(n, bigits, sum.Sum(), exp);
      exp := 2 * exp;
      RemoveLeadingZeros();
    }

    /** Assigns a power of ten: the power of five by repeated squaring, then a shift. */
    method AssignPow10(power: nat)
      requires power < 0x4000_0000
      modifies this
      ensures Normal() && Positive() && Value() == Pow(10, power)
      ensures exp == power / 32
    {
      if power == 0 {
        Assign(1);
        return;
      }
      var bitmask, t := TopBit(power);
      Assign(5);
      TopBitAlone(power, bitmask, t);
      bitmask := bitmask / 2;
      while bitmask != 0
        invariant bitmask == MaskBelow(t)
        invariant Normal() && Positive() && exp == 0
        invariant Value() == Pow(5, LeadingBits(power, t))
        decreases t
      {
        SquareAndMultiply(power, bitmask, t);
        HalfMask(t);
        bitmask := bitmask / 2;
        t := t - 1;
      }
      AllBits(power, t);
      ShiftLeft(power);
      PowMulBase(5, 2, power);
    }

    /** Takes the next bit of the exponent into the power of five. */
    method SquareAndMultiply(power: nat, bitmask: nat, ghost t: nat)
      requires 0 < t && power < 0x4000_0000 && bitmask == Pow(2, t - 1)
      requires Normal() && Positive() && exp == 0 && Value() == Pow(5, LeadingBits(power, t))
      modifies this
      ensures Normal() && Positive() && exp == 0 && Value() == Pow(5, LeadingBits(power, t - 1))
    {
      ghost var q := LeadingBits(power, t);
      NextBit(power, t);
      PowerOfFiveLength(bigits, q);
      Square();
      PowAdd(5, q, q);
      CanonicalZero(bigits, exp);
      if power / bitmask % 2 != 0 {
        Multiply32(5);
      }
    }
  }

  /** The highest bit of a number, found by doubling. */
  method TopBit(power: nat) returns (bitmask: nat, ghost t: nat)
    requires power > 0
    ensures bitmask == Pow(2, t) <= power < 2 * bitmask
  {
    bitmask := 1;
    t := 0;
    while power >= bitmask
      invariant bitmask == Pow(2, t) && bitmask <= 2 * power
      invariant t > 0 ==> Pow(2, t - 1) <= power
      decreases 2 * power - bitmask
    {
      bitmask := bitmask * 2;
      t := t + 1;
    }
    bitmask := bitmask / 2;
    t := t - 1;
  }

  /** Adds the terms of a column on or below the main diagonal of the square. */
  method AddLowColumn(n: seq<Bigit>, k: nat, sum: Accumulator)
    requires k < |n| < 0x8000_0000 && sum.Valid() && sum.Sum() <= |n| * BASE
    modifies sum
    ensures sum.Valid() && sum.Sum() == old(sum.Sum()) + Column(n, n, k, |n|)
  {
    ghost var carry := sum.Sum();
    var i, j := 0, k;
    while j >= 0
      invariant i + j == k && -1 <= j
      invariant sum.Valid() && sum.Sum() == carry + Column(n, n, k, i)
    {
      TermFits(n, k, i, carry);
      sum.Add((n[i] as int) * n[j]);
      i, j := i + 1, j - 1;
    }
    ColumnTail(n, n, k, |n|);
  }

  /** Adds the terms of a column of the top half. */
  method AddHighColumn(n: seq<Bigit>, k: nat, sum: Accumulator)
    requires |n| <= k < 2 * |n| && |n| < 0x8000_0000 && sum.Valid() && sum.Sum() <= |n| * BASE
    modifies sum
    ensures sum.Valid() && sum.Sum() == old(sum.Sum()) + Column(n, n, k, |n|)
  {
    ghost var carry := sum.Sum();
    var j := |n| - 1;
    var i := k - j;
    ColumnHead(n, n, k, i);
    while i < |n|
      invariant i + j == k && k - |n| < i <= |n|
      invariant sum.Valid() && sum.Sum() == carry + Column(n, n, k, i)
    {
      TermFits(n, k, i, carry);
      sum.Add((n[i] as int) * n[j]);
      i, j := i + 1, j - 1;
    }
  }

  /** The exponent without its t lowest bits. */
  ghost function LeadingBits(power: nat, t: nat): nat { power / Pow(2, t) }

  ghost function MaskBelow(t: nat): nat { if t == 0 then 0 else Pow(2, t - 1) }

  lemma TopBitAlone(power: nat, bitmask: nat, t: nat)
    requires bitmask == Pow(2, t) <= power < 2 * bitmask
    ensures LeadingBits(power, t) == 1 && Pow(5, 1) == 5 && bitmask / 2 == MaskBelow(t)
  {
    DivModUnique(power, Pow(2, t), 1, power - Pow(2, t));
  }

  lemma AllBits(power: nat, t: nat)
    requires MaskBelow(t) == 0
    ensures LeadingBits(power, t) == power
  {
    assert t == 0 && Pow(2, 0) == 1;
  }

  lemma HalfMask(t: nat)
    requires t > 0
    ensures MaskBelow(t) / 2 == MaskBelow(t - 1)
  {
  }

  /** Halving the mask moves one more bit of the exponent into the power computed so far. */
  lemma NextBit(power: nat, t: nat)
    requires t > 0
    ensures 0 <= LeadingBits(power, t) <= power
    ensures LeadingBits(power, t - 1) == 2 * LeadingBits(power, t) + power / Pow(2, t - 1) % 2
    ensures Pow(5, 2 * LeadingBits(power, t) + 1) == Pow(5, 2 * LeadingBits(power, t)) * 5
  {
    var p := Pow(2, t - 1);
    var q, r := power / p, power % p;
    var h, b := q / 2, q % 2;
    HalvedQuotient(power, p, q, r, h, b);
  }

  lemma HalvedQuotient(power: nat, p: nat, q: nat, r: nat, h: nat, b: nat)
    requires p > 0 && power == q * p + r && r < p && q == 2 * h + b && b < 2
    ensures power / (2 * p) == h && h <= power
  {
    assert (2 * h + b) * p + r == h * (2 * p) + (b * p + r);
    MulLe(b, 1, p);
    MulLe(0, b, p);
    DivModUnique(power, 2 * p, h, b * p + r);
    MulLe(1, 2 * p, h);
  }

  lemma PowerOfFiveLength(s: seq<Bigit>, q: nat)
    requires |s| > 0 && s[|s| - 1] != 0
    requires ValAt(s, 0) == Pow(5, q)
    ensures |s| <= q + 1
  {
    ValAtTop(s, 0);
    PowBaseMonotonic(5, BASE, q);
    if |s| - 1 > q {
      PowStrict(BASE, q, |s| - 1);
    }
  }

  /** The running sum of a column plus the carry stays far below 128 bits. */
  lemma ColumnFits(n: seq<Bigit>, k: nat, carry: int)
    requires |n| < 0x8000_0000 && 0 <= carry <= |n| * BASE
    ensures 0 <= (carry + Column(n, n, k, |n|)) / BASE <= |n| * BASE
    ensures carry + Column(n, n, k, |n|) < WORD64 * WORD64
  {
    ColumnBound(n, n, k, |n|);
    var m := |n|;
    assert m * (WORD64 - BASE) + m * BASE == m * WORD64;
  }

  lemma TermFits(n: seq<Bigit>, k: nat, i: nat, carry: int)
    requires |n| < 0x8000_0000 && 0 <= carry <= |n| * BASE
    requires i < |n| && 0 <= k - i < |n|
    ensures 0 <= (n[i] as int) * n[k - i] < WORD64
    ensures Column(n, n, k, i + 1) == Column(n, n, k, i) + (n[i] as int) * n[k - i]
    ensures carry + Column(n, n, k, i + 1) < WORD64 * WORD64
  {
    TermBound(n[i], n[k - i]);
    ColumnBound(n, n, k, i + 1);
    MulLe(i + 1, |n|, WORD64 - BASE);
  }

  /** Storing the low word of a column and carrying the rest keeps the columns summed so far. */
  lemma StoreBigit(s: seq<Bigit>, k: nat, n: seq<Bigit>, carry: int, total: int)
    requires k < |s| && total >= 0
    requires total == carry + Column(n, n, k, |n|)
    requires Val(s[..k]) + carry * Place(k) == Columns(n, n, |n|, k)
    ensures Val(s[k := total % BASE][..k + 1]) + (total / BASE) * Place(k + 1) == Columns(n, n, |n|, k + 1)
  {
    var s' := s[k := total % BASE];
    ValPrefix(s', k);
    assert s'[..k] == s[..k];
    PlaceNext(k);
    StoreArithmetic(carry, Column(n, n, k, |n|), total, Place(k));
  }

  lemma StoreArithmetic(carry: int, col: int, total: int, p: int)
    requires total == carry + col && total >= 0
    ensures (total % BASE) * p + (total / BASE) * (BASE * p) == carry * p + col * p
  {
    var d, c := total % BASE, total / BASE;
    assert d + BASE * c == total;
    assert d * p + c * (BASE * p) == (d + BASE * c) * p;
  }

  /** Nothing is left to carry out of the top half, and the bigits are the square. */
  lemma SquareIsComplete(n: seq<Bigit>, s: seq<Bigit>, rest: int, e: nat)
    requires |s| == 2 * |n| && rest >= 0
    requires Val(s[..|s|]) + rest * Place(|s|) == Columns(n, n, |n|, |s|)
    ensures rest == 0
    ensures ValAt(s, 2 * e) == ValAt(n, e) * ValAt(n, e)
  {
    assert s[..|s|] == s && n[..|n|] == n;
    ColumnsAreProduct(n, n, |n|, |s|);
    ValBound(n);
    PowAdd(BASE, |n|, |n|);
    PowAdd(BASE, e, e);
    ValAtIs(s, 2 * e);
    ValAtIs(n, e);
    var v, p := Val(n), Place(|n|);
    MulLe(v, p, v);
    MulLe(v, p, p);
    SquareArithmetic(v, Place(e), Val(s), rest, Place(|s|), p);
  }

  lemma SquareArithmetic(v: int, x: int, w: int, rest: int, q: int, p: int)
    requires 0 <= v < p && 0 <= w && rest >= 0 && q == p * p
    requires w + rest * q == v * v
    ensures rest == 0 && w * (x * x) == (v * x) * (v * x)
  {
    MulLe(v, p, v);
    MulLt(v, p, p);
    if rest >= 1 {
      MulLe(1, rest, q);
    }
    assert (v * v) * (x * x) == (v * x) * (v * x);
  }

  lemma SameTops(s: seq<Bigit>, i: nat, t: seq<Bigit>, j: nat)
    requires i < |s| && j < |t| && s[i] == t[j] && s[i + 1..] == t[j + 1..]
    ensures s[i..] == t[j..]
  {
    assert s[i..] == [s[i]] + s[i + 1..];
    assert t[j..] == [t[j]] + t[j + 1..];
  }

  /** More positions, or with as many of them the first difference, or at last the number of bigits decide. */
  lemma DecidedByPositions(s: seq<Bigit>, e: nat, t: seq<Bigit>, f: nat)
    requires Comparable(s, e, t, f) && e + |s| != f + |t|
    ensures Verdict(s, e, t, f) == if e + |s| > f + |t| then 1 else -1
  {
    PositionsDecide(s, e, t, f);
  }

  lemma DecidedByBigit(s: seq<Bigit>, e: nat, i: nat, t: seq<Bigit>, f: nat, j: nat)
    requires i < |s| && j < |t| && e + i == f + j && s[i + 1..] == t[j + 1..] && s[i] != t[j]
    ensures Verdict(s, e, t, f) == if s[i] > t[j] then 1 else -1
  {
    if s[i] > t[j] {
      FirstDifference(s, e, i, t, f, j);
    } else {
      FirstDifference(t, f, j, s, e, i);
    }
  }

  lemma DecidedByLength(s: seq<Bigit>, e: nat, t: seq<Bigit>, f: nat)
    requires e + |s| == f + |t|
    requires if |s| >= |t| then s[|s| - |t|..] == t else t[|t| - |s|..] == s
    ensures Verdict(s, e, t, f) == Sign(|s| - |t|)
  {
    if |s| >= |t| {
      ExtraLowBigits(s, e, t, f);
      if |s| == |t| { assert s[..0] == []; }
    } else {
      ExtraLowBigits(t, f, s, e);
    }
  }

  /** Position-by-position comparison from the top. */
  method Compare(lhs: Bigint, rhs: Bigint) returns (r: int)
    requires lhs.Normal() && rhs.Normal()
    ensures r == if ZeroAbove(lhs.bigits, lhs.exp, rhs.bigits, rhs.exp) then 1
                 else if ZeroAbove(rhs.bigits, rhs.exp, lhs.bigits, lhs.exp) then -1
                 else Verdict(lhs.bigits, lhs.exp, rhs.bigits, rhs.exp)
  {
    var numLhs, numRhs := lhs.NumBigits(), rhs.NumBigits();
    if numLhs != numRhs {
      if Comparable(lhs.bigits, lhs.exp, rhs.bigits, rhs.exp) {
        DecidedByPositions(lhs.bigits, lhs.exp, rhs.bigits, rhs.exp);
      }
      return if numLhs > numRhs then 1 else -1;
    }
    var i, j;
    r, i, j := CompareTops(lhs, rhs);
    if r != 0 {
      DecidedByBigit(lhs.bigits, lhs.exp, i, rhs.bigits, rhs.exp, j);
      return;
    }
    DecidedByLength(lhs.bigits, lhs.exp, rhs.bigits, rhs.exp);
    if i != j {
      return if i > j then 1 else -1;
    }
    return 0;
  }

  /** The loop of `Compare`, from the common top position down to the first difference; 0 if there is none. */
  method CompareTops(lhs: Bigint, rhs: Bigint) returns (r: int, i: int, j: int)
    requires lhs.NumBigits() == rhs.NumBigits()
    ensures -1 <= i < |lhs.bigits| && -1 <= j < |rhs.bigits| && i - j == |lhs.bigits| - |rhs.bigits|
    ensures lhs.bigits[i + 1..] == rhs.bigits[j + 1..]
    ensures r == 0 ==> i == -1 || j == -1
    ensures r != 0 ==> i >= 0 && j >= 0 && lhs.bigits[i] != rhs.bigits[j]
                       && r == if lhs.bigits[i] > rhs.bigits[j] then 1 else -1
  {
    i, j := |lhs.bigits| - 1, |rhs.bigits| - 1;
    var end := if i - j < 0 then 0 else i - j;
    while i >= end
      invariant end - 1 <= i < |lhs.bigits| && -1 <= j < |rhs.bigits|
      invariant i - j == |lhs.bigits| - |rhs.bigits|
      invariant lhs.bigits[i + 1..] == rhs.bigits[j + 1..]
    {
      var x, y := lhs.bigits[i], rhs.bigits[j];
      if x != y {
        return if x > y then 1 else -1, i, j;
      }
      SameTops(lhs.bigits, i, rhs.bigits, j);
      i, j := i - 1, j - 1;
    }
    return 0, i, j;
  }

  /** The digit of a number at an absolute position; zero outside it. */
  function GetBigit(n: Bigint, i: int): (d: Bigit)
    reads n
  {
    if n.exp <= i < n.NumBigits() then n.bigits[i - n.exp] else 0
  }

  /** A zero written above all positions of the other two numbers. */
  predicate HighZero(lhs1: Bigint, lhs2: Bigint, rhs: Bigint)
    reads lhs1, lhs2, rhs
  {
    rhs.bigits == [0] && rhs.exp > Max(lhs1.NumBigits(), lhs2.NumBigits())
  }

  /** On the left, zeros alone reach above all positions of the right number. */
  predicate HighZerosLeft(lhs1: Bigint, lhs2: Bigint, rhs: Bigint)
    reads lhs1, lhs2, rhs
  {
    && Max(lhs1.NumBigits(), lhs2.NumBigits()) > rhs.NumBigits()
    && (lhs1.NumBigits() > rhs.NumBigits() ==> lhs1.bigits == [0])
    && (lhs2.NumBigits() > rhs.NumBigits() ==> lhs2.bigits == [0])
  }

  /** Compares a sum with a third number, from the top, keeping only the running difference. */
  method AddCompare(lhs1: Bigint, lhs2: Bigint, rhs: Bigint) returns (r: int)
    requires lhs1.Normal() && lhs2.Normal() && rhs.Normal()
    ensures r == if HighZero(lhs1, lhs2, rhs) then -1
                 else if HighZerosLeft(lhs1, lhs2, rhs) then 1
                 else Sign(lhs1.Value() + lhs2.Value() - rhs.Value())
  {
    var maxLhs := Max(lhs1.NumBigits(), lhs2.NumBigits());
    var numRhs := rhs.NumBigits();
    if maxLhs + 1 < numRhs {
      if rhs.bigits != [0] {
        SumTooShort(lhs1.bigits, lhs1.exp, lhs2.bigits, lhs2.exp, rhs.bigits, rhs.exp);
      }
      return -1;
    }
    if maxLhs > numRhs {
      if lhs1.NumBigits() > numRhs && lhs1.bigits != [0] {
        MorePositions(lhs1.bigits, lhs1.exp, rhs.bigits, rhs.exp);
      } else if lhs2.NumBigits() > numRhs && lhs2.bigits != [0] {
        MorePositions(lhs2.bigits, lhs2.exp, rhs.bigits, rhs.exp);
      }
      return 1;
    }
    var minExp := Min(Min(lhs1.exp, lhs2.exp), rhs.exp);
    r := CompareAligned(lhs1, lhs2, rhs, minExp);
  }

  /** The comparison once no number reaches above `rhs`. */
  method CompareAligned(lhs1: Bigint, lhs2: Bigint, rhs: Bigint, minExp: nat) returns (r: int)
    requires minExp <= Min(Min(lhs1.exp, lhs2.exp), rhs.exp)
    requires Max(lhs1.NumBigits(), lhs2.NumBigits()) <= rhs.NumBigits()
    ensures r == Sign(lhs1.Value() + lhs2.Value() - rhs.Value())
  {
    var n := rhs.NumBigits();
    ghost var a := Aligned(lhs1.bigits, lhs1.exp, minExp, n);
    ghost var b := Aligned(lhs2.bigits, lhs2.exp, minExp, n);
    ghost var c := Aligned(rhs.bigits, rhs.exp, minExp, n);
    AlignedValue(lhs1.bigits, lhs1.exp, minExp, n);
    AlignedValue(lhs2.bigits, lhs2.exp, minExp, n);
    AlignedValue(rhs.bigits, rhs.exp, minExp, n);
    NothingBelow(a, b, c, minExp);
    r := CompareDownTo(lhs1, lhs2, rhs, minExp, a, b, c);
  }

  /** The loop of `AddCompare` over positions from the top of `rhs` down to `minExp`. */
  method CompareDownTo(lhs1: Bigint, lhs2: Bigint, rhs: Bigint, minExp: nat,
                       ghost a: seq<Bigit>, ghost b: seq<Bigit>, ghost c: seq<Bigit>)
    returns (r: int)
    requires |a| == |b| == |c| == rhs.NumBigits() - minExp
    requires forall k :: 0 <= k < |a| ==> a[k] == GetBigit(lhs1, k + minExp)
    requires forall k :: 0 <= k < |b| ==> b[k] == GetBigit(lhs2, k + minExp)
    requires forall k :: 0 <= k < |c| ==> c[k] == GetBigit(rhs, k + minExp)
    ensures r == -Sign(Excess(a, b, c, 0))
  {
    var borrow := 0;
    ghost var k := |c|;
    assert a[k..] == b[k..] == c[k..] == [];
    var i := rhs.NumBigits() - 1;
    while i >= minExp
      invariant minExp - 1 <= i < rhs.NumBigits() && k == i + 1 - minExp
      invariant borrow == BASE * Excess(a, b, c, k)
      invariant 0 <= borrow <= BASE
    {
      k := k - 1;
      ExcessStep(a, b, c, k);
      var sum := GetBigit(lhs1, i) + GetBigit(lhs2, i);
      var rhsBigit := GetBigit(rhs, i);
      TopsDecide(a, b, c, k);
      if sum > rhsBigit + borrow {
        return 1;
      }
      borrow := rhsBigit + borrow - sum;
      if borrow > 1 {
        return -1;
      }
      borrow := BASE * borrow;
      i := i - 1;
    }
    return if borrow != 0 then -1 else 0;
  }

  /** How much the part of `c` from position `k` up exceeds those of `a` and `b`. */
  ghost function Excess(a: seq<Bigit>, b: seq<Bigit>, c: seq<Bigit>, k: nat): int
    requires k <= |a| == |b| == |c|
  {
    Val(c[k..]) - Val(a[k..]) - Val(b[k..])
  }

  lemma ExcessStep(a: seq<Bigit>, b: seq<Bigit>, c: seq<Bigit>, k: nat)
    requires k < |a| == |b| == |c|
    ensures Excess(a, b, c, k) == BASE * Excess(a, b, c, k + 1) + c[k] - a[k] - b[k]
  {
    ValCons(a, k);
    ValCons(b, k);
    ValCons(c, k);
  }

  /** The tops settle the comparison when they differ by less than 0 or more than 1. */
  lemma TopsDecide(a: seq<Bigit>, b: seq<Bigit>, c: seq<Bigit>, k: nat)
    requires k <= |a| == |b| == |c|
    ensures Excess(a, b, c, k) < 0 ==> Excess(a, b, c, 0) < 0
    ensures Excess(a, b, c, k) > 1 ==> Excess(a, b, c, 0) > 0
  {
    assert a[0..] == a && b[0..] == b && c[0..] == c;
    ValSplit(a, k);
    ValSplit(b, k);
    ValSplit(c, k);
    SignFromTops(Val(a[..k]), Val(a[k..]), Val(b[..k]), Val(b[k..]), Val(c[..k]), Val(c[k..]), Place(k));
  }

  lemma SignFromTops(a0: int, a1: int, b0: int, b1: int, c0: int, c1: int, q: int)
    requires 0 <= a0 < q && 0 <= b0 < q && 0 <= c0 < q
    ensures c1 - a1 - b1 < 0 ==> (a0 + a1 * q) + (b0 + b1 * q) - (c0 + c1 * q) > 0
    ensures c1 - a1 - b1 > 1 ==> (a0 + a1 * q) + (b0 + b1 * q) - (c0 + c1 * q) < 0
  {
    var x := a1 + b1 - c1;
    assert a1 * q + b1 * q - c1 * q == x * q;
    if x >= 1 { MulLe(1, x, q); }
    if x <= -2 { MulLe(x, -2, q); }
  }

  lemma FactorSum(a: int, b: int, c: int, p: int)
    requires p > 0
    ensures Sign(a * p + b * p - c * p) == Sign(a + b - c)
  {
    ScaledSign(a + b - c, p);
    assert (a + b - c) * p == a * p + b * p - c * p;
  }

  lemma NothingBelow(a: seq<Bigit>, b: seq<Bigit>, c: seq<Bigit>, m: nat)
    requires |a| == |b| == |c|
    ensures Sign(ValAt(a, m) + ValAt(b, m) - ValAt(c, m)) == -Sign(Excess(a, b, c, 0))
  {
    assert a[0..] == a && b[0..] == b && c[0..] == c;
    ValAtIs(a, m);
    ValAtIs(b, m);
    ValAtIs(c, m);
    FactorSum(Val(a), Val(b), Val(c), Place(m));
  }

  lemma ScaledSign(x: int, p: int)
    requires p > 0
    ensures Sign(x * p) == Sign(x)
  {
    CancelLt(x, 0, p);
    CancelLt(0, x, p);
  }

  /** A sum cannot carry past the position above its longer operand. */
  lemma SumTooShort(s: seq<Bigit>, e: nat, t: seq<Bigit>, f: nat, u: seq<Bigit>, g: nat)
    requires |u| > 0 && u[|u| - 1] != 0
    requires Max(e + |s|, f + |t|) + 1 < g + |u|
    ensures ValAt(s, e) + ValAt(t, f) < ValAt(u, g)
  {
    var m := Max(e + |s|, f + |t|);
    BelowPlace(s, e, m);
    BelowPlace(t, f, m);
    ValAtTop(u, g);
    PlaceNext(m);
    PowMonotonic(BASE, m + 1, g + |u| - 1);
    TwoBelow(ValAt(s, e), ValAt(t, f), Place(m), Place(g + |u| - 1));
  }

  lemma TwoBelow(a: int, b: int, p: int, q: int)
    requires a < p && b < p && 0 < p && BASE * p <= q
    ensures a + b < q
  {
  }

  lemma BelowPlace(s: seq<Bigit>, e: nat, m: nat)
    requires e + |s| <= m
    ensures ValAt(s, e) < Place(m)
  {
    ValAtBound(s, e);
    PowMonotonic(BASE, e + |s|, m);
  }

  lemma PositionsDecide(s: seq<Bigit>, e: nat, t: seq<Bigit>, f: nat)
    requires Comparable(s, e, t, f)
    ensures e + |s| > f + |t| ==> ValAt(s, e) > ValAt(t, f)
    ensures e + |s| < f + |t| ==> ValAt(s, e) < ValAt(t, f)
  {
    if e + |s| > f + |t| { MorePositions(s, e, t, f); }
    if e + |s| < f + |t| { MorePositions(t, f, s, e); }
  }

  /**
   * The borrow of `s - t`, if there is one, finds a non-zero bigit just above `t`
   * (`subtract_aligned` never looks further).
   */
  predicate Repayable(s: seq<Bigit>, e: nat, t: seq<Bigit>, f: nat)
    requires e <= f
  {
    var i := f - e + |t|;
    i <= |s| ==> Val(s[..i]) >= Val(t) * Place(f - e) || (i < |s| && s[i] != 0)
  }

  /** With at most one bigit above `t` the borrow can always be repaid. */
  lemma FewPositionsRepayable(s: seq<Bigit>, e: nat, t: seq<Bigit>, f: nat)
    requires Canonical(s) && |t| > 0 && t[|t| - 1] != 0
    requires e <= f && ValAt(s, e) >= ValAt(t, f) && e + |s| <= f + |t| + 1
    ensures Repayable(s, e, t, f)
  {
    EnoughPositions(s, e, t, f);
    AlignedDifference(s, e, t, f);
    assert s[..|s|] == s;
  }

  /** Two bigits above `t`, the lower one zero: `subtract_aligned` subtracts wrongly. */
  lemma NotAlwaysRepayable()
    ensures Canonical([0, 0, 1]) && !Repayable([0, 0, 1], 0, [1], 0)
    ensures ValAt([0, 0, 1], 0) >= ValAt([1], 0)
  {
    ValAtOne(1, 0);
    ValZeros([0, 0, 1][..1]);
    ValAtTop([0, 0, 1], 0);
    PowMonotonic(BASE, 0, 2);
  }

  /** A borrow is left over exactly when the covered low part is too small. */
  lemma BorrowMeans(before: seq<Bigit>, now: seq<Bigit>, i: nat, whole: int, borrow: int)
    requires i <= |now| == |before| && 0 <= borrow <= 1
    requires forall k :: i <= k < |now| ==> now[k] == before[k]
    requires Val(now) + whole - borrow * Place(i) == Val(before) && whole <= Val(before)
    ensures borrow == 1 <==> Val(before[..i]) < whole
    ensures borrow == 1 ==> i < |now|
  {
    ValSplit(now, i);
    ValSplit(before, i);
    assert now[i..] == before[i..];
    LowParts(Val(now[..i]), Val(before[..i]), Val(now[i..]) * Place(i), Place(i), whole, borrow);
    if i == |now| {
      assert before[..i] == before;
    }
  }

  lemma LowParts(lowNow: int, lowBefore: int, upper: int, p: int, whole: int, b: int)
    requires 0 <= lowNow < p && 0 <= b <= 1
    requires (lowNow + upper) + whole - b * p == lowBefore + upper
    ensures b == 1 <==> lowBefore < whole
  {
    if b == 1 {
      assert b * p == p;
    } else {
      assert b * p == 0;
    }
  }

  lemma RepaidValue(s: seq<Bigit>, i: nat, e: nat)
    requires i < |s|
    ensures s[i] != 0 ==> ValAt(s[i := s[i] - 1], e) == (Val(s) - Place(i)) * Place(e)
    ensures s[i] == 0 ==> ValAt(s[i := BASE - 2], e) == (Val(s) - Place(i)) * Place(e) + (BASE - 1) * Place(e + i)
  {
    if s[i] != 0 {
      ChangedDigit(s, i, s[i] - 1, e, -1);
    } else {
      ChangedDigit(s, i, BASE - 2, e, BASE - 2);
    }
  }

  /** Repaying the borrow gives the difference, one place too high where it had to go back to the same bigit. */
  lemma RepaidDifference(s: seq<Bigit>, i: nat, e: nat, difference: int)
    requires i < |s| && Val(s) - Place(i) == difference
    ensures ValAt(s[i := if s[i] != 0 then s[i] - 1 else BASE - 2], e)
            == difference * Place(e) + if s[i] != 0 then 0 else (BASE - 1) * Place(e + i)
  {
    RepaidValue(s, i, e);
  }

  lemma NoBorrow(s: seq<Bigit>, e: nat, difference: int)
    requires Val(s) == difference
    ensures ValAt(s, e) == difference * Place(e)
  {
    ValAtIs(s, e);
  }

  lemma ChangedDigit(s: seq<Bigit>, i: nat, d: Bigit, e: nat, change: int)
    requires i < |s| && change == d - s[i]
    ensures ValAt(s[i := d], e) == (Val(s) - Place(i)) * Place(e) + (change + 1) * Place(e + i)
  {
    ValUpdate(s, i, d);
    ValAtIs(s[i := d], e);
    PowAdd(BASE, e, i);
    ChangeArithmetic(Val(s), Place(i), Place(e), change);
  }

  lemma ChangeArithmetic(v: int, p: int, q: int, change: int)
    ensures (v + change * p) * q == (v - p) * q + (change + 1) * (q * p)
  {
    assert v + change * p == (v - p) + (change + 1) * p;
    assert ((change + 1) * p) * q == (change + 1) * (q * p);
  }

  lemma EnoughPositions(s: seq<Bigit>, e: nat, t: seq<Bigit>, f: nat)
    requires |s| > 0 && |t| > 0 && t[|t| - 1] != 0
    requires ValAt(s, e) >= ValAt(t, f)
    ensures f + |t| <= e + |s|
  {
    if e + |s| < f + |t| {
      MorePositions(t, f, s, e);
    }
  }

  lemma AlignedDifference(s: seq<Bigit>, e: nat, t: seq<Bigit>, f: nat)
    requires e <= f && ValAt(s, e) >= ValAt(t, f)
    ensures Val(s) >= Val(t) * Place(f - e)
    ensures (Val(s) - Val(t) * Place(f - e)) * Place(e) == ValAt(s, e) - ValAt(t, f)
  {
    ValAtIs(s, e);
    ValAtIs(t, f);
    PowAdd(BASE, e, f - e);
    FactorDifference(Val(s), Val(t), Place(e), Place(f - e));
  }

  lemma FactorDifference(v: int, w: int, p: int, q: int)
    requires p > 0
    ensures (v - w * q) * p == v * p - w * (p * q)
    ensures v * p >= w * (p * q) ==> v >= w * q
  {
    assert w * (p * q) == (w * q) * p;
    CancelLt(v, w * q, p);
  }

  lemma BorrowStep(was: seq<Bigit>, now: seq<Bigit>, i: nat, other: seq<Bigit>, j: nat, off: nat, b: int, b': int)
    requires i == off + j && i < |was| && j < |other| && |now| == |was|
    requires now == was[i := now[i]]
    requires now[i] - BASE * b' == was[i] - other[j] - b
    ensures Val(now) + Val(other[..j + 1]) * Place(off) - b' * Place(i + 1)
         == Val(was) + Val(other[..j]) * Place(off) - b * Place(i)
  {
    ChangedValue(was, now, i);
    OneMoreBigit(other, j, off, i);
    PlaceNext(i);
    BorrowTotal(Val(now), Val(was), Val(other[..j]) * Place(off), Val(other[..j + 1]) * Place(off),
                now[i], was[i], other[j], b, b', Place(i), Place(i + 1));
  }

  lemma OneMoreBigit(other: seq<Bigit>, j: nat, off: nat, i: nat)
    requires j < |other| && i == off + j
    ensures Val(other[..j + 1]) * Place(off) == Val(other[..j]) * Place(off) + other[j] * Place(i)
  {
    ValPrefix(other, j);
    PowAdd(BASE, off, j);
    Distribute(Val(other[..j]), other[j], Place(j), Place(off));
  }

  lemma ChangedValue(was: seq<Bigit>, now: seq<Bigit>, i: nat)
    requires i < |was| == |now| && now == was[i := now[i]]
    ensures Val(now) == Val(was) + (now[i] as int - was[i] as int) * Place(i)
  {
    ValUpdate(was, i, now[i]);
  }

  lemma BorrowTotal(vn: int, vw: int, vo: int, vo1: int, now: int, was: int, d: int, b: int, b': int, p: int, q: int)
    requires vn == vw + (now - was) * p && now - BASE * b' == was - d - b
    requires vo1 == vo + d * p && q == BASE * p
    ensures vn + vo1 - b' * q == vw + vo - b * p
  {
    BorrowArithmetic(now, was, d, b, b', p);
  }

  lemma BorrowArithmetic(now: int, was: int, d: int, b: int, b': int, p: int)
    requires now - BASE * b' == was - d - b
    ensures (now - was) * p + d * p - b' * (BASE * p) == -(b * p)
  {
    assert now - was == BASE * b' - d - b;
  }

  /** One bigit shifted left by less than 32 bits: what leaves at the top and what stays. */
  lemma ShiftedBigit(x: Bigit, shift: nat, carry: int)
    requires 0 < shift < 32 && 0 <= carry < Pow(2, shift)
    ensures 0 <= x / Pow(2, 32 - shift) < Pow(2, shift)
    ensures 0 <= (x * Pow(2, shift)) % BASE + carry < BASE
    ensures x * Pow(2, shift) + carry == (x * Pow(2, shift)) % BASE + carry + BASE * (x / Pow(2, 32 - shift))
  {
    PowAdd(2, shift, 32 - shift);
    PowerOfTwo32();
    SplitProduct(x, Pow(2, shift), Pow(2, 32 - shift));
  }

  lemma ShiftAmountFits(shift: nat)
    requires shift < 32
    ensures Pow(2, shift) < BASE
  {
    PowStrict(2, shift, 32);
    PowerOfTwo32();
  }

  lemma SplitProduct(x: int, m: int, q: int)
    requires 0 <= x < BASE && 0 < m && 0 < q && m * q == BASE
    ensures 0 <= x / q < m
    ensures 0 <= (x * m) % BASE <= BASE - m
    ensures x * m == (x * m) % BASE + BASE * (x / q)
  {
    var c, r := x / q, x % q;
    assert x * m == c * (m * q) + r * m;
    MulLe(0, r, m);
    MulLe(r + 1, q, m);
    assert (r + 1) * m == r * m + m;
    DivModUnique(x * m, BASE, c, r * m);
    if c >= m {
      MulLe(m, c, q);
    }
  }

  lemma ShiftIsPowerOfTwo(s: seq<Bigit>, e: nat, amount: nat)
    ensures ValAt(s, e + amount / 32) * Pow(2, amount % 32) == ValAt(s, e) * Pow(2, amount)
  {
    var h, l := amount / 32, amount % 32;
    PowAdd(2, 32 * h, l);
    PowPow(2, 32, h);
    PowerOfTwo32();
    PowAdd(BASE, e, h);
    ValAtIs(s, e);
    ValAtIs(s, e + h);
    Regroup(Val(s), Place(e), Place(h), Pow(2, l));
  }

  lemma Regroup(v: int, a: int, b: int, c: int)
    ensures (v * (a * b)) * c == (v * a) * (b * c)
  {
  }

  /** One step of a multiply-with-carry loop, on the bigits being overwritten. */
  lemma CarryAdvance(now: seq<Bigit>, before: seq<Bigit>, i: nat, carry: int, k: int, d: Bigit, c: int)
    requires i < |now| == |before|
    requires Val(now[..i]) + carry * Place(i) == Val(before[..i]) * k
    requires before[i] * k + carry == d + BASE * c
    ensures Val(now[i := d][..i + 1]) + c * Place(i + 1) == Val(before[..i + 1]) * k
  {
    var now' := now[i := d];
    assert now'[..i] == now[..i];
    ValPrefix(now', i);
    ValPrefix(before, i);
    CarryStep(Val(now[..i]), carry, Val(before[..i]), k, Place(i), before[i], d, c);
  }

  lemma ProductFits(x: Bigit, y: Bigit, c: int)
    requires 0 <= c < BASE
    ensures 0 <= x * y + c < WORD64 && (x * y + c) / BASE < BASE
  {
    MulLe(x, BASE - 1, y);
    MulLe(0, x, y);
  }

  /** The bounds that keep every word of the 64-bit multiplication in range. */
  lemma WideProductFits(x: Bigit, lower: Bigit, upper: Bigit, carry: int)
    requires 0 <= carry < WORD64
    ensures 0 <= x * lower + carry % BASE < WORD64
    ensures 0 <= x * upper + (x * lower + carry % BASE) / BASE + carry / BASE < WORD64
    ensures x * (upper * BASE + lower) + carry
         == (x * lower + carry % BASE) % BASE
            + BASE * (x * upper + (x * lower + carry % BASE) / BASE + carry / BASE)
  {
    ProductFits(x, lower, carry % BASE);
    MulLe(x, BASE - 1, upper);
    MulLe(0, x, upper);
    assert x * (upper * BASE + lower) == (x * upper) * BASE + x * lower;
  }

  lemma AppendCarry(s: seq<Bigit>, d: Bigit, c: int)
    ensures Val(s + [d]) + c * Place(|s + [d]|) == Val(s) + (d + BASE * c) * Place(|s|)
  {
    var p := Place(|s|);
    ValSnoc(s, d);
    PlaceNext(|s|);
    assert d * p + c * (BASE * p) == (d + BASE * c) * p;
  }

  lemma FinishCarry(before: seq<Bigit>, after: seq<Bigit>, carry: Bigit, value: int, e: nat)
    requires Canonical(before) && |after| == |before| && value > 0
    requires Val(after[..|after|]) + carry * Place(|after|) == Val(before[..|before|]) * value
    ensures carry != 0 ==> ValAt(after + [carry], e) == ValAt(before, e) * value
    ensures carry == 0 ==> ValAt(after, e) == ValAt(before, e) * value && Canonical(after)
    ensures carry == 0 && before[|before| - 1] != 0 ==> after[|after| - 1] != 0
  {
    FinishWideCarry(before, after, carry, value, e);
    if carry == 0 {
      NoCarry(after, e);
    } else {
      ValSnoc(after, carry);
      ValAtIs(after + [carry], e);
    }
  }

  lemma NoCarry(s: seq<Bigit>, e: nat)
    ensures (Val(s) + 0 * Place(|s|)) * Place(e) == ValAt(s, e)
  {
    ValAtIs(s, e);
  }

  lemma SwapFactors(v: int, k: int, p: int)
    ensures (v * k) * p == (v * p) * k
  {
  }

  lemma Scaled(a: int, v: int, k: int, p: int)
    requires a == v * k
    ensures a * p == (v * p) * k
  {
    SwapFactors(v, k, p);
  }

  lemma FinishWideCarry(before: seq<Bigit>, after: seq<Bigit>, carry: int, value: int, e: nat)
    requires Canonical(before) && |after| == |before| && value > 0
    requires Val(after[..|after|]) + carry * Place(|after|) == Val(before[..|before|]) * value
    ensures (Val(after) + carry * Place(|after|)) * Place(e) == ValAt(before, e) * value
    ensures carry == 0 ==> Canonical(after)
    ensures carry == 0 && before[|before| - 1] != 0 ==> after[|after| - 1] != 0
  {
    assert after[..|after|] == after && before[..|before|] == before;
    ValAtIs(before, e);
    Scaled(Val(after) + carry * Place(|after|), Val(before), value, Place(e));
    if carry == 0 {
      WideTop(before, after, value);
    }
  }

  lemma WideTop(before: seq<Bigit>, after: seq<Bigit>, value: int)
    requires Canonical(before) && |after| == |before| && value > 0 && Val(after) == Val(before) * value
    ensures Canonical(after)
    ensures before[|before| - 1] != 0 ==> after[|after| - 1] != 0
  {
    if before[|before| - 1] != 0 {
      NotSmaller(Val(before), value);
      TopStaysNonZero(before, after);
    }
  }

  lemma NotSmaller(v: nat, k: int)
    requires k > 0
    ensures v <= v * k
  {
    MulLe(1, k, v);
  }

  /** A number at least as large, of the same length, keeps a non-zero top bigit. */
  lemma TopStaysNonZero(before: seq<Bigit>, after: seq<Bigit>)
    requires |after| == |before| > 0 && before[|before| - 1] != 0
    requires Val(before) <= Val(after)
    ensures after[|after| - 1] != 0
  {
    ValTop(before);
    NonZeroTop(after);
  }
}
