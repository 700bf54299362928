/** Removing trailing decimal zeros with wrapping multiplications by inverses of powers of five. */
module TrailingZeros {
  import opened Arithmetic

  /** Trailing zero bits of a non-zero number. */
  function Ctz(n: nat): nat
    requires n > 0
  {
    if n % 2 == 1 then 0 else 1 + Ctz(n / 2)
  }

  lemma {:induction false} CtzIs(n: nat) returns (odd: nat)
    requires n > 0
    ensures odd % 2 == 1 && n == odd * Pow(2, Ctz(n))
  {
    if n % 2 == 1 {
      odd := n;
    } else {
      odd := CtzIs(n / 2);
      DoubleLater(odd, Pow(2, Ctz(n / 2)));
    }
  }

  lemma DoubleLater(x: int, p: int)
    ensures 2 * (x * p) == x * (2 * p)
  {
  }

  /**
   * A wrapped product with the inverse of `p` is small exactly for the multiples of `p`,
   * and is then the quotient.
   */
  lemma InverseDivides(n: nat, p: nat, inverse: nat, limit: nat, word: nat)
    requires p > 0 && n < word && (p * inverse) % word == 1 && limit == (word - 1) / p
    ensures (n * inverse) % word <= limit <==> n % p == 0
    ensures n % p == 0 ==> (n * inverse) % word == n / p
  {
    DivParts(p * inverse, word);
    DivParts(n * inverse, word);
    DivParts(word - 1, p);
    DivParts(n, p);
    var k, a, m := p * inverse / word, n * inverse / word, (n * inverse) % word;
    if m <= limit {
      SmallProduct(n, p, inverse, limit, word, k, a, m);
    }
    if n % p == 0 {
      MultipleProduct(n, p, inverse, limit, word, k, n / p);
    }
  }

  lemma SmallProduct(n: nat, p: nat, inverse: nat, limit: nat, word: nat, k: int, a: int, m: nat)
    requires p > 0 && n < word && limit * p < word
    requires p * inverse == k * word + 1 && n * inverse == a * word + m && m <= limit
    ensures n == m * p && n % p == 0 && n / p == m
  {
    WrapsBack(n, p, inverse, word, k, a, m);
    MulLe(m, limit, p);
    MulLe(0, m, p);
    SameResidue(m * p, n, word, n * k - p * a);
    DivModUnique(n, p, m, 0);
  }

  lemma MultipleProduct(n: nat, p: nat, inverse: nat, limit: nat, word: nat, k: int, q: nat)
    requires p > 0 && n < word && limit == (word - 1) / p
    requires p * inverse == k * word + 1 && n == q * p
    ensures (n * inverse) % word == q <= limit
  {
    QuotientWraps(n, p, q, inverse, word, k);
    MulLe(1, p, q);
    DivModUnique(n * inverse, word, q * k, q);
    DivParts(word - 1, p);
    AtMostLimit(q, limit, p, word);
  }

  lemma AtMostLimit(q: int, limit: int, p: int, word: int)
    requires p > 0 && q * p < word && word - 1 < limit * p + p
    ensures q <= limit
  {
    assert (limit + 1) * p == limit * p + p;
    if q > limit {
      MulLe(limit + 1, q, p);
    }
  }

  lemma WrapsBack(n: int, p: int, inverse: int, word: int, k: int, a: int, m: int)
    requires p * inverse == k * word + 1 && n * inverse == a * word + m
    ensures m * p == n + (n * k - p * a) * word
  {
    assert n * (p * inverse) == p * (n * inverse);
    assert n * (k * word + 1) == (n * k) * word + n;
    assert p * (a * word + m) == (p * a) * word + m * p;
  }

  lemma SameResidue(x: int, y: int, word: int, k: int)
    requires x == y + k * word && 0 <= x < word && 0 <= y < word
    ensures x == y
  {
    if k >= 1 { MulLe(1, k, word); }
    if k <= -1 { MulLe(k, -1, word); }
  }

  lemma QuotientWraps(n: int, p: int, q: int, inverse: int, word: int, k: int)
    requires n == q * p && p * inverse == k * word + 1
    ensures n * inverse == (q * k) * word + q
  {
    assert (q * p) * inverse == q * (p * inverse);
    assert q * (k * word + 1) == (q * k) * word + q;
  }

  /** At least `k` trailing zero bits. */
  predicate HasTwos(n: nat, k: nat)
  {
    k == 0 || (n % 2 == 0 && HasTwos(n / 2, k - 1))
  }

  /** A right shift by `s`. */
  function Shifted(n: nat, s: nat): nat
  {
    DivParts(n, Pow(2, s));
    n / Pow(2, s)
  }

  /** The shifted low digits with the quotient put back above them. */
  function Joined(low: nat, quotient: nat, s: nat): nat
    requires s <= 7
  {
    low + quotient * Pow(10, 8 - s)
  }

  lemma {:induction false} HasTwosDivides(n: nat, k: nat)
    requires HasTwos(n, k)
    ensures n == Shifted(n, k) * Pow(2, k)
  {
    if k == 0 {
      DivModUnique(n, 1, n, 0);
    } else {
      HasTwosDivides(n / 2, k - 1);
      var h := Pow(2, k - 1);
      var q := n / 2 / h;
      assert n == q * (2 * h);
      DivModUnique(n, 2 * h, q, 0);
    }
  }

  lemma {:induction false} CtzHasTwos(n: nat, k: nat)
    requires n > 0 && k <= Ctz(n)
    ensures HasTwos(n, k)
  {
    if k > 0 {
      CtzHasTwos(n / 2, k - 1);
    }
  }

  lemma {:induction false} FewerTwos(n: nat, s: nat, t: nat)
    requires s <= t && HasTwos(n, t)
    ensures HasTwos(n, s)
  {
    if s > 0 {
      FewerTwos(n / 2, s - 1, t - 1);
    }
  }

  /** A quotient by five keeps its factors of two. */
  lemma {:induction false} FifthKeepsTwos(n: nat, k: nat)
    requires n % 5 == 0 && HasTwos(n, k)
    ensures HasTwos(n / 5, k)
  {
    if k > 0 {
      FifthKeepsTwos(n / 2, k - 1);
      assert n / 5 / 2 == n / 2 / 5;
    }
  }

  /** What the functions promise: `zeros` zeros removed, and no more to remove unless `cap` was reached. */
  predicate Stripped(n: nat, rest: nat, zeros: nat, cap: nat)
  {
    n == rest * Pow(10, zeros) && zeros <= cap && (zeros < cap ==> rest % 10 != 0)
  }

  /** After dividing by 5^s, shifting by s completes the division by 10^s. */
  lemma FinishShift(n: nat, m: nat, s: nat, t: nat)
    requires n == m * Pow(5, s) && s <= t && HasTwos(m, t)
    ensures n == Shifted(m, s) * Pow(10, s)
    ensures m == Shifted(m, s) * Pow(2, s)
  {
    FewerTwos(m, s, t);
    HasTwosDivides(m, s);
    PowMulBase(2, 5, s);
    MulAssociative(Shifted(m, s), Pow(2, s), Pow(5, s));
  }

  /** Not divisible by ten: either no factor of five is left or no factor of two is. */
  lemma NoTenLeft(n: nat, rest: nat, s: nat)
    requires n > 0 && n == rest * Pow(10, s)
    requires (rest * Pow(2, s)) % 5 != 0 || s == Ctz(n)
    ensures rest % 10 != 0
  {
    if rest % 10 == 0 {
      var h := rest / 10;
      HasFive(rest, h, Pow(2, s));
      if s == Ctz(n) {
        var odd := CtzIs(n);
        PowMulBase(2, 5, s);
        OddCofactor(rest, h, Pow(2, s), Pow(5, s), odd);
      }
    }
  }

  lemma HasFive(rest: int, h: int, p: int)
    requires rest == 10 * h
    ensures (rest * p) % 5 == 0
  {
    assert rest * p == 5 * (2 * (h * p));
  }

  lemma OddCofactor(rest: int, h: int, p: int, f: int, odd: int)
    requires p > 0 && rest == 10 * h && rest * (p * f) == odd * p
    ensures odd % 2 == 0
  {
    MulAssociative(rest, f, p);
    assert f * p == p * f;
    CancelLt(odd, rest * f, p);
    MulAssociative(10, h, f);
    TenIsEven(odd, h * f);
  }

  lemma TenIsEven(x: int, z: int)
    requires x == 10 * z
    ensures x % 2 == 0
  {
    DivModUnique(x, 2, 5 * z, 0);
  }

  lemma Finish(n: nat, m: nat, s: nat, t: nat, cap: nat)
    requires n > 0 && n == m * Pow(5, s) && t == Min(Ctz(n), cap) && s <= t && HasTwos(m, t)
    requires s < t ==> m % 5 != 0
    ensures Stripped(n, Shifted(m, s), s, cap)
  {
    FinishShift(n, m, s, t);
    if s < cap {
      NoTenLeft(n, Shifted(m, s), s);
    }
  }

  /** Multiplies by the inverse of five: the product is small exactly for multiples. */
  method TryFive(n: nat) returns (divides: bool, product: nat)
    requires n < WORD32
    ensures divides <==> n % 5 == 0
    ensures divides ==> product == n / 5
  {
    InverseDivides(n, 5, 0xcccccccd, 0x33333333, WORD32);
    product := (n * 0xcccccccd) % WORD32;
    divides := product <= 0x33333333;
  }

  method TryTwentyFive(n: nat) returns (divides: bool, product: nat)
    requires n < WORD32
    ensures divides <==> n % 25 == 0
    ensures divides ==> product == n / 25
  {
    InverseDivides(n, 25, 0xc28f5c29, 0x0a3d70a3, WORD32);
    product := (n * 0xc28f5c29) % WORD32;
    divides := product <= 0x0a3d70a3;
  }

  method TryFiveToTheEighth(n: nat) returns (divides: bool, product: nat)
    requires n < WORD64
    ensures divides <==> n % 390625 == 0
    ensures divides ==> product == n / 390625
  {
    InverseDivides(n, 390625, 0xc767074b22e90e21, 0x2af31dc46118, WORD64);
    product := (n * 0xc767074b22e90e21) % WORD64;
    divides := product <= 0x2af31dc46118;
  }

  /** The 32-bit version: two factors of five at a time, then one. */
  method RemoveTrailingZeros32(given: nat) returns (n: nat, s: nat)
    requires 0 < given < WORD32
    ensures Stripped(given, n, s, 7)
  {
    n := given;
    var t := Min(Ctz(n), 7);
    CtzHasTwos(n, t);
    s := 0;
    assert n * Pow(5, 0) == n;
    var divides, product := true, n;
    while s < t - 1
      invariant s < t - 1 ==> divides
      invariant 0 <= s <= t && 0 < n < WORD32
      invariant given == n * Pow(5, s) && HasTwos(n, t)
    {
      divides, product := TryTwentyFive(n);
      if !divides {
        OneFive(n);
        break;
      }
      DropFives(given, n, s, t);
      n := product;
      s := s + 2;
    }
    if s < t {
      divides, product := TryFive(n);
      if divides {
        DropFive(given, n, s, t);
        n := product;
        s := s + 1;
      }
    }
    Finish(given, n, s, t, 7);
    n := Shifted(n, s);
  }

  lemma OneFive(n: nat)
    requires n % 25 != 0
    ensures n % 5 == 0 ==> (n / 5) % 5 != 0
  {
  }

  lemma DropFive(given: nat, n: nat, s: nat, t: nat)
    requires given == n * Pow(5, s) && HasTwos(n, t) && n % 5 == 0 && n > 0
    ensures given == (n / 5) * Pow(5, s + 1) && HasTwos(n / 5, t) && 0 < n / 5 <= n
  {
    FifthKeepsTwos(n, t);
    assert n == 5 * (n / 5);
    assert (5 * (n / 5)) * Pow(5, s) == (n / 5) * (5 * Pow(5, s));
  }

  lemma DropFives(given: nat, n: nat, s: nat, t: nat)
    requires given == n * Pow(5, s) && HasTwos(n, t) && n % 25 == 0 && n > 0
    ensures given == (n / 25) * Pow(5, s + 2) && HasTwos(n / 25, t) && 0 < n / 25 <= n
  {
    DropFive(given, n, s, t);
    DropFive(given, n / 5, s + 1, t);
    assert n / 5 / 5 == n / 25;
  }

  lemma {:induction false} CtzOfFive(n: nat)
    requires n > 0
    ensures Ctz(5 * n) == Ctz(n)
  {
    if n % 2 == 0 {
      CtzOfFive(n / 2);
      assert 5 * n / 2 == 5 * (n / 2);
    }
  }

  lemma {:induction false} CtzOfPower(n: nat, k: nat)
    requires n > 0
    ensures n * Pow(5, k) > 0 && Ctz(n * Pow(5, k)) == Ctz(n)
  {
    if k == 0 {
      assert n * Pow(5, 0) == n;
    } else {
      CtzOfPower(n, k - 1);
      CtzOfFive(n * Pow(5, k - 1));
      assert n * (5 * Pow(5, k - 1)) == 5 * (n * Pow(5, k - 1));
    }
  }

  lemma {:induction false} CtzOfShift(n: nat, k: nat)
    requires n > 0 && HasTwos(n, k)
    ensures Shifted(n, k) > 0 && Ctz(n) == k + Ctz(Shifted(n, k))
  {
    if k == 0 {
      DivModUnique(n, 1, n, 0);
    } else {
      CtzOfShift(n / 2, k - 1);
      HasTwosDivides(n / 2, k - 1);
      HalfShifted(n, k);
    }
  }

  lemma HalfShifted(n: nat, k: nat)
    requires k > 0 && n % 2 == 0 && n / 2 == Shifted(n / 2, k - 1) * Pow(2, k - 1)
    ensures Shifted(n, k) == Shifted(n / 2, k - 1)
  {
    HalfQuotient(n, n / 2, Shifted(n / 2, k - 1), Pow(2, k - 1));
  }

  lemma HalfQuotient(n: int, m: int, q: int, h: int)
    requires h > 0 && n == 2 * m && m == q * h
    ensures n / (2 * h) == q
  {
    assert q * (2 * h) == 2 * (q * h);
    DivModUnique(n, 2 * h, q, 0);
  }

  /** The multiples of 10^8: the quotient by 10^8 fits 32 bits and is stripped there. */
  method StripQuotient(given: nat, product: nat) returns (n: nat, s: nat)
    requires 0 < given < 100000000000000000 && Ctz(given) >= 8
    requires given % 390625 == 0 && product == given / 390625
    ensures Stripped(given, n, s, 16)
  {
    var t := Min(Ctz(given), 16);
    ghost var whole := product / 256;
    WholeQuotient(given, product);
    var quotient := product / 256;
    s := 8;
    CtzHasTwos(whole, t - 8);
    assert quotient * Pow(5, 0) == quotient;
    while s < t
      invariant 8 <= s <= t && 0 < quotient < WORD32
      invariant whole == quotient * Pow(5, s - 8) && HasTwos(quotient, t - 8)
    {
      var divides, q := TryFive(quotient);
      if !divides {
        break;
      }
      DropFive(whole, quotient, s - 8, t - 8);
      quotient := q;
      s := s + 1;
    }
    Finish(whole, quotient, s - 8, t - 8, 8);
    n := Shifted(quotient, s - 8);
    EightMore(given, whole, n, s - 8);
  }

  lemma WholeQuotient(given: nat, product: nat)
    requires 0 < given < 100000000000000000 && Ctz(given) >= 8
    requires given % 390625 == 0 && product == given / 390625
    ensures 0 < product / 256 < WORD32 && given == product / 256 * 100000000
    ensures Ctz(given) == 8 + Ctz(product / 256)
  {
    EighthPowers();
    assert given == product * 390625;
    CtzOfPower(product, 8);
    CtzHasTwos(product, 8);
    CtzOfShift(product, 8);
    HasTwosDivides(product, 8);
  }

  lemma EighthPowers()
    ensures Pow(5, 8) == 390625 && Pow(2, 8) == 256
  {
  }

  lemma EightMore(given: nat, whole: nat, n: nat, s: nat)
    requires given == whole * 100000000 && Stripped(whole, n, s, 8)
    ensures Stripped(given, n, s + 8, 16)
  {
    assert Pow(10, 4) == 10000;
    PowAdd(10, 4, 4);
    PowAdd(10, s, 8);
    MulAssociative(n, Pow(10, s), 100000000);
  }

  lemma {:induction false} TwosOfDifference(n: nat, c: nat, q: nat, r: nat, k: nat)
    requires n == c * q + r && HasTwos(n, k) && HasTwos(c, k)
    ensures HasTwos(r, k)
  {
    if k > 0 {
      assert c * q == 2 * (c / 2 * q);
      TwosOfDifference(n / 2, c / 2, q, r / 2, k - 1);
    }
  }

  /** Any number: at most seven zeros are stripped from the last eight digits. */
  method StripRemainder(given: nat) returns (n: nat, s: nat)
    requires 0 < given < 100000000000000000
    requires Ctz(given) >= 8 ==> given % 390625 != 0
    ensures Stripped(given, n, s, 16)
  {
    var t := Min(Ctz(given), 16);
    ghost var k := Min(t, 7);
    var quotient := given / 100000000;
    var remainder := given - 100000000 * quotient;
    ghost var r := remainder;
    RemainderTwos(given, quotient, r, k);
    remainder, s := DropUpToSevenFives(remainder, t);
    FinishShift(r, remainder, s, k);
    var low := Shifted(remainder, s);
    RemainderResult(given, quotient, r, remainder, s, low);
    n := Joined(low, quotient, s);
  }

  /** The chain of divisions by five, stopping at the first that fails or at the last factor of two. */
  method DropUpToSevenFives(r: nat, t: nat) returns (remainder: nat, s: nat)
    requires r < 100000000 && HasTwos(r, Min(t, 7))
    ensures s <= Min(t, 7) && FifthsOf(r, remainder, s) && HasTwos(remainder, Min(t, 7))
    ensures s == t || s == 7 || remainder % 5 != 0
  {
    ghost var k := Min(t, 7);
    remainder, s := r, 0;
    var divides, product := true, r;
    while s < 7
      invariant 0 <= s <= k && 0 <= remainder < 100000000
      invariant FifthsOf(r, remainder, s) && HasTwos(remainder, k)
      invariant s < 7 ==> divides
    {
      divides, product := TryFive(remainder);
      if t == s || !divides {
        break;
      }
      NextFifth(r, remainder, s, k);
      remainder := product;
      s := s + 1;
    }
  }

  predicate FifthsOf(r: nat, remainder: nat, s: nat) { r == remainder * Pow(5, s) }

  lemma RemainderTwos(given: nat, quotient: nat, r: nat, k: nat)
    requires given > 0 && k <= Ctz(given) && k <= 7
    requires given == 100000000 * quotient + r
    ensures HasTwos(r, k) && FifthsOf(r, r, 0)
  {
    CtzHasTwos(given, k);
    assert HasTwos(100000000, 7);
    FewerTwos(100000000, k, 7);
    TwosOfDifference(given, 100000000, quotient, r, k);
  }

  lemma RemainderResult(given: nat, quotient: nat, r: nat, remainder: nat, s: nat, low: nat)
    requires given > 0 && s <= 7 && given == 100000000 * quotient + r
    requires r == low * Pow(10, s) && remainder == low * Pow(2, s)
    requires s == Ctz(given) || (s < 7 && remainder % 5 != 0) || (s == 7 && given % 390625 != 0)
    ensures Stripped(given, Joined(low, quotient, s), s, 16)
  {
    var n := Joined(low, quotient, s);
    Rejoin(given, quotient, r, low, s);
    if s == Ctz(given) {
      NoTenLeft(given, n, s);
    } else if s < 7 {
      FiveStaysOut(remainder, low, quotient, s, n);
      NoTenLeft(given, n, s);
    } else if n % 10 == 0 {
      EighthFive(given, n);
    }
  }

  lemma NextFifth(r: nat, remainder: nat, s: nat, k: nat)
    requires FifthsOf(r, remainder, s) && HasTwos(remainder, k) && remainder % 5 == 0
    ensures FifthsOf(r, remainder / 5, s + 1) && HasTwos(remainder / 5, k)
  {
    FifthKeepsTwos(remainder, k);
    assert (5 * (remainder / 5)) * Pow(5, s) == (remainder / 5) * (5 * Pow(5, s));
  }

  lemma Rejoin(given: nat, quotient: nat, r: nat, low: nat, s: nat)
    requires s <= 7 && given == 100000000 * quotient + r && r == low * Pow(10, s)
    ensures given == (low + quotient * Pow(10, 8 - s)) * Pow(10, s)
  {
    assert Pow(10, 4) == 10000;
    PowAdd(10, 4, 4);
    PowAdd(10, 8 - s, s);
    JoinArithmetic(quotient, low, Pow(10, 8 - s), Pow(10, s));
  }

  lemma JoinArithmetic(quotient: int, low: int, p: int, q: int)
    ensures (low + quotient * p) * q == low * q + (p * q) * quotient
  {
  }

  lemma FiveStaysOut(remainder: nat, low: nat, quotient: nat, s: nat, n: nat)
    requires s < 7 && remainder % 5 != 0 && remainder == low * Pow(2, s)
    requires n == low + quotient * Pow(10, 8 - s)
    ensures (n * Pow(2, s)) % 5 != 0
  {
    var z := quotient * Pow(10, 7 - s) * Pow(2, s);
    FiveArithmetic(remainder, low, quotient, Pow(10, 7 - s), Pow(2, s), z);
    TensKeepMod5(remainder, z);
  }

  lemma FiveArithmetic(remainder: int, low: int, quotient: int, p: int, q: int, z: int)
    requires remainder == low * q && z == quotient * p * q
    ensures (low + quotient * (10 * p)) * q == remainder + 10 * z
  {
    assert quotient * (10 * p) * q == 10 * z;
  }

  lemma TensKeepMod5(r: int, z: int)
    ensures (r + 10 * z) % 5 == r % 5
  {
    DivModUnique(r + 10 * z, 5, r / 5 + 2 * z, r % 5);
  }

  lemma EighthFive(given: nat, n: nat)
    requires given == n * Pow(10, 7) && n % 10 == 0
    ensures given % 390625 == 0
  {
    SeventhPower();
    var q := n / 10;
    assert given == 100000000 * q;
    DivModUnique(given, 390625, 256 * q, 0);
  }

  lemma SeventhPower()
    ensures Pow(10, 7) == 10000000
  {
  }

  /** The 64-bit version, for significands below 10^17. */
  method RemoveTrailingZeros64(given: nat) returns (n: nat, s: nat)
    requires 0 < given < 100000000000000000
    ensures Stripped(given, n, s, 16)
  {
    if Min(Ctz(given), 16) >= 8 {
      var divides, product := TryFiveToTheEighth(given);
      if divides {
        n, s := StripQuotient(given, product);
        return;
      }
    }
    n, s := StripRemainder(given);
  }
}
