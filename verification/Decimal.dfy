/** Decimal digit strings, most significant digit first. */
module Decimal {
  import opened Arithmetic

  predicate IsDigit(c: char) { '0' <= c <= '9' }

  predicate AllDigits(s: seq<char>) { forall i :: 0 <= i < |s| ==> IsDigit(s[i]) }

  function DigitVal(c: char): int { c as int - '0' as int }

  function DigitChar(d: nat): char
    requires d <= 10
  {
    '0' + d as char
  }

  function DecVal(s: seq<char>): int
  {
    if s == [] then 0 else 10 * DecVal(s[..|s| - 1]) + DigitVal(s[|s| - 1])
  }

  lemma DigitOf(c: char)
    requires IsDigit(c)
    ensures 0 <= DigitVal(c) <= 9 && DigitChar(DigitVal(c)) == c
  {
  }

  lemma DecSnoc(s: seq<char>, c: char)
    ensures DecVal(s + [c]) == 10 * DecVal(s) + DigitVal(c)
  {
    assert (s + [c])[..|s|] == s;
  }

  lemma {:induction false} DecBound(s: seq<char>)
    requires AllDigits(s)
    ensures 0 <= DecVal(s) < Pow(10, |s|)
  {
    if s != [] {
      DecBound(s[..|s| - 1]);
    }
  }

  lemma {:induction false} DecUpdate(s: seq<char>, i: nat, c: char)
    requires i < |s|
    ensures DecVal(s[i := c]) == DecVal(s) + (DigitVal(c) - DigitVal(s[i])) * Pow(10, |s| - 1 - i)
  {
    var n := |s| - 1;
    if i == n {
      assert s[i := c][..n] == s[..n];
    } else {
      assert s[i := c][..n] == s[..n][i := c];
      DecUpdate(s[..n], i, c);
      var x, p := DigitVal(c) - DigitVal(s[i]), Pow(10, n - 1 - i);
      assert 10 * (x * p) == x * (10 * p);
    }
  }

  lemma {:induction false} DecConcat(s: seq<char>, t: seq<char>)
    ensures DecVal(s + t) == DecVal(s) * Pow(10, |t|) + DecVal(t)
  {
    if t == [] {
      assert s + t == s;
    } else {
      var n := |t| - 1;
      assert s + t == (s + t[..n]) + [t[n]];
      DecSnoc(s + t[..n], t[n]);
      DecConcat(s, t[..n]);
      var v, p := DecVal(s), Pow(10, n);
      assert 10 * (v * p) == v * (10 * p);
    }
  }

  lemma {:induction false} DecZeros(s: seq<char>)
    requires forall i :: 0 <= i < |s| ==> s[i] == '0'
    ensures DecVal(s) == 0
  {
    if s != [] {
      DecZeros(s[..|s| - 1]);
    }
  }

  /** A leading digit followed by zeros. */
  lemma DecLeading(s: seq<char>)
    requires |s| > 0 && forall i :: 1 <= i < |s| ==> s[i] == '0'
    ensures DecVal(s) == DigitVal(s[0]) * Pow(10, |s| - 1)
  {
    assert s == [s[0]] + s[1..];
    DecConcat([s[0]], s[1..]);
    DecSnoc([], s[0]);
    assert [] + [s[0]] == [s[0]];
    DecZeros(s[1..]);
  }

  /** How many decimal digits a number has; zero has one. */
  function NumDigits(n: nat): (k: nat)
    ensures k > 0
  {
    if n < 10 then 1 else 1 + NumDigits(n / 10)
  }

  lemma {:induction false} NumDigitsBounds(n: nat)
    ensures n < Pow(10, NumDigits(n))
    ensures n > 0 ==> Pow(10, NumDigits(n) - 1) <= n
  {
    assert Pow(10, 1) == 10 && Pow(10, 0) == 1;
    if n >= 10 {
      NumDigitsBounds(n / 10);
    }
  }

  /** The decimal digits of a number, without leading zeros except for zero itself. */
  function DecText(n: nat): (s: seq<char>)
    ensures |s| == NumDigits(n) && AllDigits(s)
  {
    if n < 10 then [DigitChar(n)] else DecText(n / 10) + [DigitChar(n % 10)]
  }

  lemma {:induction false} DecTextValue(n: nat)
    ensures DecVal(DecText(n)) == n
  {
    if n < 10 {
      DecSnoc([], DigitChar(n));
      assert [] + [DigitChar(n)] == [DigitChar(n)];
    } else {
      DecTextValue(n / 10);
      DecSnoc(DecText(n / 10), DigitChar(n % 10));
    }
  }

  lemma FewDigits(n: nat, k: nat)
    requires n < Pow(10, k)
    ensures n == 0 || NumDigits(n) <= k
  {
    NumDigitsBounds(n);
    if n > 0 && NumDigits(n) > k {
      PowMonotonic(10, k, NumDigits(n) - 1);
    }
  }

  /** A digit one past '9', as left by incrementing it. */
  const OVERFLOW: char := ':'

  /**
   * Moves an overflow in the last digit towards the front; the number written does not change.
   * An overflow can only be left in the very first digit, and then zeros follow it.
   */
  method CarryChain(buf: array<char>, size: nat)
    requires 0 < size <= buf.Length
    requires AllDigits(buf[..size - 1]) && (IsDigit(buf[size - 1]) || buf[size - 1] == OVERFLOW)
    modifies buf
    ensures DecVal(buf[..size]) == old(DecVal(buf[..size]))
    ensures forall k :: 1 <= k < size ==> IsDigit(buf[k])
    ensures IsDigit(buf[0]) || buf[0] == OVERFLOW
    ensures buf[0] == OVERFLOW ==> forall k :: 1 <= k < size ==> buf[k] == '0'
    ensures buf[size..] == old(buf[size..])
  {
    var i := size - 1;
    ghost var value := DecVal(buf[..size]);
    while i > 0 && buf[i] == OVERFLOW
      invariant 0 <= i < size
      invariant DecVal(buf[..size]) == value
      invariant forall k :: 0 <= k < size && k != i ==> IsDigit(buf[k])
      invariant IsDigit(buf[i]) || buf[i] == OVERFLOW
      invariant buf[i] == OVERFLOW ==> forall k :: i < k < size ==> buf[k] == '0'
      invariant buf[size..] == old(buf[size..])
    {
      ghost var s := buf[..size];
      CarryOne(s, i);
      buf[i] := '0';
      buf[i - 1] := buf[i - 1] + 1 as char;
      assert buf[..size] == s[i := '0'][i - 1 := buf[i - 1]];
      i := i - 1;
    }
  }

  lemma CarryOne(s: seq<char>, i: nat)
    requires 0 < i < |s| && s[i] == OVERFLOW && IsDigit(s[i - 1])
    ensures DecVal(s[i := '0'][i - 1 := s[i - 1] + 1 as char]) == DecVal(s)
  {
    var p: int := Pow(10, |s| - 1 - i);
    DecUpdate(s, i, '0');
    DecUpdate(s[i := '0'], i - 1, s[i - 1] + 1 as char);
    assert Pow(10, |s| - i) == 10 * p;
    assert (DigitVal('0') - DigitVal(OVERFLOW)) * p == -10 * p;
  }

  /** A number whose first digit overflowed is one followed by one more zero. */
  lemma OverflowedFirst(s: seq<char>)
    requires |s| > 0 && s[0] == OVERFLOW && forall k :: 1 <= k < |s| ==> s[k] == '0'
    ensures DecVal(s) == 10 * DecVal(s[0 := '1']) && AllDigits(s[0 := '1'])
    ensures DecVal(s) == DecVal(s[0 := '1'] + ['0'])
  {
    DecLeading(s);
    DecLeading(s[0 := '1']);
    DecSnoc(s[0 := '1'], '0');
  }
}
