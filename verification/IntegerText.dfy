/** Writing integers as decimal text and reading them back. */
module IntegerText {
  import opened Arithmetic
  import opened Decimal

  const INT_MAX: nat := 0x7fff_ffff

  /** Counts digits four at a time. */
  method CountDigitsFallback(given: nat) returns (count: nat)
    ensures count == NumDigits(given)
  {
    var n := given;
    count := 1;
    while true
      invariant count + NumDigits(n) == NumDigits(given) + 1
      decreases n
    {
      SmallCounts(n);
      if n < 10 { return count; }
      if n < 100 { return count + 1; }
      if n < 1000 { return count + 2; }
      if n < 10000 { return count + 3; }
      FourDigits(n);
      n := n / 10000;
      count := count + 4;
    }
  }

  lemma FourDigits(n: nat)
    requires n >= 10000
    ensures NumDigits(n) == 4 + NumDigits(n / 10000)
  {
    var a, b, c := n / 10, n / 10 / 10, n / 10 / 10 / 10;
    assert a >= 10 && b >= 10 && c >= 10 && c / 10 == n / 10000;
    assert NumDigits(n) == 1 + NumDigits(a) && NumDigits(a) == 1 + NumDigits(b);
    assert NumDigits(b) == 1 + NumDigits(c) && NumDigits(c) == 1 + NumDigits(c / 10);
  }

  lemma SmallCounts(n: nat)
    ensures 10 <= n < 100 ==> NumDigits(n) == 2
    ensures 100 <= n < 1000 ==> NumDigits(n) == 3
    ensures 1000 <= n < 10000 ==> NumDigits(n) == 4
  {
    var a, b := n / 10, n / 10 / 10;
    assert NumDigits(a) == if a < 10 then 1 else 1 + NumDigits(b);
    assert NumDigits(b) == if b < 10 then 1 else 1 + NumDigits(b / 10);
  }

  /** Writes the digits backwards, two at a time, ending just before `size`. */
  method FormatDecimal(out: array<char>, given: nat, size: nat) returns (begin: nat)
    requires NumDigits(given) <= size <= out.Length
    modifies out
    ensures begin == size - NumDigits(given)
    ensures out[begin..size] == DecText(given)
    ensures SameOutside(out[..], old(out[..]), begin, size)
  {
    var value := given;
    begin := size;
    assert DecText(value) + out[begin..size] == DecText(given);
    while value >= 100
      invariant NumDigits(value) <= begin <= size
      invariant Completes(value, out[begin..size], given)
      invariant SameOutside(out[..], old(out[..]), begin, size)
    {
      TwoMore(value, out[begin..size], given);
      begin := begin - 2;
      Copy2(out, begin, value % 100, size);
      value := value / 100;
    }
    begin := FirstDigits(out, begin, value, size);
  }

  /** The one or two digits that are left for the front. */
  method FirstDigits(out: array<char>, end: nat, value: nat, ghost size: nat) returns (begin: nat)
    requires value < 100 && NumDigits(value) <= end <= size <= out.Length
    modifies out
    ensures begin == end - NumDigits(value)
    ensures out[begin..size] == DecText(value) + old(out[end..size])
    ensures SameOutside(out[..], old(out[..]), begin, size)
  {
    if value < 10 {
      begin := end - 1;
      out[begin] := DigitChar(value);
      return;
    }
    begin := end - 2;
    Copy2(out, begin, value, size);
    assert DecText(value) == [DigitChar(value / 10), DigitChar(value % 10)];
  }

  /** The text of `value` and what stands after it make up the text of the number. */
  predicate Completes(value: nat, tail: seq<char>, given: nat) { DecText(value) + tail == DecText(given) }

  lemma TwoMore(value: nat, tail: seq<char>, given: nat)
    requires value >= 100 && Completes(value, tail, given)
    ensures Completes(value / 100, [DigitChar(value % 100 / 10), DigitChar(value % 100 % 10)] + tail, given)
    ensures NumDigits(value) == NumDigits(value / 100) + 2
  {
    TwoDigits(value);
    Regroup(DecText(value / 100), [DigitChar(value % 100 / 10), DigitChar(value % 100 % 10)], tail);
  }

  lemma Regroup(a: seq<char>, b: seq<char>, c: seq<char>)
    ensures (a + b) + c == a + (b + c)
  {
  }

  predicate SameOutside(s: seq<char>, t: seq<char>, lo: nat, hi: nat)
  {
    |s| == |t| && forall i :: 0 <= i < |s| && (i < lo || hi <= i) ==> s[i] == t[i]
  }

  /** Two digits at once, in front of those that stand there up to `size`. */
  method Copy2(out: array<char>, i: nat, v: nat, ghost size: nat)
    requires i + 2 <= size <= out.Length && v < 100
    modifies out
    ensures out[i..size] == [DigitChar(v / 10), DigitChar(v % 10)] + old(out[i + 2..size])
    ensures SameOutside(out[..], old(out[..]), i, i + 2)
  {
    out[i] := DigitChar(v / 10);
    out[i + 1] := DigitChar(v % 10);
  }

  lemma TwoDigits(n: nat)
    requires n >= 100
    ensures DecText(n) == DecText(n / 100) + [DigitChar(n % 100 / 10), DigitChar(n % 100 % 10)]
  {
    assert n / 10 / 10 == n / 100 && n / 10 % 10 == n % 100 / 10 && n % 10 == n % 100 % 10;
  }

  /** The end of the digits starting at `i`. */
  function DigitsEnd(s: seq<char>, i: nat): (j: nat)
    requires i <= |s|
    ensures i <= j <= |s| && AllDigits(s[i..j])
    decreases |s| - i
  {
    if i < |s| && IsDigit(s[i]) then
      var j := DigitsEnd(s, i + 1);
      assert s[i..j] == [s[i]] + s[i + 1..j];
      j
    else i
  }

  /** What a run of digits parses to: its value when it has at most ten digits and fits an int. */
  function ParsedInt(run: seq<char>, errorValue: int): int
  {
    if |run| <= 10 && DecVal(run) <= INT_MAX then DecVal(run) else errorValue
  }

  /** The number a run of digits denotes, in a 32-bit accumulator. */
  function Wrapped(run: seq<char>): nat { DecVal(run) % WORD32 }

  /** Parses the digits at `begin` with a 32-bit accumulator that may wrap. */
  method ParseNonnegativeInt(s: seq<char>, begin: nat, errorValue: int) returns (result: int, end: nat)
    requires begin < |s| && IsDigit(s[begin])
    ensures end == DigitsEnd(s, begin) > begin
    ensures result == ParsedInt(s[begin..end], errorValue)
  {
    var value, prev, p := 0, 0, begin;
    assert s[begin..begin] == [];
    while p == begin || (p < |s| && IsDigit(s[p]))
      invariant begin <= p <= |s| && DigitsEnd(s, p) == DigitsEnd(s, begin)
      invariant AllDigits(s[begin..p])
      invariant value == Wrapped(s[begin..p])
      invariant p > begin ==> prev == Wrapped(s[begin..p - 1])
      decreases |s| - p
    {
      prev := value;
      value := (value * 10 + DigitVal(s[p])) % WORD32;
      DigitTaken(s, begin, p);
      p := p + 1;
    }
    end := p;
    var numDigits := p - begin;
    ghost var run := s[begin..p];
    assert run[..|run| - 1] == s[begin..p - 1];
    ParseDecision(run, value, prev);
    if numDigits <= 9 {
      return value, end;
    }
    if numDigits == 10 && prev * 10 + DigitVal(s[p - 1]) <= INT_MAX {
      return value, end;
    }
    return errorValue, end;
  }

  /** The check on the last digit is exact although the accumulator may have wrapped. */
  lemma ParseDecision(run: seq<char>, value: nat, prev: nat)
    requires |run| > 0 && AllDigits(run)
    requires value == DecVal(run) % WORD32 && prev == DecVal(run[..|run| - 1]) % WORD32
    ensures |run| <= 9 ==> value == DecVal(run) <= INT_MAX
    ensures |run| == 10 ==> (prev * 10 + DigitVal(run[9]) <= INT_MAX <==> DecVal(run) <= INT_MAX)
    ensures DecVal(run) <= INT_MAX ==> value == DecVal(run)
  {
    var n := |run| - 1;
    DecBound(run);
    DecBound(run[..n]);
    assert run == run[..n] + [run[n]];
    DecSnoc(run[..n], run[n]);
    TenDigitBounds(|run|);
    Unwrapped(DecVal(run));
    Unwrapped(DecVal(run[..n]));
  }

  lemma Unwrapped(v: nat)
    ensures v < WORD32 ==> v % WORD32 == v
  {
  }

  lemma DigitTaken(s: seq<char>, begin: nat, p: nat)
    requires begin <= p < |s| && AllDigits(s[begin..p]) && IsDigit(s[p])
    ensures AllDigits(s[begin..p + 1])
    ensures (Wrapped(s[begin..p]) * 10 + DigitVal(s[p])) % WORD32 == Wrapped(s[begin..p + 1])
  {
    var run := s[begin..p];
    assert s[begin..p + 1] == run + [s[p]];
    DecSnoc(run, s[p]);
    DecBound(run);
    WrappedArithmetic(DecVal(run), DigitVal(s[p]));
  }

  lemma WrappedArithmetic(v: nat, d: nat)
    ensures (v % WORD32 * 10 + d) % WORD32 == (v * 10 + d) % WORD32
  {
    assert v * 10 + d == (v % WORD32 * 10 + d) + WORD32 * (v / WORD32 * 10);
  }

  lemma TenDigitBounds(k: nat)
    ensures k <= 9 ==> Pow(10, k) <= 1000000000
    ensures k == 10 ==> Pow(10, k - 1) == 1000000000
  {
    assert Pow(10, 9) == 1000000000;
    if k <= 9 {
      PowMonotonic(10, k, 9);
    }
  }

  /** Reading back what was written gives the number, for everything an int can hold. */
  lemma ParseAfterFormat(n: nat, rest: seq<char>, errorValue: int)
    requires n <= INT_MAX && (rest == [] || !IsDigit(rest[0]))
    ensures DigitsEnd(DecText(n) + rest, 0) == |DecText(n)|
    ensures ParsedInt((DecText(n) + rest)[..|DecText(n)|], errorValue) == n
  {
    EndOfDigits(DecText(n), rest, 0);
    assert (DecText(n) + rest)[..|DecText(n)|] == DecText(n);
    DecTextValue(n);
    NumDigitsBounds(n);
    assert Pow(10, 5) == 100000;
    PowAdd(10, 5, 5);
    if NumDigits(n) > 10 {
      PowMonotonic(10, 10, NumDigits(n) - 1);
    }
  }

  lemma {:induction false} EndOfDigits(run: seq<char>, rest: seq<char>, i: nat)
    requires i <= |run| && AllDigits(run) && (rest == [] || !IsDigit(rest[0]))
    ensures DigitsEnd(run + rest, i) == |run|
    decreases |run| - i
  {
    if i < |run| {
      EndOfDigits(run, rest, i + 1);
    }
  }

  /** Writing back what was read gives the digits without their leading zeros. */
  lemma {:induction false} FormatAfterParse(run: seq<char>)
    requires |run| > 0 && AllDigits(run) && (|run| > 1 ==> run[0] != '0')
    ensures DecVal(run) >= 0 && DecText(DecVal(run)) == run
  {
    DecBound(run);
    var n := |run| - 1;
    if n == 0 {
      assert run == [run[0]];
      OneDigitText(run[0]);
    } else {
      var front := run[..n];
      FormatAfterParse(front);
      assert run == front + [run[n]];
      DecSnoc(front, run[n]);
      LeadingNonZero(front);
      DigitOf(run[n]);
      TextStep(DecVal(front), DigitVal(run[n]));
    }
  }

  function Zeros(k: nat): seq<char> { seq(k, _ => '0') }

  lemma {:induction false} LeadingZeros(k: nat, s: seq<char>)
    requires AllDigits(s)
    ensures AllDigits(Zeros(k) + s) && DecVal(Zeros(k) + s) == DecVal(s)
    decreases |s| + k
  {
    if s != [] {
      var front, c := s[..|s| - 1], s[|s| - 1];
      LeadingZeros(k, front);
      assert s == front + [c] && Zeros(k) + s == (Zeros(k) + front) + [c];
      DecSnoc(Zeros(k) + front, c);
      DecSnoc(front, c);
    } else if k > 0 {
      LeadingZeros(k - 1, []);
      assert Zeros(k) + [] == (Zeros(k - 1) + []) + ['0'];
      DecSnoc(Zeros(k - 1) + [], '0');
    }
  }

  /** What a number with zeros in front parses to: too many digits are an error, like a number beyond an int. */
  lemma ParsesExactly(zeros: nat, n: nat, errorValue: int)
    ensures ParsedInt(Zeros(zeros) + DecText(n), errorValue)
            == if zeros + NumDigits(n) <= 10 && n <= 2147483647 then n else errorValue
  {
    LeadingZeros(zeros, DecText(n));
    DecTextValue(n);
  }

  /** And every run of digits is some number with zeros in front. */
  lemma {:induction false} EveryRun(run: seq<char>) returns (zeros: nat, n: nat)
    requires run != [] && AllDigits(run)
    ensures run == Zeros(zeros) + DecText(n)
  {
    if |run| > 1 && run[0] == '0' {
      zeros, n := EveryRun(run[1..]);
      assert run == ['0'] + run[1..] && Zeros(zeros + 1) == ['0'] + Zeros(zeros);
      zeros := zeros + 1;
    } else {
      FormatAfterParse(run);
      zeros, n := 0, DecVal(run);
      assert Zeros(0) + run == run;
    }
  }

  lemma OneDigitText(c: char)
    requires IsDigit(c)
    ensures DecVal([c]) == DigitVal(c) >= 0 && DecText(DigitVal(c)) == [c]
  {
    DigitOf(c);
    DecSnoc([], c);
    assert [] + [c] == [c];
  }

  lemma {:induction false} LeadingNonZero(s: seq<char>)
    requires |s| > 0 && AllDigits(s) && s[0] != '0'
    ensures DecVal(s) > 0
  {
    if |s| == 1 {
      assert s == [] + [s[0]];
      DecSnoc([], s[0]);
    } else {
      LeadingNonZero(s[..|s| - 1]);
    }
  }

  lemma TextStep(v: nat, d: nat)
    requires v > 0 && d <= 9
    ensures DecText(10 * v + d) == DecText(v) + [DigitChar(d)]
  {
    var w := 10 * v + d;
    assert w >= 10 && w / 10 == v && w % 10 == d;
  }
}
