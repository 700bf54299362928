/** Integers written with the thousands separators of a locale. */
module Grouping {
  import opened Arithmetic
  import opened Decimal
  import IntegerText

  /** The group size that, like one that is not positive, stops any further grouping. */
  const CHAR_MAX: int := 127
  const UINT128_WORD: nat := 0x1_0000_0000_0000_0000_0000_0000_0000_0000
  const DIGITS_CAPACITY: nat := 40

  predicate Active(group: int) { group > 0 && group != CHAR_MAX }

  /** The group `j` groups after the k-th one: the last repeats for ever. */
  function Nth(groups: seq<int>, k: nat, j: nat): nat
    requires k < |groups|
  {
    Min(k + j, |groups| - 1)
  }

  /** The digits with separators put in from the right, starting with the k-th group. */
  function Layout(ds: seq<char>, groups: seq<int>, k: nat, sep: char): seq<char>
    requires k < |groups|
    decreases |ds|
  {
    var g := groups[k];
    if Active(g) && |ds| > g then
      Layout(ds[..|ds| - g], groups, Nth(groups, k, 1), sep) + [sep] + ds[|ds| - g..]
    else ds
  }

  function Without(s: seq<char>, sep: char): seq<char>
  {
    if s == [] then [] else
      (if s[0] == sep then [] else [s[0]]) + Without(s[1..], sep)
  }

  function Count(s: seq<char>, sep: char): nat
  {
    if s == [] then 0 else (if s[0] == sep then 1 else 0) + Count(s[1..], sep)
  }

  /** How many digits the next j groups hold. */
  function Cut(groups: seq<int>, k: nat, j: nat): int
    requires k < |groups|
    decreases j
  {
    if j == 0 then 0 else groups[k] + Cut(groups, Nth(groups, k, 1), j - 1)
  }

  lemma {:induction false} WithoutConcat(s: seq<char>, t: seq<char>, sep: char)
    ensures Without(s + t, sep) == Without(s, sep) + Without(t, sep)
    ensures Count(s + t, sep) == Count(s, sep) + Count(t, sep)
  {
    if s == [] {
      assert s + t == t;
    } else {
      assert (s + t)[1..] == s[1..] + t;
      WithoutConcat(s[1..], t, sep);
    }
  }

  lemma {:induction false} NothingToRemove(s: seq<char>, sep: char)
    requires sep !in s
    ensures Without(s, sep) == s && Count(s, sep) == 0
  {
    if s != [] {
      NothingToRemove(s[1..], sep);
    }
  }

  lemma OneSeparator(head: seq<char>, back: seq<char>, sep: char)
    requires sep !in back
    ensures Without(head + [sep] + back, sep) == Without(head, sep) + back
    ensures Count(head + [sep] + back, sep) == Count(head, sep) + 1
  {
    WithoutConcat(head + [sep], back, sep);
    WithoutConcat(head, [sep], sep);
    NothingToRemove(back, sep);
    JustOne(sep);
    assert Without(head, sep) + [] == Without(head, sep);
  }

  lemma JustOne(sep: char)
    ensures Without([sep], sep) == [] && Count([sep], sep) == 1
  {
    assert [sep][1..] == [];
  }

  /** Deleting the separators leaves the digits. */
  lemma {:induction false} SeparatorsDeleted(ds: seq<char>, groups: seq<int>, k: nat, sep: char)
    requires k < |groups| && sep !in ds
    ensures Without(Layout(ds, groups, k, sep), sep) == ds
    decreases |ds|
  {
    var g := groups[k];
    if Active(g) && |ds| > g {
      var front, back := ds[..|ds| - g], ds[|ds| - g..];
      assert front + back == ds;
      SeparatorsDeleted(front, groups, Nth(groups, k, 1), sep);
      OneSeparator(Layout(front, groups, Nth(groups, k, 1), sep), back, sep);
    } else {
      NothingToRemove(ds, sep);
    }
  }

  /** Prefix and decimal digits come back from the whole text, and the digits denote the value. */
  lemma LocalizedReadsBack(value: nat, prefix: nat, groups: seq<int>, sep: char)
    requires groups != [] && !IsDigit(sep) && sep !in PrefixText(prefix)
    ensures Without(PrefixText(prefix) + Layout(DecText(value), groups, 0, sep), sep)
            == PrefixText(prefix) + DecText(value)
    ensures DecVal(DecText(value)) == value
  {
    SeparatorsDeleted(DecText(value), groups, 0, sep);
    NothingToRemove(PrefixText(prefix), sep);
    WithoutConcat(PrefixText(prefix), Layout(DecText(value), groups, 0, sep), sep);
    DecTextValue(value);
  }

  /** A separator that is the j-th from the right has exactly the first j groups of digits to its right. */
  lemma {:induction false} SeparatorsAtBoundaries(ds: seq<char>, groups: seq<int>, k: nat, sep: char, i: nat)
    requires k < |groups| && sep !in ds
    requires i < |Layout(ds, groups, k, sep)| && Layout(ds, groups, k, sep)[i] == sep
    ensures var s := Layout(ds, groups, k, sep);
            |Without(s[i..], sep)| == Cut(groups, k, Count(s[i..], sep))
    decreases |ds|
  {
    var g := groups[k];
    var front, back, next := ds[..|ds| - g], ds[|ds| - g..], Nth(groups, k, 1);
    var head := Layout(front, groups, next, sep);
    var s := head + [sep] + back;
    NothingToRemove(back, sep);
    if i < |head| {
      SeparatorsAtBoundaries(front, groups, next, sep, i);
      assert s[i..] == head[i..] + [sep] + back;
      OneSeparator(head[i..], back, sep);
    } else {
      assert s[i..] == [] + [sep] + back;
      OneSeparator([], back, sep);
    }
  }

  /** No separator is missing: what stays in front of all of them fits the next group. */
  lemma {:induction false} LeadingDigitsFit(ds: seq<char>, groups: seq<int>, k: nat, sep: char)
    requires k < |groups| && sep !in ds && ds != []
    ensures var c := Count(Layout(ds, groups, k, sep), sep);
            var left := |ds| - Cut(groups, k, c);
            left >= 1 && (Active(groups[Nth(groups, k, c)]) ==> left <= groups[Nth(groups, k, c)])
    decreases |ds|
  {
    var g := groups[k];
    if Active(g) && |ds| > g {
      var front, back, next := ds[..|ds| - g], ds[|ds| - g..], Nth(groups, k, 1);
      var head := Layout(front, groups, next, sep);
      LeadingDigitsFit(front, groups, next, sep);
      OneSeparator(head, back, sep);
      var c := Count(head, sep);
      assert Nth(groups, k, c + 1) == Nth(groups, next, c);
      assert Cut(groups, k, c + 1) == g + Cut(groups, next, c);
    } else {
      NothingToRemove(ds, sep);
    }
  }

  /** Once the last group is reached the number of separators is a quotient. */
  lemma {:induction false} LastGroupSeparators(ds: seq<char>, groups: seq<int>, sep: char)
    requires groups != [] && ds != [] && Active(groups[|groups| - 1])
    ensures |Layout(ds, groups, |groups| - 1, sep)| == |ds| + (|ds| - 1) / groups[|groups| - 1]
    decreases |ds|
  {
    var g := groups[|groups| - 1];
    if |ds| > g {
      LastGroupSeparators(ds[..|ds| - g], groups, sep);
      OneMoreGroup(|ds| - 1, g);
    } else {
      FirstGroup(|ds| - 1, g);
    }
  }

  lemma OneMoreGroup(n: nat, g: nat)
    requires 0 < g <= n
    ensures n / g == (n - g) / g + 1
  {
    DivModUnique(n, g, (n - g) / g + 1, (n - g) % g);
  }

  lemma FirstGroup(n: nat, g: nat)
    requires n < g
    ensures n / g == 0
  {
  }

  function PrefixText(prefix: nat): seq<char>
  {
    if prefix == 0 then [] else [(prefix % 256) as char]
  }

  /** A sign is handed over with its length above it, and written as itself; without a prefix nothing is. */
  lemma SignWritten(sign: char)
    requires 0 < sign as int < 256
    ensures PrefixText(0x1000000 + sign as int) == [sign] && PrefixText(0) == []
  {
    DivModUnique(0x1000000 + sign as int, 256, 0x10000, sign as int);
  }

  /** One group size for all groups: sizes from 1 to 126 put in every separator, any other byte none at all. */
  lemma EveryGroupSize(ds: seq<char>, size: int, sep: char)
    requires ds != [] && -128 <= size <= 127
    ensures |Layout(ds, [size], 0, sep)| == |ds| + if 1 <= size <= 126 then (|ds| - 1) / size else 0
    ensures !(1 <= size <= 126) ==> Layout(ds, [size], 0, sep) == ds
  {
    if 1 <= size <= 126 { LastGroupSeparators(ds, [size], sep); }
  }

  /** The first loop: how many characters the digits and separators take. */
  method LocalizedSize(ghost ds: seq<char>, numDigits: nat, groups: seq<int>, ghost sep: char) returns (size: nat)
    requires groups != [] && numDigits == |ds| > 0
    ensures size == |Layout(ds, groups, 0, sep)|
  {
    size := numDigits;
    var n, group := numDigits, 0;
    assert ds[..numDigits] == ds;
    while group < |groups| && n > groups[group] > 0 && groups[group] != CHAR_MAX
      invariant 0 <= group <= |groups| && 0 < n <= numDigits && n <= size
      invariant group == |groups| ==> Active(groups[|groups| - 1])
      invariant |Layout(ds, groups, 0, sep)| == size - n + |Layout(ds[..n], groups, Nth(groups, 0, group), sep)|
    {
      assert ds[..n][..n - groups[group]] == ds[..n - groups[group]];
      size := size + 1;
      n := n - groups[group];
      group := group + 1;
    }
    if group == |groups| {
      LastGroupSeparators(ds[..n], groups, sep);
      size := size + (n - 1) / groups[|groups| - 1];
    }
  }

  /** How many digits of the current group have been written. */
  function Chunk(groups: seq<int>, group: nat, digitIndex: nat): nat
    requires group < |groups|
  {
    if Active(groups[group]) then digitIndex % groups[group] else 0
  }

  /** Writes the value with separators into a buffer of the computed size; false without a separator. */
  method WriteIntLocalized(value: nat, prefix: nat, groups: seq<int>, sep: char) returns (ok: bool, text: seq<char>)
    requires value < UINT128_WORD && groups != []
    ensures ok <==> sep != '\0'
    ensures ok ==> text == PrefixText(prefix) + Layout(DecText(value), groups, 0, sep)
  {
    text := [];
    if sep == '\0' { return false, text; }
    ghost var ds, lead := DecText(value), |PrefixText(prefix)|;
    var numDigits := IntegerText.CountDigitsFallback(value);
    var size := LocalizedSize(ds, numDigits, groups, sep);
    DigitsFit(value);
    var digits := new char[DIGITS_CAPACITY];
    var begin := IntegerText.FormatDecimal(digits, value, numDigits);
    assert begin == 0 && digits[..numDigits] == ds;
    if prefix != 0 { size := size + 1; }
    var buffer := new char[size];
    var p := FillBackwards(digits, numDigits, groups, sep, buffer, lead);
    if prefix != 0 {
      buffer[p] := (prefix % 256) as char;
    }
    assert buffer[..] == buffer[..lead] + buffer[lead..];
    return true, buffer[..];
  }

  lemma DigitsFit(value: nat)
    requires value < UINT128_WORD
    ensures NumDigits(value) <= DIGITS_CAPACITY
  {
    assert Pow(10, 5) == 100000;
    PowAdd(10, 5, 5);
    PowAdd(10, 10, 10);
    PowAdd(10, 20, 20);
    FewDigits(value, DIGITS_CAPACITY);
  }

  /** The second loop: stores from the last digit back to the first, ending just after the prefix. */
  method FillBackwards(digits: array<char>, numDigits: nat, groups: seq<int>, sep: char,
                       buffer: array<char>, ghost lead: nat) returns (p: int)
    requires 0 < numDigits <= digits.Length && groups != [] && buffer != digits
    requires buffer.Length == lead + |Layout(digits[..numDigits], groups, 0, sep)|
    modifies buffer
    ensures p == lead - 1
    ensures buffer[lead..] == Layout(digits[..numDigits], groups, 0, sep)
  {
    ghost var ds := digits[..numDigits];
    ghost var full := Layout(ds, groups, 0, sep);
    ghost var g := Progress(buffer[..], buffer.Length - 1, numDigits - 1, 0, 0);
    var digitIndex: nat, group: nat := 0, 0;
    p := buffer.Length - 1;
    NothingWritten(g, ds, full, groups, sep, lead);
    var i := numDigits - 1;
    while i > 0
      invariant 0 <= i < numDigits && group < |groups| && lead <= p < buffer.Length
      invariant g == Progress(buffer[..], p, i, group, Chunk(groups, group, digitIndex))
      invariant Written(g, ds, full, groups, sep, lead)
    {
      RoundWritten(g, digitIndex, ds, full, groups, sep, lead);
      ghost var r := Round(g, digitIndex, ds[i], groups, sep).0;
      p, group, digitIndex := FillOne(buffer, p, digits[i], i, groups, sep, group, digitIndex);
      i := i - 1;
      g := r;
    }
    LastDigit(g, ds, full, groups, sep, lead);
    buffer[p] := digits[0];
    assert buffer[..] == g.buf[lead := ds[0]];
    p := p - 1;
  }

  lemma NothingWritten(g: Progress, ds: seq<char>, full: seq<char>, groups: seq<int>, sep: char, lead: nat)
    requires ds != [] && groups != [] && full == Layout(ds, groups, 0, sep) && |g.buf| == lead + |full|
    requires g.p == |g.buf| - 1 && g.i == |ds| - 1 && g.group == 0 && g.done == 0
    ensures Written(g, ds, full, groups, sep, lead)
  {
    LayoutAtLeast(ds, groups, 0, sep);
    assert ds[..|ds|] == ds && full + g.buf[|g.buf|..] == full;
  }

  /** One round of the second loop: a digit and, when it completes a group, a separator. */
  method FillOne(buffer: array<char>, p0: int, c: char, ghost i: int, groups: seq<int>, sep: char, group0: nat,
                 digitIndex0: nat) returns (p: int, group: nat, digitIndex: nat)
    requires group0 < |groups| && 1 <= p0 < buffer.Length
    modifies buffer
    ensures var g := Progress(old(buffer[..]), p0, i, group0, Chunk(groups, group0, digitIndex0));
            && group < |groups|
            && Round(g, digitIndex0, c, groups, sep)
               == (Progress(buffer[..], p, i - 1, group, Chunk(groups, group, digitIndex)), digitIndex)
  {
    p, group, digitIndex := p0, group0, digitIndex0;
    buffer[p] := c;
    p := p - 1;
    if groups[group] <= 0 { return; }
    digitIndex := digitIndex + 1;
    if digitIndex % groups[group] != 0 || groups[group] == CHAR_MAX { return; }
    if group + 1 != |groups| {
      digitIndex := 0;
      group := group + 1;
    }
    buffer[p] := sep;
    p := p - 1;
  }

  lemma NextInChunk(index: nat, g: nat)
    requires g > 0
    ensures (index + 1) % g == if index % g + 1 == g then 0 else index % g + 1
  {
    var r := index % g;
    if r + 1 == g {
      DivModUnique(index + 1, g, index / g + 1, 0);
    } else {
      DivModUnique(index + 1, g, index / g, r + 1);
    }
  }

  /** The buffer, the next position to store at, the next digit, its group and how much of that is stored. */
  datatype Progress = Progress(buf: seq<char>, p: int, i: int, group: nat, done: nat)

  /**
   * What stands right of position p is the end of the full text, of which the last `done` digits
   * still belong to a group that is not complete.
   */
  ghost predicate Written(g: Progress, ds: seq<char>, full: seq<char>, groups: seq<int>, sep: char, lead: nat)
  {
    var end, at := g.i + 1 + g.done, g.p + 1 + g.done;
    && g.group < |groups| && 0 <= g.i && end <= |ds| && lead <= g.p && at <= |g.buf|
    && (if Active(groups[g.group]) then g.done < groups[g.group] else g.done == 0)
    && g.buf[g.p + 1..at] == ds[g.i + 1..end]
    && at == lead + |Layout(ds[..end], groups, g.group, sep)|
    && full == Layout(ds[..end], groups, g.group, sep) + g.buf[at..]
  }

  /** What one round of the second loop does to the progress. */
  function Round(g: Progress, digitIndex: nat, c: char, groups: seq<int>, sep: char): (r: (Progress, nat))
    requires g.group < |groups| && 1 <= g.p < |g.buf|
    ensures r.0.group < |groups|
  {
    var buf, size, index := g.buf[g.p := c], groups[g.group], digitIndex + 1;
    if size <= 0 then (Progress(buf, g.p - 1, g.i - 1, g.group, 0), digitIndex)
    else if index % size != 0 || size == CHAR_MAX then
      (Progress(buf, g.p - 1, g.i - 1, g.group, Chunk(groups, g.group, index)), index)
    else
      var (next, index) := if g.group + 1 != |groups| then (g.group + 1, 0) else (g.group, index);
      (Progress(buf[g.p - 1 := sep], g.p - 2, g.i - 1, next, Chunk(groups, next, index)), index)
  }

  lemma RoundWritten(g: Progress, digitIndex: nat, ds: seq<char>, full: seq<char>, groups: seq<int>,
                     sep: char, lead: nat)
    requires Written(g, ds, full, groups, sep, lead) && 0 < g.i && g.p < |g.buf|
    requires g.done == Chunk(groups, g.group, digitIndex)
    ensures 1 <= g.p && Written(Round(g, digitIndex, ds[g.i], groups, sep).0, ds, full, groups, sep, lead)
  {
    LayoutAtLeast(ds[..g.i + 1 + g.done], groups, g.group, sep);
    RoundCases(g, digitIndex, ds[g.i], groups, sep);
    if !Active(groups[g.group]) {
      Ungrouped(g, ds, full, groups, sep, lead);
    } else if g.done + 1 < groups[g.group] {
      InGroup(g, ds, full, groups, sep, lead);
    } else {
      EndsGroup(g, ds, full, groups, sep, lead);
    }
  }

  lemma RoundCases(g: Progress, digitIndex: nat, c: char, groups: seq<int>, sep: char)
    requires g.group < |groups| && 1 <= g.p < |g.buf|
    requires g.done == Chunk(groups, g.group, digitIndex)
    ensures var (r, size, buf) := (Round(g, digitIndex, c, groups, sep).0, groups[g.group], g.buf[g.p := c]);
            && (!Active(size) ==> r == Progress(buf, g.p - 1, g.i - 1, g.group, 0))
            && (Active(size) && g.done + 1 < size ==> r == Progress(buf, g.p - 1, g.i - 1, g.group, g.done + 1))
            && (Active(size) && g.done + 1 == size ==>
                  r == Progress(buf[g.p - 1 := sep], g.p - 2, g.i - 1, Nth(groups, g.group, 1), 0))
  {
    if Active(groups[g.group]) {
      NextInChunk(digitIndex, groups[g.group]);
    }
  }

  /** A digit that is not followed by any separator. */
  lemma Ungrouped(g: Progress, ds: seq<char>, full: seq<char>, groups: seq<int>, sep: char, lead: nat)
    requires Written(g, ds, full, groups, sep, lead) && 0 < g.i && g.p < |g.buf|
    requires !Active(groups[g.group])
    ensures Written(Progress(g.buf[g.p := ds[g.i]], g.p - 1, g.i - 1, g.group, 0), ds, full, groups, sep, lead)
  {
    assert ds[..g.i + 1] == ds[..g.i] + [ds[g.i]];
    assert g.buf[g.p := ds[g.i]][g.p..] == [ds[g.i]] + g.buf[g.p + 1..];
  }

  /** A digit inside its group. */
  lemma InGroup(g: Progress, ds: seq<char>, full: seq<char>, groups: seq<int>, sep: char, lead: nat)
    requires Written(g, ds, full, groups, sep, lead) && 0 < g.i && g.p < |g.buf|
    requires Active(groups[g.group]) && g.done + 1 < groups[g.group]
    ensures Written(Progress(g.buf[g.p := ds[g.i]], g.p - 1, g.i - 1, g.group, g.done + 1),
                    ds, full, groups, sep, lead)
  {
    var end, at := g.i + 1 + g.done, g.p + 1 + g.done;
    LayoutAtLeast(ds[..end], groups, g.group, sep);
    InGroupText(g.buf, g.p, at, ds, g.i, end);
    var h := Progress(g.buf[g.p := ds[g.i]], g.p - 1, g.i - 1, g.group, g.done + 1);
    WrittenAt(h, ds, full, groups, sep, lead, g.p, at, g.i, end);
  }

  /** `Written`, with the places of the text and of the digits it stands for named. */
  lemma WrittenAt(g: Progress, ds: seq<char>, full: seq<char>, groups: seq<int>, sep: char, lead: nat,
                  p: nat, at: nat, i: nat, end: nat)
    requires p == g.p + 1 && at == p + g.done && i == g.i + 1 && end == i + g.done
    requires g.group < |groups| && 0 < i && end <= |ds| && lead < p && at <= |g.buf|
    requires if Active(groups[g.group]) then g.done < groups[g.group] else g.done == 0
    requires g.buf[p..at] == ds[i..end] && at == lead + |Layout(ds[..end], groups, g.group, sep)|
    requires full == Layout(ds[..end], groups, g.group, sep) + g.buf[at..]
    ensures Written(g, ds, full, groups, sep, lead)
  {
  }

  lemma InGroupText(buf: seq<char>, p: nat, at: nat, ds: seq<char>, i: nat, end: nat)
    requires p < at <= |buf| && i < end <= |ds| && buf[p + 1..at] == ds[i + 1..end]
    ensures buf[p := ds[i]][p..at] == ds[i..end] && buf[p := ds[i]][at..] == buf[at..]
  {
    assert ds[i..end] == [ds[i]] + ds[i + 1..end];
    assert buf[p := ds[i]][p..at] == [ds[i]] + buf[p + 1..at];
  }

  /** The digit that completes its group, and the separator in front of it. */
  lemma EndsGroup(g: Progress, ds: seq<char>, full: seq<char>, groups: seq<int>, sep: char, lead: nat)
    requires Written(g, ds, full, groups, sep, lead) && 0 < g.i && g.p < |g.buf|
    requires Active(groups[g.group]) && g.done + 1 == groups[g.group]
    ensures g.p >= 1
    ensures Written(Progress(g.buf[g.p := ds[g.i]][g.p - 1 := sep], g.p - 2, g.i - 1, Nth(groups, g.group, 1), 0),
                    ds, full, groups, sep, lead)
  {
    var i, end := g.i, g.i + 1 + g.done;
    LastGroup(ds, i, end, groups, g.group, sep);
    LayoutAtLeast(ds[..i], groups, Nth(groups, g.group, 1), sep);
    EndsGroupText(g.buf, g.p, Layout(ds[..i], groups, Nth(groups, g.group, 1), sep), sep, ds[i], ds[i + 1..end], full);
    var h := Progress(g.buf[g.p := ds[i]][g.p - 1 := sep], g.p - 2, i - 1, Nth(groups, g.group, 1), 0);
    WrittenAt(h, ds, full, groups, sep, lead, g.p - 1, g.p - 1, i, i);
  }

  lemma LastGroup(ds: seq<char>, i: nat, end: nat, groups: seq<int>, k: nat, sep: char)
    requires k < |groups| && Active(groups[k]) && 0 < i < end <= |ds| && end - i == groups[k]
    ensures Layout(ds[..end], groups, k, sep)
            == Layout(ds[..i], groups, Nth(groups, k, 1), sep) + ([sep, ds[i]] + ds[i + 1..end])
  {
    assert ds[..end][..i] == ds[..i] && ds[..end][i..] == [ds[i]] + ds[i + 1..end];
  }

  lemma EndsGroupText(buf: seq<char>, p: int, rest: seq<char>, sep: char, c: char, done: seq<char>, full: seq<char>)
    requires 0 < p && p + 1 + |done| <= |buf| && buf[p + 1..p + 1 + |done|] == done
    requires full == rest + ([sep, c] + done) + buf[p + 1 + |done|..]
    ensures full == rest + buf[p := c][p - 1 := sep][p - 1..]
  {
    assert buf[p + 1..] == done + buf[p + 1 + |done|..];
    assert buf[p := c][p - 1 := sep][p - 1..] == [sep, c] + buf[p + 1..];
  }

  lemma LastDigit(g: Progress, ds: seq<char>, full: seq<char>, groups: seq<int>, sep: char, lead: nat)
    requires Written(g, ds, full, groups, sep, lead) && g.i == 0 && g.p < |g.buf|
    ensures g.p == lead && g.buf[lead := ds[0]][lead..] == full
  {
    var done, p := g.done, g.p;
    assert Layout(ds[..1 + done], groups, g.group, sep) == ds[..1 + done];
    assert ds[..1 + done] == [ds[0]] + ds[1..1 + done];
    assert g.buf[p := ds[0]][p..] == [ds[0]] + g.buf[p + 1..p + 1 + done] + g.buf[p + 1 + done..];
  }

  lemma {:induction false} LayoutAtLeast(ds: seq<char>, groups: seq<int>, k: nat, sep: char)
    requires k < |groups|
    ensures |Layout(ds, groups, k, sep)| >= |ds|
    decreases |ds|
  {
    var g := groups[k];
    if Active(g) && |ds| > g {
      LayoutAtLeast(ds[..|ds| - g], groups, Nth(groups, k, 1), sep);
    }
  }
}
