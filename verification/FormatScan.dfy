/**
 * Scanning a format string into text, replacement fields and errors: a one-pass loop for short strings
 * and a two-pass search for long ones, which must tell the handler the same things.
 */
module FormatScan {
  import opened Decimal
  import opened IntegerText
  import opened Options

  datatype ArgRef = Auto | Index(i: int) | Named(name: string)

  datatype Problem = InvalidFormat | UnmatchedBrace | UnknownSpecifier | MissingBrace | Refused

  /** What a handler is told. An error, its own refusal included, is the last thing that happens. */
  datatype Event =
    | Text(s: string)
    | Arg(ref: ArgRef)
    | Field(id: int, at: nat)
    | Specs(id: int, from: nat)
    | Failed(problem: Problem)

  /**
   * A handler: which argument a reference denotes, where its specifiers end, and whether it accepts a
   * plain field; `None` or false when it throws. It may depend on everything it has been told, but not
   * on how text was cut into pieces.
   */
  datatype Handler = Handler(
    argId: (seq<Event>, ArgRef) -> Option<int>,
    specs: (seq<Event>, int, nat) -> Option<nat>,
    field: (seq<Event>, int, nat) -> bool)

  /** The events with empty text dropped and neighbouring pieces of text joined. */
  function Joined(events: seq<Event>): seq<Event>
  {
    if events == [] then [] else Join(Joined(events[..|events| - 1]), events[|events| - 1])
  }

  function Join(joined: seq<Event>, e: Event): seq<Event>
  {
    if !e.Text? then joined + [e]
    else if e.s == "" then joined
    else if joined != [] && joined[|joined| - 1].Text? then
      joined[..|joined| - 1] + [Text(joined[|joined| - 1].s + e.s)]
    else joined + [e]
  }

  lemma JoinedSnoc(events: seq<Event>, e: Event)
    ensures Joined(events + [e]) == Join(Joined(events), e)
  {
    assert (events + [e])[..|events|] == events;
  }

  /** Anything but text is simply added. */
  lemma Told(events: seq<Event>, e: Event)
    requires !e.Text?
    ensures Joined(events + [e]) == Joined(events) + [e]
  {
    JoinedSnoc(events, e);
  }

  /** Delivering a text in two pieces or at once is the same. */
  lemma JoinPieces(joined: seq<Event>, s: string, t: string)
    ensures Join(Join(joined, Text(s)), Text(t)) == Join(joined, Text(s + t))
  {
    if s == "" {
      assert s + t == t;
    } else if t == "" {
      assert s + t == s;
    } else {
      var j := Join(joined, Text(s));
      var n := |j| - 1;
      assert j[n].Text?;
      if joined != [] && joined[|joined| - 1].Text? {
        assert j[..n] == joined[..|joined| - 1];
        assert (joined[|joined| - 1].s + s) + t == joined[|joined| - 1].s + (s + t);
      } else {
        assert j[..n] == joined;
      }
    }
  }

  /** Text one character at a time, everything else as it is. */
  function Spread(events: seq<Event>): seq<Event>
  {
    if events == [] then [] else Spread(events[..|events| - 1]) + SpreadOne(events[|events| - 1])
  }

  function SpreadOne(e: Event): seq<Event>
  {
    if e.Text? then seq(|e.s|, i requires 0 <= i < |e.s| => Text([e.s[i]])) else [e]
  }

  lemma SpreadSnoc(events: seq<Event>, e: Event)
    ensures Spread(events + [e]) == Spread(events) + SpreadOne(e)
  {
    assert (events + [e])[..|events|] == events;
  }

  lemma SpreadText(s: string, t: string)
    ensures SpreadOne(Text(s + t)) == SpreadOne(Text(s)) + SpreadOne(Text(t))
  {
  }

  lemma JoinSpread(joined: seq<Event>, e: Event)
    ensures Spread(Join(joined, e)) == Spread(joined) + SpreadOne(e)
  {
    if e.Text? && e.s != "" && joined != [] && joined[|joined| - 1].Text? {
      var front, last := joined[..|joined| - 1], joined[|joined| - 1];
      assert joined == front + [last];
      SpreadSnoc(front, last);
      SpreadSnoc(front, Text(last.s + e.s));
      SpreadText(last.s, e.s);
    } else if e == Text("") {
      assert SpreadOne(e) == [];
    } else {
      SpreadSnoc(joined, e);
    }
  }

  /** Joining loses and invents nothing. */
  lemma {:induction false} JoinedSpread(events: seq<Event>)
    ensures Spread(Joined(events)) == Spread(events)
  {
    if events != [] {
      JoinedSpread(events[..|events| - 1]);
      JoinSpread(Joined(events[..|events| - 1]), events[|events| - 1]);
    }
  }

  lemma {:induction false} JoinOneByOne(events: seq<Event>, s: string)
    ensures Joined(events + SpreadOne(Text(s))) == Join(Joined(events), Text(s))
  {
    if s == "" {
      assert events + SpreadOne(Text(s)) == events;
    } else {
      var front, last := s[..|s| - 1], [s[|s| - 1]];
      assert s == front + last;
      JoinOneByOne(events, front);
      SpreadText(front, last);
      assert SpreadOne(Text(last)) == [Text(last)];
      assert events + SpreadOne(Text(s)) == events + SpreadOne(Text(front)) + [Text(last)];
      JoinedSnoc(events + SpreadOne(Text(front)), Text(last));
      JoinPieces(Joined(events), front, last);
    }
  }

  lemma {:induction false} SpreadJoined(events: seq<Event>)
    ensures Joined(Spread(events)) == Joined(events)
  {
    if events != [] {
      var front, last := events[..|events| - 1], events[|events| - 1];
      SpreadJoined(front);
      if last.Text? {
        JoinOneByOne(Spread(front), last.s);
      } else {
        JoinedSnoc(Spread(front), last);
      }
    }
  }

  /** Deliveries are joined to the same exactly if they tell the same characters and the same other events, in order. */
  lemma JoinedIff(a: seq<Event>, b: seq<Event>)
    ensures Joined(a) == Joined(b) <==> Spread(a) == Spread(b)
  {
    JoinedSpread(a);
    JoinedSpread(b);
    SpreadJoined(a);
    SpreadJoined(b);
  }

  predicate IsNameStart(c: char)
  {
    'a' <= c <= 'z' || 'A' <= c <= 'Z' || c == '_'
  }

  function NameEnd(fmt: string, i: nat): (j: nat)
    requires i <= |fmt|
    ensures i <= j <= |fmt|
    decreases |fmt| - i
  {
    if i < |fmt| && (IsNameStart(fmt[i]) || IsDigit(fmt[i])) then NameEnd(fmt, i + 1) else i
  }

  /** The argument reference at `p`, where a field's content starts, and where it ends. */
  function ArgRefAt(fmt: string, p: nat): (r: (Option<ArgRef>, nat))
    requires p < |fmt|
    ensures p <= r.1 <= |fmt|
  {
    var c := fmt[p];
    if c == '}' || c == ':' then (Some(Auto), p)
    else if IsDigit(c) then
      var end := if c != '0' then DigitsEnd(fmt, p) else p + 1;
      var index := if c != '0' then ParsedInt(fmt[p..end], INT_MAX) else 0;
      if end == |fmt| || (fmt[end] != '}' && fmt[end] != ':') then (None, end) else (Some(Index(index)), end)
    else if !IsNameStart(c) then (None, p)
    else (Some(Named(fmt[p..NameEnd(fmt, p + 1)])), NameEnd(fmt, p + 1))
  }

  /** What has been told, and where to go on; nowhere after an error. */
  datatype Step = Step(told: seq<Event>, next: Option<nat>)

  function Stop(told: seq<Event>, problem: Problem): Step
  {
    Step(told + [Failed(problem)], None)
  }

  /** The position just after the specifiers the handler consumed. */
  function SpecsEnd(fmt: string, h: Handler, told: seq<Event>, id: int, from: nat): (r: Option<nat>)
    requires from <= |fmt|
    ensures r.Some? ==> from <= r.value <= |fmt|
  {
    match h.specs(told, id, from)
    case None => None
    case Some(n) => if from + n <= |fmt| then Some(from + n) else Some(|fmt|)
  }

  /** A replacement field or an escaped brace, from its opening brace at `p`. */
  function ReplacementField(fmt: string, h: Handler, p: nat, told: seq<Event>): (r: Step)
    requires p < |fmt| && fmt[p] == '{'
    ensures r.next.Some? ==> p < r.next.value <= |fmt|
  {
    var b := p + 1;
    if b == |fmt| then Stop(told, InvalidFormat)
    else if fmt[b] == '{' then Step(Join(told, Text("{")), Some(b + 1))
    else
      var (ref, e) := ArgRefAt(fmt, b);
      if ref.None? then Stop(told, InvalidFormat)
      else
        var told1 := told + [Arg(ref.value)];
        var id := h.argId(told1, ref.value);
        if id.None? then Stop(told1, Refused)
        else FieldBody(fmt, h, e, id.value, told1)
  }

  /** What follows the argument reference: the closing brace or the specifiers. */
  function FieldBody(fmt: string, h: Handler, e: nat, id: int, told: seq<Event>): (r: Step)
    requires e <= |fmt|
    ensures r.next.Some? ==> e < r.next.value <= |fmt|
  {
    if e < |fmt| && fmt[e] == '}' then
      var told1 := told + [Field(id, e)];
      if h.field(told1, id, e) then Step(told1, Some(e + 1)) else Stop(told1, Refused)
    else if e < |fmt| && fmt[e] == ':' then
      var told1 := told + [Specs(id, e + 1)];
      var q := SpecsEnd(fmt, h, told1, id, e + 1);
      if q.None? then Stop(told1, Refused)
      else if q.value == |fmt| || fmt[q.value] != '}' then Stop(told1, UnknownSpecifier)
      else Step(told1, Some(q.value + 1))
    else Stop(told, MissingBrace)
  }

  /** The reference: one pass from `p`, with `fmt[begin..p]` read but not told yet. */
  function Scan(fmt: string, h: Handler, begin: nat, p: nat, told: seq<Event>): seq<Event>
    requires begin <= p <= |fmt|
    decreases |fmt| - p
  {
    if p == |fmt| then Join(told, Text(fmt[begin..]))
    else if fmt[p] == '{' then
      var step := ReplacementField(fmt, h, p, Join(told, Text(fmt[begin..p])));
      if step.next.None? then step.told else Scan(fmt, h, step.next.value, step.next.value, step.told)
    else if fmt[p] == '}' then
      if p + 1 == |fmt| || fmt[p + 1] != '}' then told + [Failed(UnmatchedBrace)]
      else Scan(fmt, h, p + 2, p + 2, Join(told, Text(fmt[begin..p + 1])))
    else Scan(fmt, h, begin, p + 1, told)
  }

  /** A name after its first character, one character at a time. */
  method ScanName(fmt: string, p: nat) returns (end: nat)
    requires p < |fmt|
    ensures end == NameEnd(fmt, p + 1)
  {
    end := p + 1;
    while end != |fmt| && (IsNameStart(fmt[end]) || IsDigit(fmt[end]))
      invariant p + 1 <= end <= |fmt| && NameEnd(fmt, end) == NameEnd(fmt, p + 1)
    {
      end := end + 1;
    }
  }

  /** `parse_arg_id` and `do_parse_arg_id`. */
  method ParseArgId(fmt: string, p: nat) returns (ref: Option<ArgRef>, end: nat)
    requires p < |fmt|
    ensures (ref, end) == ArgRefAt(fmt, p)
  {
    var c := fmt[p];
    if c == '}' || c == ':' {
      return Some(Auto), p;
    }
    if IsDigit(c) {
      var index := 0;
      end := p + 1;
      if c != '0' {
        index, end := ParseNonnegativeInt(fmt, p, INT_MAX);
      }
      if end == |fmt| || (fmt[end] != '}' && fmt[end] != ':') {
        return None, end;
      }
      return Some(Index(index)), end;
    }
    if !IsNameStart(c) {
      return None, p;
    }
    end := ScanName(fmt, p);
    return Some(Named(fmt[p..end])), end;
  }

  /** `parse_replacement_field`, appending to the events as they are delivered. */
  method ParseReplacementField(fmt: string, h: Handler, p: nat, events: seq<Event>)
    returns (delivered: seq<Event>, next: Option<nat>)
    requires p < |fmt| && fmt[p] == '{'
    ensures Step(Joined(delivered), next) == ReplacementField(fmt, h, p, Joined(events))
  {
    delivered := events;
    var b := p + 1;
    if b == |fmt| {
      Told(delivered, Failed(InvalidFormat));
      return delivered + [Failed(InvalidFormat)], None;
    }
    if fmt[b] == '{' {
      JoinedSnoc(delivered, Text(fmt[b..b + 1]));
      assert fmt[b..b + 1] == "{";
      return delivered + [Text(fmt[b..b + 1])], Some(b + 1);
    }
    var ref, e := ParseArgId(fmt, b);
    if ref.None? {
      Told(delivered, Failed(InvalidFormat));
      return delivered + [Failed(InvalidFormat)], None;
    }
    Told(delivered, Arg(ref.value));
    delivered := delivered + [Arg(ref.value)];
    var id := h.argId(Joined(delivered), ref.value);
    if id.None? {
      Told(delivered, Failed(Refused));
      return delivered + [Failed(Refused)], None;
    }
    delivered, next := ParseFieldBody(fmt, h, e, id.value, delivered);
  }

  method ParseFieldBody(fmt: string, h: Handler, e: nat, id: int, events: seq<Event>)
    returns (delivered: seq<Event>, next: Option<nat>)
    requires e <= |fmt|
    ensures Step(Joined(delivered), next) == FieldBody(fmt, h, e, id, Joined(events))
  {
    delivered := events;
    if e < |fmt| && fmt[e] == '}' {
      Told(delivered, Field(id, e));
      delivered := delivered + [Field(id, e)];
      if h.field(Joined(delivered), id, e) {
        return delivered, Some(e + 1);
      }
      Told(delivered, Failed(Refused));
      return delivered + [Failed(Refused)], None;
    }
    if e < |fmt| && fmt[e] == ':' {
      Told(delivered, Specs(id, e + 1));
      delivered := delivered + [Specs(id, e + 1)];
      var q := SpecsEnd(fmt, h, Joined(delivered), id, e + 1);
      if q.None? {
        Told(delivered, Failed(Refused));
        return delivered + [Failed(Refused)], None;
      }
      if q.value == |fmt| || fmt[q.value] != '}' {
        Told(delivered, Failed(UnknownSpecifier));
        return delivered + [Failed(UnknownSpecifier)], None;
      }
      return delivered, Some(q.value + 1);
    }
    Told(delivered, Failed(MissingBrace));
    return delivered + [Failed(MissingBrace)], None;
  }

  /** The simple loop. */
  method OnePass(fmt: string, h: Handler) returns (events: seq<Event>)
    ensures Joined(events) == Scan(fmt, h, 0, 0, [])
  {
    events := [];
    var begin, p, ok := 0, 0, true;
    while p != |fmt|
      invariant 0 <= begin <= p <= |fmt|
      invariant Scan(fmt, h, begin, p, Joined(events)) == Scan(fmt, h, 0, 0, [])
      decreases |fmt| - p
    {
      events, begin, p, ok := OneCharacter(fmt, h, begin, p, events);
      if !ok { return; }
    }
    JoinedSnoc(events, Text(fmt[begin..]));
    assert fmt[begin..] == fmt[begin..|fmt|];
    events := events + [Text(fmt[begin..])];
  }

  /** The body of the loop; false after an error. */
  method OneCharacter(fmt: string, h: Handler, from: nat, at: nat, told: seq<Event>)
    returns (events: seq<Event>, begin: nat, p: nat, ok: bool)
    requires from <= at < |fmt|
    ensures ok ==> at < p <= |fmt| && begin <= p
    ensures ok ==> Scan(fmt, h, begin, p, Joined(events)) == Scan(fmt, h, from, at, Joined(told))
    ensures !ok ==> Joined(events) == Scan(fmt, h, from, at, Joined(told))
  {
    events, begin, p := told, from, at;
    var c := fmt[p];
    if c == '{' {
      var next;
      events, next := OpeningBrace(fmt, h, begin, p, events);
      if next.None? { return events, begin, p, false; }
      return events, next.value, next.value, true;
    }
    if c == '}' {
      var next;
      events, next := ClosingBrace(fmt, h, begin, p, |fmt|, events);
      if next.None? { return events, begin, p, false; }
      return events, next.value, next.value, true;
    }
    return events, begin, p + 1, true;
  }

  /** Tells the text so far and reads a replacement field; nowhere to go on after an error. */
  method OpeningBrace(fmt: string, h: Handler, begin: nat, p: nat, told: seq<Event>)
    returns (events: seq<Event>, next: Option<nat>)
    requires begin <= p < |fmt| && fmt[p] == '{'
    ensures next.Some? ==> p < next.value <= |fmt|
    ensures Scan(fmt, h, begin, p, Joined(told))
            == if next.None? then Joined(events) else Scan(fmt, h, next.value, next.value, Joined(events))
  {
    JoinedSnoc(told, Text(fmt[begin..p]));
    events, next := ParseReplacementField(fmt, h, p, told + [Text(fmt[begin..p])]);
  }

  /** Tells the text up to a doubled brace before `end`; a single one is an error. */
  method ClosingBrace(fmt: string, h: Handler, begin: nat, p: nat, end: nat, told: seq<Event>)
    returns (events: seq<Event>, next: Option<nat>)
    requires begin <= p < end <= |fmt| && fmt[p] == '}' && (end == |fmt| || fmt[end] != '}')
    ensures next.Some? ==> p < next.value <= end
    ensures Scan(fmt, h, begin, p, Joined(told))
            == if next.None? then Joined(events) else Scan(fmt, h, next.value, next.value, Joined(events))
  {
    if p + 1 == end || fmt[p + 1] != '}' {
      Told(told, Failed(UnmatchedBrace));
      return told + [Failed(UnmatchedBrace)], None;
    }
    JoinedSnoc(told, Text(fmt[begin..p + 1]));
    return told + [Text(fmt[begin..p + 1])], Some(p + 2);
  }

  /** `memchr`: the first `c` in `fmt[from..to]`, or `to`. */
  method Find(fmt: string, from: nat, to: nat, c: char) returns (p: nat)
    requires from <= to <= |fmt|
    ensures from <= p <= to
    ensures forall i :: from <= i < p ==> fmt[i] != c
    ensures p < to ==> fmt[p] == c
  {
    p := from;
    while p != to
      invariant from <= p <= to
      invariant forall i :: from <= i < p ==> fmt[i] != c
    {
      if fmt[p] == c {
        return;
      }
      p := p + 1;
    }
  }

  /** Ordinary characters only move the scan forward. */
  lemma {:induction false} SkipOrdinary(fmt: string, h: Handler, begin: nat, p: nat, q: nat, told: seq<Event>)
    requires begin <= p <= q <= |fmt|
    requires forall i :: p <= i < q ==> fmt[i] != '{' && fmt[i] != '}'
    ensures Scan(fmt, h, begin, p, told) == Scan(fmt, h, begin, q, told)
    decreases q - p
  {
    if p < q {
      SkipOrdinary(fmt, h, begin, p + 1, q, told);
    }
  }

  /** Telling the text read so far early changes nothing. */
  lemma {:induction false} TellEarly(fmt: string, h: Handler, begin: nat, p: nat, told: seq<Event>)
    requires begin <= p <= |fmt| && (p == |fmt| || fmt[p] == '{')
    ensures Scan(fmt, h, begin, p, told) == Scan(fmt, h, p, p, Join(told, Text(fmt[begin..p])))
  {
    assert fmt[p..p] == "";
    if p == |fmt| {
      assert fmt[begin..] == fmt[begin..p] && fmt[p..] == "";
    }
  }

  /** The second pass, over a stretch without opening braces; false after an error. */
  method WriteText(fmt: string, h: Handler, begin: nat, end: nat, events: seq<Event>)
    returns (delivered: seq<Event>, ok: bool)
    requires begin <= end <= |fmt| && (end == |fmt| || fmt[end] == '{')
    requires forall i :: begin <= i < end ==> fmt[i] != '{'
    ensures ok ==> Scan(fmt, h, begin, begin, Joined(events)) == Scan(fmt, h, end, end, Joined(delivered))
    ensures !ok ==> Scan(fmt, h, begin, begin, Joined(events)) == Joined(delivered)
  {
    delivered := events;
    if begin == end {
      return delivered, true;
    }
    var b := begin;
    while true
      invariant begin <= b <= end
      invariant Scan(fmt, h, begin, begin, Joined(events)) == Scan(fmt, h, b, b, Joined(delivered))
      decreases end - b
    {
      var p := Find(fmt, b, end, '}');
      SkipOrdinary(fmt, h, b, b, p, Joined(delivered));
      if p == end {
        TellEarly(fmt, h, b, end, Joined(delivered));
        JoinedSnoc(delivered, Text(fmt[b..end]));
        return delivered + [Text(fmt[b..end])], true;
      }
      var next;
      delivered, next := ClosingBrace(fmt, h, b, p, end, delivered);
      if next.None? { return delivered, false; }
      b := next.value;
    }
  }

  /** The fast search: opening braces first, closing ones in the text between. */
  method TwoPass(fmt: string, h: Handler) returns (events: seq<Event>)
    ensures Joined(events) == Scan(fmt, h, 0, 0, [])
  {
    events := [];
    var begin := 0;
    while begin != |fmt|
      invariant begin <= |fmt|
      invariant Scan(fmt, h, begin, begin, Joined(events)) == Scan(fmt, h, 0, 0, [])
      decreases |fmt| - begin
    {
      var p := begin;
      if fmt[begin] != '{' {
        p := Find(fmt, begin + 1, |fmt|, '{');
      }
      var ok;
      events, ok := WriteText(fmt, h, begin, p, events);
      if !ok {
        return;
      }
      if p == |fmt| {
        assert fmt[p..] == "";
        return;
      }
      assert fmt[p..p] == "";
      var next;
      events, next := ParseReplacementField(fmt, h, p, events);
      if next.None? {
        return;
      }
      begin := next.value;
    }
    assert fmt[begin..] == "";
  }

  /** `parse_format_string`: which path is taken depends on the length alone. */
  method ParseFormatString(fmt: string, h: Handler) returns (events: seq<Event>)
    ensures Joined(events) == Scan(fmt, h, 0, 0, [])
  {
    if |fmt| < 32 {
      events := OnePass(fmt, h);
    } else {
      events := TwoPass(fmt, h);
    }
  }
}
