/**
 * What a format string means: pieces of text and replacement fields, written one after the other. Scanning
 * tells a handler exactly what the pieces say, and each kind of mistake ends the scan with its own error.
 */
module FormatPieces {
  import opened Decimal
  import opened FormatScan
  import opened IntegerText
  import opened Options

  /** Text with its braces doubled. */
  function Escape(s: string): string
  {
    if s == "" then ""
    else if s[0] == '{' || s[0] == '}' then [s[0], s[0]] + Escape(s[1..])
    else [s[0]] + Escape(s[1..])
  }

  const DIGITS := "0123456789"
  const SMALL := "abcdefghijklmnopqrstuvwxyz"
  const CAPITAL := "ABCDEFGHIJKLMNOPQRSTUVWXYZ"

  /** Names start with a letter or an underscore, and go on with these and digits. */
  lemma NameCharacters(c: char)
    ensures IsNameStart(c) <==> c in SMALL || c in CAPITAL || c == '_'
    ensures IsDigit(c) <==> c in DIGITS
  {
    SmallLetters(c);
    CapitalLetters(c);
    if IsDigit(c) { assert DIGITS[c as int - '0' as int] == c; }
  }

  lemma SmallLetters(c: char)
    ensures c in SMALL <==> 'a' <= c <= 'z'
  {
    if 'a' <= c <= 'z' { assert SMALL[c as int - 'a' as int] == c; }
  }

  lemma CapitalLetters(c: char)
    ensures c in CAPITAL <==> 'A' <= c <= 'Z'
  {
    if 'A' <= c <= 'Z' { assert CAPITAL[c as int - 'A' as int] == c; }
  }

  /** How an argument is referred to. */
  datatype Source = Automatic | Number(digits: string) | Name(name: string)

  /** A number has no superfluous zero in front; a name is an identifier. */
  predicate Written(r: Source)
  {
    match r
    case Automatic => true
    case Number(digits) => digits != "" && AllDigits(digits) && (digits[0] == '0' ==> |digits| == 1)
    case Name(name) => name != "" && IsNameStart(name[0]) && AllNameCharacters(name)
  }

  predicate IsNameCharacter(c: char) { IsNameStart(c) || IsDigit(c) }

  predicate AllNameCharacters(s: string) { forall i :: 0 <= i < |s| ==> IsNameCharacter(s[i]) }

  function SourceText(r: Source): string
  {
    match r
    case Automatic => ""
    case Number(digits) => digits
    case Name(name) => name
  }

  /** The argument referred to; numbers too large for an int stand for the largest one. */
  function Meaning(r: Source): ArgRef
  {
    match r
    case Automatic => Auto
    case Number(digits) => Index(if DecVal(digits) <= INT_MAX then DecVal(digits) else INT_MAX)
    case Name(name) => Named(name)
  }

  datatype Piece = Literal(s: string) | Plain(source: Source) | Styled(source: Source, specs: string)

  predicate PieceWritten(piece: Piece) { piece.Literal? || Written(piece.source) }

  function Width(piece: Piece): nat
  {
    match piece
    case Literal(s) => |Escape(s)|
    case Plain(r) => |SourceText(r)| + 2
    case Styled(r, specs) => |SourceText(r)| + |specs| + 3
  }

  function PieceText(piece: Piece): (t: string)
    ensures |t| == Width(piece)
  {
    match piece
    case Literal(s) => Escape(s)
    case Plain(r) => "{" + SourceText(r) + "}"
    case Styled(r, specs) => "{" + SourceText(r) + ":" + specs + "}"
  }

  function Render(pieces: seq<Piece>): string
  {
    if pieces == [] then "" else PieceText(pieces[0]) + Render(pieces[1..])
  }

  /** What the handler makes of a reference, having been told about it. */
  function ArgOf(h: Handler, r: Source, told: seq<Event>): Option<int>
  {
    h.argId(told + [Arg(Meaning(r))], Meaning(r))
  }

  /** The handler takes the piece at the position; of specifiers it consumes all. */
  predicate Accepts(h: Handler, at: nat, piece: Piece, told: seq<Event>)
  {
    match piece
    case Literal(s) => true
    case Plain(r) =>
      ArgOf(h, r, told).Some? && h.field(ToldBy(h, at, piece, told), ArgOf(h, r, told).value, Close(at, r))
    case Styled(r, specs) => ArgOf(h, r, told).Some? && Consumed(h, at, r, told) == Some(|specs|)
  }

  /** How many characters of specifiers the handler takes. */
  function Consumed(h: Handler, at: nat, r: Source, told: seq<Event>): Option<nat>
    requires ArgOf(h, r, told).Some?
  {
    h.specs(ToldBy(h, at, Styled(r, ""), told), ArgOf(h, r, told).value, Close(at, r) + 1)
  }

  /** The position after the reference of a field. */
  function Close(at: nat, r: Source): nat { at + 1 + |SourceText(r)| }

  /** The events of one piece: text, or the argument and then the field or its specifiers. */
  function ToldBy(h: Handler, at: nat, piece: Piece, told: seq<Event>): seq<Event>
    requires piece.Literal? || ArgOf(h, piece.source, told).Some?
  {
    match piece
    case Literal(s) => Join(told, Text(s))
    case Plain(r) => told + [Arg(Meaning(r)), Field(ArgOf(h, r, told).value, Close(at, r))]
    case Styled(r, specs) => told + [Arg(Meaning(r)), Specs(ArgOf(h, r, told).value, Close(at, r) + 1)]
  }

  predicate AllWritten(pieces: seq<Piece>) { forall i :: 0 <= i < |pieces| ==> PieceWritten(pieces[i]) }

  predicate AllAccepted(h: Handler, at: nat, pieces: seq<Piece>, told: seq<Event>)
    decreases |pieces|
  {
    pieces == [] ||
    (Accepts(h, at, pieces[0], told)
     && AllAccepted(h, at + Width(pieces[0]), pieces[1..], ToldBy(h, at, pieces[0], told)))
  }

  function AllTold(h: Handler, at: nat, pieces: seq<Piece>, told: seq<Event>): seq<Event>
    requires AllAccepted(h, at, pieces, told)
    decreases |pieces|
  {
    if pieces == [] then told
    else AllTold(h, at + Width(pieces[0]), pieces[1..], ToldBy(h, at, pieces[0], told))
  }

  /** What has been told once the text read so far is told too. */
  function Spoken(fmt: string, begin: nat, p: nat, told: seq<Event>): seq<Event>
    requires begin <= p <= |fmt|
  {
    Join(told, Text(fmt[begin..p]))
  }

  /** A doubled brace tells the text up to and including its first half. */
  lemma DoubledBrace(fmt: string, h: Handler, begin: nat, p: nat, told: seq<Event>)
    requires begin <= p && p + 1 < |fmt| && fmt[p] == fmt[p + 1] && (fmt[p] == '{' || fmt[p] == '}')
    ensures Scan(fmt, h, begin, p, told) == Scan(fmt, h, p + 2, p + 2, Join(told, Text(fmt[begin..p + 1])))
  {
    if fmt[p] == '{' {
      DoubledOpenBrace(fmt, h, begin, p, told);
    }
  }

  lemma DoubledOpenBrace(fmt: string, h: Handler, begin: nat, p: nat, told: seq<Event>)
    requires begin <= p && p + 1 < |fmt| && fmt[p] == fmt[p + 1] == '{'
    ensures ReplacementField(fmt, h, p, Join(told, Text(fmt[begin..p])))
            == Step(Join(told, Text(fmt[begin..p + 1])), Some(p + 2))
  {
    EscapedBrace(fmt, h, p, Join(told, Text(fmt[begin..p])));
    BraceAfter(fmt, begin, p);
    JoinPieces(told, fmt[begin..p], "{");
  }

  lemma EscapedBrace(fmt: string, h: Handler, p: nat, told: seq<Event>)
    requires p + 1 < |fmt| && fmt[p] == fmt[p + 1] == '{'
    ensures ReplacementField(fmt, h, p, told) == Step(Join(told, Text("{")), Some(p + 2))
  {
  }

  lemma BraceAfter(fmt: string, begin: nat, p: nat)
    requires begin <= p < |fmt| && fmt[p] == '{'
    ensures fmt[begin..p] + "{" == fmt[begin..p + 1]
  {
  }

  lemma OtherCharacter(fmt: string, h: Handler, begin: nat, p: nat, told: seq<Event>)
    requires begin <= p < |fmt| && fmt[p] != '{' && fmt[p] != '}'
    ensures Scan(fmt, h, begin, p, told) == Scan(fmt, h, begin, p + 1, told)
  {
  }

  lemma {:induction false} NameEndAt(fmt: string, i: nat, e: nat)
    requires i <= e <= |fmt| && forall k :: i <= k < e ==> IsNameCharacter(fmt[k])
    requires e < |fmt| ==> !IsNameCharacter(fmt[e])
    ensures NameEnd(fmt, i) == e
    decreases e - i
  {
    if i < e { NameEndAt(fmt, i + 1, e); }
  }

  lemma {:induction false} DigitsEndAt(fmt: string, i: nat, e: nat)
    requires i <= e <= |fmt| && forall k :: i <= k < e ==> IsDigit(fmt[k])
    requires e < |fmt| ==> !IsDigit(fmt[e])
    ensures DigitsEnd(fmt, i) == e
    decreases e - i
  {
    if i < e { DigitsEndAt(fmt, i + 1, e); }
  }

  /** `part` stands in the string at the place. */
  predicate Stands(fmt: string, p: nat, part: string) { p + |part| <= |fmt| && fmt[p..p + |part|] == part }

  lemma NumberDenoted(digits: string)
    requires Written(Number(digits))
    ensures AllDigits(digits) && Meaning(Number(digits)) == Index(ParsedInt(digits, INT_MAX))
    ensures digits[0] == '0' ==> Meaning(Number(digits)) == Index(0)
  {
    FormatAfterParse(digits);
    if DecVal(digits) <= INT_MAX { ParseAfterFormat(DecVal(digits), "", INT_MAX); }
    if digits[0] == '0' {
      assert digits == "0";
      OneDigitText('0');
    }
  }

  lemma NumberRead(fmt: string, b: nat, digits: string)
    requires Written(Number(digits)) && Stands(fmt, b, digits)
    requires var e := b + |digits|; e < |fmt| && (fmt[e] == '}' || fmt[e] == ':')
    ensures ArgRefAt(fmt, b) == (Some(Meaning(Number(digits))), b + |digits|)
  {
    var e := b + |digits|;
    NumberDenoted(digits);
    assert forall k :: b <= k < e ==> fmt[k] == digits[k - b];
    DigitsEndAt(fmt, b, e);
  }

  lemma NameRead(fmt: string, b: nat, name: string)
    requires Written(Name(name)) && Stands(fmt, b, name)
    requires var e := b + |name|; e < |fmt| ==> !IsNameCharacter(fmt[e])
    ensures ArgRefAt(fmt, b) == (Some(Named(name)), b + |name|)
  {
    var e := b + |name|;
    assert forall k :: b <= k < e ==> fmt[k] == name[k - b];
    NameEndAt(fmt, b + 1, e);
  }

  lemma SourceRead(fmt: string, b: nat, r: Source)
    requires Written(r) && Stands(fmt, b, SourceText(r))
    requires var e := b + |SourceText(r)|; e < |fmt| && (fmt[e] == '}' || fmt[e] == ':')
    ensures ArgRefAt(fmt, b) == (Some(Meaning(r)), b + |SourceText(r)|) && fmt[b] != '{'
  {
    match r
    case Automatic =>
    case Number(digits) =>
      NumberRead(fmt, b, digits);
      NumberDenoted(digits);
      assert fmt[b] == digits[0];
    case Name(name) =>
      NameRead(fmt, b, name);
      assert fmt[b] == name[0];
  }

  /** An opening brace, a reference, and the character after it at `e`. */
  predicate HeadStands(fmt: string, p: nat, r: Source, c: char, e: nat)
  {
    p < |fmt| && fmt[p] == '{' && Stands(fmt, p + 1, SourceText(r)) && e == Close(p, r) && e < |fmt| && fmt[e] == c
  }

  /** The piece stands from `p` to `q`. */
  predicate Laid(fmt: string, p: nat, piece: Piece, q: nat)
  {
    p <= q <= |fmt| &&
    match piece
    case Literal(s) => Stands(fmt, p, Escape(s)) && q == p + |Escape(s)|
    case Plain(r) => HeadStands(fmt, p, r, '}', Close(p, r)) && q == Close(p, r) + 1
    case Styled(r, specs) =>
      && HeadStands(fmt, p, r, ':', Close(p, r)) && q == Close(p, r) + 1 + |specs| + 1
      && fmt[q - 1] == '}'
  }

  predicate AllLaid(fmt: string, p: nat, pieces: seq<Piece>, q: nat)
    decreases |pieces|
  {
    if pieces == [] then p == q <= |fmt|
    else
      var p1 := p + Width(pieces[0]);
      Laid(fmt, p, pieces[0], p1) && AllLaid(fmt, p1, pieces[1..], q)
  }

  lemma {:induction false} RenderedIsLaid(fmt: string, p: nat, pieces: seq<Piece>, q: nat)
    requires Stands(fmt, p, Render(pieces)) && q == p + |Render(pieces)|
    ensures AllLaid(fmt, p, pieces, q)
    decreases |pieces|
  {
    if pieces != [] {
      var p1 := p + Width(pieces[0]);
      FirstStands(fmt, p, PieceText(pieces[0]), Render(pieces[1..]), Render(pieces), q, p1);
      PieceIsLaid(fmt, p, pieces[0], p1);
      RenderedIsLaid(fmt, p1, pieces[1..], q);
    }
  }

  lemma FirstStands(fmt: string, p: nat, first: string, rest: string, both: string, q: nat, p1: nat)
    requires Stands(fmt, p, both) && both == first + rest && q == p + |both| && p1 == p + |first|
    ensures Stands(fmt, p, first) && Stands(fmt, p1, rest) && q == p1 + |rest|
  {
    StandsInTwo(fmt, p, first, rest, both);
  }

  lemma PieceIsLaid(fmt: string, p: nat, piece: Piece, q: nat)
    requires Stands(fmt, p, PieceText(piece)) && q == p + Width(piece)
    ensures Laid(fmt, p, piece, q)
  {
    match piece
    case Literal(s) =>
    case Plain(r) => HeadText(fmt, p, r, '}', "", PieceText(piece));
    case Styled(r, specs) =>
      HeadText(fmt, p, r, ':', specs + "}", PieceText(piece));
      SpecsEndAt(fmt, Close(p, r) + 1, specs);
  }

  /** A field that the handler takes is read to its closing brace, with its own events. */
  lemma FieldRead(fmt: string, h: Handler, p: nat, piece: Piece, told: seq<Event>, q: nat)
    requires !piece.Literal? && Written(piece.source) && Laid(fmt, p, piece, q) && Accepts(h, p, piece, told)
    ensures fmt[p] == '{' && ReplacementField(fmt, h, p, told) == Step(ToldBy(h, p, piece, told), Some(q))
  {
    match piece
    case Plain(r) => PlainField(fmt, h, p, r, told, Close(p, r));
    case Styled(r, specs) => StyledTaken(fmt, h, p, r, specs, told, Close(p, r), q);
  }

  lemma StyledTaken(fmt: string, h: Handler, p: nat, r: Source, specs: string, told: seq<Event>, e: nat, q: nat)
    requires Written(r) && HeadStands(fmt, p, r, ':', e) && ArgOf(h, r, told).Some?
    requires q == e + 1 + |specs| + 1 <= |fmt| && fmt[q - 1] == '}' && Consumed(h, p, r, told) == Some(|specs|)
    ensures ReplacementField(fmt, h, p, told) == Step(ToldBy(h, p, Styled(r, specs), told), Some(q))
  {
    var next := ToldBy(h, p, Styled(r, specs), told);
    StyledField(fmt, h, p, r, told, e, Some(|specs|), next);
    SpecsTaken(fmt, e + 1, |specs|, next, q);
  }

  lemma SpecsTaken(fmt: string, from: nat, n: nat, told: seq<Event>, q: nat)
    requires q == from + n + 1 <= |fmt| && fmt[q - 1] == '}'
    ensures AfterSpecs(fmt, from, Some(n), told) == Step(told, Some(q))
  {
  }

  lemma SpecsEndAt(fmt: string, from: nat, specs: string)
    requires Stands(fmt, from, specs + "}")
    ensures |specs| < |fmt[from..]| && fmt[from..][|specs|] == '}'
  {
    assert fmt[from..from + |specs| + 1][|specs|] == '}';
  }

  /** Where the parts of a field stand. */
  lemma HeadText(fmt: string, p: nat, r: Source, c: char, rest: string, text: string)
    requires Stands(fmt, p, text) && text == "{" + SourceText(r) + [c] + rest
    ensures HeadStands(fmt, p, r, c, Close(p, r)) && Stands(fmt, Close(p, r) + 1, rest)
    ensures |text| == 1 + |SourceText(r)| + 1 + |rest|
  {
    StandsInTwo(fmt, p, "{" + SourceText(r) + [c], rest, text);
    StandsInTwo(fmt, p, "{" + SourceText(r), [c], "{" + SourceText(r) + [c]);
    StandsInTwo(fmt, p, "{", SourceText(r), "{" + SourceText(r));
    assert fmt[p..p + 1] == "{" && fmt[Close(p, r)..Close(p, r) + 1] == [c];
  }

  predicate IsBrace(c: char) { c == '{' || c == '}' }

  /** Escaped text is read as itself; what follows a brace in it has not been told yet. */
  lemma {:induction false} LiteralRead(fmt: string, h: Handler, begin: nat, p: nat, told: seq<Event>, s: string,
                                       q: nat, spoken: seq<Event>)
    returns (b: nat, t: seq<Event>)
    requires begin <= p <= |fmt| && Stands(fmt, p, Escape(s)) && q == p + |Escape(s)|
    requires spoken == Spoken(fmt, begin, p, told)
    ensures b <= q && Scan(fmt, h, begin, p, told) == Scan(fmt, h, b, q, t)
    ensures Spoken(fmt, b, q, t) == Join(spoken, Text(s))
    ensures (s == "" ==> b == begin) && (s != "" && IsBrace(s[|s| - 1]) ==> b == q)
    decreases |s|
  {
    if s == "" {
      b, t := begin, told;
    } else {
      var p1 := EscapedCharacter(fmt, p, s);
      var spoken1 := Join(spoken, Text([s[0]]));
      var b1, t1 := CharacterRead(fmt, h, begin, p, told, s[0], p1, spoken);
      b, t := LiteralRead(fmt, h, b1, p1, t1, s[1..], q, spoken1);
      JoinFirst(spoken, s, spoken1);
    }
  }

  lemma JoinFirst(spoken: seq<Event>, s: string, first: seq<Event>)
    requires s != "" && first == Join(spoken, Text([s[0]]))
    ensures Join(first, Text(s[1..])) == Join(spoken, Text(s))
    ensures if s[1..] == "" then s[|s| - 1] == s[0] else s[|s| - 1] == s[1..][|s[1..]| - 1]
  {
    JoinPieces(spoken, [s[0]], s[1..]);
    assert [s[0]] + s[1..] == s;
  }

  lemma EscapedCharacter(fmt: string, p: nat, s: string) returns (q: nat)
    requires p <= |fmt| && s != "" && Stands(fmt, p, Escape(s))
    ensures q == p + (if IsBrace(s[0]) then 2 else 1) <= |fmt| && fmt[p] == s[0]
    ensures IsBrace(s[0]) ==> fmt[p + 1] == s[0]
    ensures Stands(fmt, q, Escape(s[1..])) && q + |Escape(s[1..])| == p + |Escape(s)|
  {
    var head := if IsBrace(s[0]) then [s[0], s[0]] else [s[0]];
    StandsInTwo(fmt, p, head, Escape(s[1..]), Escape(s));
    q := p + |head|;
    assert forall i :: 0 <= i < |head| ==> fmt[p + i] == fmt[p..q][i];
  }

  /** A character that is no brace, or a doubled brace. */
  lemma CharacterRead(fmt: string, h: Handler, begin: nat, p: nat, told: seq<Event>, c: char, q: nat,
                      spoken: seq<Event>)
    returns (b: nat, t: seq<Event>)
    requires begin <= p < |fmt| && fmt[p] == c && (IsBrace(c) ==> p + 1 < |fmt| && fmt[p + 1] == c)
    requires q == p + (if IsBrace(c) then 2 else 1) && spoken == Spoken(fmt, begin, p, told)
    ensures b <= q && Scan(fmt, h, begin, p, told) == Scan(fmt, h, b, q, t)
    ensures Spoken(fmt, b, q, t) == Join(spoken, Text([c]))
    ensures b == if IsBrace(c) then q else begin
  {
    assert fmt[begin..p] + [c] == fmt[begin..p + 1];
    JoinPieces(told, fmt[begin..p], [c]);
    if IsBrace(c) {
      DoubledBrace(fmt, h, begin, p, told);
      b, t := p + 2, Join(told, Text(fmt[begin..p + 1]));
      assert fmt[p + 2..p + 2] == "";
    } else {
      OtherCharacter(fmt, h, begin, p, told);
      b, t := begin, told;
    }
  }

  /** A piece after which no text is waiting to be told. */
  predicate EndsTold(piece: Piece)
  {
    piece.Literal? ==> piece.s != "" && IsBrace(piece.s[|piece.s| - 1])
  }

  lemma PieceRead(fmt: string, h: Handler, begin: nat, p: nat, told: seq<Event>, piece: Piece, q: nat,
                  spoken: seq<Event>, next: seq<Event>)
    returns (b: nat, t: seq<Event>)
    requires begin <= p && PieceWritten(piece) && Laid(fmt, p, piece, q)
    requires spoken == Spoken(fmt, begin, p, told) && Accepts(h, p, piece, spoken)
    requires next == ToldBy(h, p, piece, spoken)
    ensures b <= q && Scan(fmt, h, begin, p, told) == Scan(fmt, h, b, q, t) && Spoken(fmt, b, q, t) == next
    ensures EndsTold(piece) ==> b == q
  {
    if piece.Literal? {
      b, t := LiteralRead(fmt, h, begin, p, told, piece.s, q, spoken);
    } else {
      FieldRead(fmt, h, p, piece, spoken, q);
      b, t := q, next;
      assert fmt[b..b] == "";
    }
  }

  /** Pieces are told one after the other, whatever follows them. */
  lemma {:induction false} PiecesRead(fmt: string, h: Handler, begin: nat, p: nat, told: seq<Event>, pieces: seq<Piece>,
                                      q: nat, spoken: seq<Event>, all: seq<Event>)
    returns (b: nat, t: seq<Event>)
    requires begin <= p <= |fmt| && AllWritten(pieces) && AllLaid(fmt, p, pieces, q)
    requires spoken == Spoken(fmt, begin, p, told) && AllAccepted(h, p, pieces, spoken)
    requires all == AllTold(h, p, pieces, spoken)
    ensures b <= q <= |fmt| && Scan(fmt, h, begin, p, told) == Scan(fmt, h, b, q, t) && Spoken(fmt, b, q, t) == all
    decreases |pieces|
  {
    if pieces == [] {
      b, t := begin, told;
    } else {
      var first, rest, p1 := pieces[0], pieces[1..], p + Width(pieces[0]);
      TailWritten(pieces);
      FirstLaid(fmt, p, pieces, q, p1);
      var next := FirstTold(h, p, pieces, spoken, p1, all);
      var b1, t1 := PieceRead(fmt, h, begin, p, told, first, p1, spoken, next);
      b, t := PiecesRead(fmt, h, b1, p1, t1, rest, q, next, all);
    }
  }

  lemma FirstLaid(fmt: string, p: nat, pieces: seq<Piece>, q: nat, p1: nat)
    requires pieces != [] && AllLaid(fmt, p, pieces, q) && p1 == p + Width(pieces[0])
    ensures p1 <= |fmt| && Laid(fmt, p, pieces[0], p1) && AllLaid(fmt, p1, pieces[1..], q)
  {
  }

  lemma TailWritten(pieces: seq<Piece>)
    requires pieces != [] && AllWritten(pieces)
    ensures PieceWritten(pieces[0]) && AllWritten(pieces[1..])
  {
  }

  lemma FirstTold(h: Handler, p: nat, pieces: seq<Piece>, told: seq<Event>, p1: nat, all: seq<Event>)
    returns (next: seq<Event>)
    requires pieces != [] && AllAccepted(h, p, pieces, told) && p1 == p + Width(pieces[0])
    requires all == AllTold(h, p, pieces, told)
    ensures Accepts(h, p, pieces[0], told) && next == ToldBy(h, p, pieces[0], told)
    ensures AllAccepted(h, p1, pieces[1..], next) && all == AllTold(h, p1, pieces[1..], next)
  {
    next := ToldBy(h, p, pieces[0], told);
  }

  lemma StandsInTwo(fmt: string, p: nat, first: string, rest: string, both: string)
    requires Stands(fmt, p, both) && both == first + rest
    ensures Stands(fmt, p, first) && Stands(fmt, p + |first|, rest) && |both| == |first| + |rest|
  {
    assert both[..|first|] == first && both[|first|..] == rest;
    assert fmt[p..p + |first|] == both[..|first|];
    assert fmt[p + |first|..p + |both|] == both[|first|..];
  }

  /**
   * Scanning pieces that are written properly, for a handler that takes them, tells it exactly what they say:
   * the text, the arguments by the number or the name written, and the places of fields and specifiers.
   */
  lemma PiecesRoundTrip(pieces: seq<Piece>, h: Handler)
    requires AllWritten(pieces) && AllAccepted(h, 0, pieces, [])
    ensures Scan(Render(pieces), h, 0, 0, []) == AllTold(h, 0, pieces, [])
  {
    var fmt := Render(pieces);
    assert fmt[0..0] == "" && fmt[0..|fmt|] == fmt;
    RenderedIsLaid(fmt, 0, pieces, |fmt|);
    var b, t := PiecesRead(fmt, h, 0, 0, [], pieces, |fmt|, [], AllTold(h, 0, pieces, []));
    assert fmt[b..] == fmt[b..|fmt|];
  }

  /** Scanning escaped text gives the text back, whatever the handler. */
  lemma EscapeRoundTrip(s: string, h: Handler)
    ensures Scan(Escape(s), h, 0, 0, []) == if s == "" then [] else [Text(s)]
  {
    var pieces := [Literal(s)];
    assert Render(pieces) == Escape(s) + "" == Escape(s);
    PiecesRoundTrip(pieces, h);
    assert AllTold(h, 0, pieces, []) == Join([], Text(s));
  }

  /** What can be wrong from an opening brace on. */
  datatype Flaw =
    | NothingInside
    | NoReference
    | OpenNumber(digits: string)
    | OpenName(name: string)
    | ArgRefused(source: Source)
    | FieldRefused(source: Source)
    | SpecsRefused(source: Source)
    | SpecsOpen(source: Source)

  function FlawText(f: Flaw): string
  {
    match f
    case NothingInside => "{"
    case NoReference => "{"
    case OpenNumber(digits) => "{" + digits
    case OpenName(name) => "{" + name
    case ArgRefused(r) => "{" + SourceText(r)
    case FieldRefused(r) => "{" + SourceText(r) + "}"
    case SpecsRefused(r) => "{" + SourceText(r) + ":"
    case SpecsOpen(r) => "{" + SourceText(r) + ":"
  }

  predicate ClosesField(rest: string) { rest != "" && (rest[0] == '}' || rest[0] == ':') }

  predicate NameGoesOn(rest: string) { rest != "" && IsNameCharacter(rest[0]) }

  /** What follows, or the handler's answer, makes it wrong. */
  predicate IsFlaw(h: Handler, at: nat, f: Flaw, rest: string, told: seq<Event>)
  {
    match f
    case NothingInside => rest == ""
    case NoReference => rest != "" && rest[0] != '{' && !ClosesField(rest) && !NameGoesOn(rest)
    case OpenNumber(digits) =>
      && Written(Number(digits)) && !ClosesField(rest)
      && (digits == "0" || rest == "" || !IsDigit(rest[0]))
    case OpenName(name) =>
      Written(Name(name)) && !ClosesField(rest) && !NameGoesOn(rest) && ArgOf(h, Name(name), told).Some?
    case ArgRefused(r) =>
      Written(r) && ArgOf(h, r, told).None? && if r.Name? then !NameGoesOn(rest) else ClosesField(rest)
    case FieldRefused(r) =>
      && Written(r) && ArgOf(h, r, told).Some?
      && !h.field(ToldBy(h, at, Plain(r), told), ArgOf(h, r, told).value, Close(at, r))
    case SpecsRefused(r) => Written(r) && ArgOf(h, r, told).Some? && Consumed(h, at, r, told).None?
    case SpecsOpen(r) =>
      && Written(r) && ArgOf(h, r, told).Some? && Consumed(h, at, r, told).Some?
      && var n := Consumed(h, at, r, told).value; n < |rest| ==> rest[n] != '}'
  }

  /** The events of a flaw; its error is the last one. */
  function FlawTold(h: Handler, at: nat, f: Flaw, rest: string, told: seq<Event>): seq<Event>
    requires IsFlaw(h, at, f, rest, told)
  {
    match f
    case NothingInside => told + [Failed(InvalidFormat)]
    case NoReference => told + [Failed(InvalidFormat)]
    case OpenNumber(digits) => told + [Failed(InvalidFormat)]
    case OpenName(name) => told + [Arg(Named(name)), Failed(MissingBrace)]
    case ArgRefused(r) => told + [Arg(Meaning(r)), Failed(Refused)]
    case FieldRefused(r) => ToldBy(h, at, Plain(r), told) + [Failed(Refused)]
    case SpecsRefused(r) => ToldBy(h, at, Styled(r, ""), told) + [Failed(Refused)]
    case SpecsOpen(r) => ToldBy(h, at, Styled(r, ""), told) + [Failed(UnknownSpecifier)]
  }

  /** The argument reference of a number that is not closed. */
  lemma OpenNumberRead(fmt: string, b: nat, digits: string, rest: string)
    requires Written(Number(digits)) && Stands(fmt, b, digits) && fmt[b + |digits|..] == rest && !ClosesField(rest)
    requires digits == "0" || rest == "" || !IsDigit(rest[0])
    ensures ArgRefAt(fmt, b).0 == None && fmt[b] != '{'
  {
    var e := b + |digits|;
    NumberDenoted(digits);
    assert forall k :: b <= k < e ==> fmt[k] == digits[k - b];
    assert e < |fmt| ==> fmt[e] == rest[0];
    if digits[0] == '0' {
      assert digits == "0";
    } else {
      DigitsEndAt(fmt, b, e);
    }
  }

  /** A name may also be followed by the end or by anything else that does not go on with it. */
  lemma SourceEnds(fmt: string, b: nat, r: Source, rest: string)
    requires Written(r) && Stands(fmt, b, SourceText(r)) && fmt[b + |SourceText(r)|..] == rest
    requires if r.Name? then !NameGoesOn(rest) else ClosesField(rest)
    ensures b < |fmt| && ArgRefAt(fmt, b) == (Some(Meaning(r)), b + |SourceText(r)|) && fmt[b] != '{'
  {
    var e := b + |SourceText(r)|;
    assert e < |fmt| ==> fmt[e] == rest[0];
    if r.Name? {
      NameRead(fmt, b, r.name);
      assert fmt[b] == r.name[0];
    } else {
      SourceRead(fmt, b, r);
    }
  }

  lemma FlawRead(fmt: string, h: Handler, p: nat, f: Flaw, told: seq<Event>, rest: string)
    requires Stands(fmt, p, FlawText(f)) && fmt[p + |FlawText(f)|..] == rest && IsFlaw(h, p, f, rest, told)
    ensures p < |fmt| && fmt[p] == '{'
    ensures ReplacementField(fmt, h, p, told) == Step(FlawTold(h, p, f, rest, told), None)
  {
    FlawStarts(fmt, p, f);
    match f
    case NothingInside =>
    case NoReference => NoReferenceRead(fmt, h, p, told, rest);
    case OpenNumber(digits) => NumberOpenRead(fmt, h, p, digits, told, rest);
    case OpenName(name) => OpenNameRead(fmt, h, p, name, told, rest);
    case ArgRefused(r) => ArgRefusedRead(fmt, h, p, r, told, rest);
    case _ => RefusedRead(fmt, h, p, f, told, rest);
  }

  lemma ArgRefusedRead(fmt: string, h: Handler, p: nat, r: Source, told: seq<Event>, rest: string)
    requires p < |fmt| && fmt[p] == '{' && Stands(fmt, p, "{" + SourceText(r))
    requires fmt[p + |"{" + SourceText(r)|..] == rest
    requires IsFlaw(h, p, ArgRefused(r), rest, told)
    ensures ReplacementField(fmt, h, p, told) == Step(told + [Arg(Meaning(r)), Failed(Refused)], None)
  {
    StandsInTwo(fmt, p, "{", SourceText(r), "{" + SourceText(r));
    SourceEnds(fmt, p + 1, r, rest);
    TwoMore(told, Arg(Meaning(r)), Failed(Refused));
  }

  lemma FlawStarts(fmt: string, p: nat, f: Flaw)
    requires Stands(fmt, p, FlawText(f))
    ensures p < |fmt| && fmt[p] == '{'
  {
    assert fmt[p] == fmt[p..p + |FlawText(f)|][0] == '{';
  }

  lemma NoReferenceRead(fmt: string, h: Handler, p: nat, told: seq<Event>, rest: string)
    requires p < |fmt| && fmt[p] == '{' && fmt[p + 1..] == rest && IsFlaw(h, p, NoReference, rest, told)
    ensures ReplacementField(fmt, h, p, told) == Step(told + [Failed(InvalidFormat)], None)
  {
    assert fmt[p + 1] == rest[0];
  }

  lemma NumberOpenRead(fmt: string, h: Handler, p: nat, digits: string, told: seq<Event>, rest: string)
    requires p < |fmt| && fmt[p] == '{' && Stands(fmt, p, "{" + digits) && fmt[p + |"{" + digits|..] == rest
    requires IsFlaw(h, p, OpenNumber(digits), rest, told)
    ensures ReplacementField(fmt, h, p, told) == Step(told + [Failed(InvalidFormat)], None)
  {
    StandsInTwo(fmt, p, "{", digits, "{" + digits);
    OpenNumberRead(fmt, p + 1, digits, rest);
  }

  lemma OpenNameRead(fmt: string, h: Handler, p: nat, name: string, told: seq<Event>, rest: string)
    requires p < |fmt| && fmt[p] == '{' && Stands(fmt, p, "{" + name) && fmt[p + |"{" + name|..] == rest
    requires IsFlaw(h, p, OpenName(name), rest, told)
    ensures ReplacementField(fmt, h, p, told) == Step(told + [Arg(Named(name)), Failed(MissingBrace)], None)
  {
    StandsInTwo(fmt, p, "{", name, "{" + name);
    var e := p + 1 + |name|;
    SourceEnds(fmt, p + 1, Name(name), rest);
    assert e < |fmt| ==> fmt[e] == rest[0];
    TwoMore(told, Arg(Named(name)), Failed(MissingBrace));
  }

  lemma TwoMore(told: seq<Event>, a: Event, b: Event)
    ensures told + [a] + [b] == told + [a, b]
  {
  }

  lemma RefusedRead(fmt: string, h: Handler, p: nat, f: Flaw, told: seq<Event>, rest: string)
    requires f.FieldRefused? || f.SpecsRefused? || f.SpecsOpen?
    requires p < |fmt| && fmt[p] == '{' && Stands(fmt, p, FlawText(f)) && fmt[p + |FlawText(f)|..] == rest
    requires IsFlaw(h, p, f, rest, told)
    ensures ReplacementField(fmt, h, p, told) == Step(FlawTold(h, p, f, rest, told), None)
  {
    var r := f.source;
    if f.FieldRefused? {
      HeadText(fmt, p, r, '}', "", FlawText(f));
      PlainField(fmt, h, p, r, told, Close(p, r));
    } else {
      HeadText(fmt, p, r, ':', "", FlawText(f));
      StyledField(fmt, h, p, r, told, Close(p, r), Consumed(h, p, r, told), ToldBy(h, p, Styled(r, ""), told));
      assert forall i :: 0 <= i < |rest| ==> fmt[Close(p, r) + 1 + i] == rest[i];
    }
  }

  /** A field without specifiers, whether the handler takes it or not. */
  lemma PlainField(fmt: string, h: Handler, p: nat, r: Source, told: seq<Event>, e: nat)
    requires Written(r) && HeadStands(fmt, p, r, '}', e) && ArgOf(h, r, told).Some?
    ensures var next := ToldBy(h, p, Plain(r), told);
            ReplacementField(fmt, h, p, told)
            == if h.field(next, ArgOf(h, r, told).value, e) then Step(next, Some(e + 1))
               else Step(next + [Failed(Refused)], None)
  {
    var id, asked := ArgOf(h, r, told).value, told + [Arg(Meaning(r))];
    FieldOpened(fmt, h, p, r, told, e, id, asked);
    TwoMore(told, Arg(Meaning(r)), Field(id, e));
    PlainBody(fmt, h, e, id, asked, ToldBy(h, p, Plain(r), told));
  }

  /** A field with specifiers, wherever the handler stops reading them. */
  lemma StyledField(fmt: string, h: Handler, p: nat, r: Source, told: seq<Event>, e: nat,
                    taken: Option<nat>, next: seq<Event>)
    requires Written(r) && HeadStands(fmt, p, r, ':', e) && ArgOf(h, r, told).Some?
    requires taken == Consumed(h, p, r, told) && next == ToldBy(h, p, Styled(r, ""), told)
    ensures ReplacementField(fmt, h, p, told) == AfterSpecs(fmt, e + 1, taken, next)
  {
    var id, asked := ArgOf(h, r, told).value, told + [Arg(Meaning(r))];
    FieldOpened(fmt, h, p, r, told, e, id, asked);
    SpecsAsked(h, p, r, told, e, id, asked, next, taken);
    SpecsBody(fmt, h, e, id, asked, next);
  }

  lemma SpecsAsked(h: Handler, p: nat, r: Source, told: seq<Event>, e: nat, id: int, asked: seq<Event>,
                   next: seq<Event>, taken: Option<nat>)
    requires ArgOf(h, r, told) == Some(id) && e == Close(p, r) && asked == told + [Arg(Meaning(r))]
    requires next == ToldBy(h, p, Styled(r, ""), told) && taken == Consumed(h, p, r, told)
    ensures next == asked + [Specs(id, e + 1)] && h.specs(next, id, e + 1) == taken
  {
    TwoMore(told, Arg(Meaning(r)), Specs(id, e + 1));
  }

  /** A closing brace must follow the specifiers that the handler took. */
  function AfterSpecs(fmt: string, from: nat, taken: Option<nat>, told: seq<Event>): Step
  {
    match taken
    case None => Step(told + [Failed(Refused)], None)
    case Some(n) =>
      if from + n < |fmt| && fmt[from + n] == '}' then Step(told, Some(from + n + 1))
      else Step(told + [Failed(UnknownSpecifier)], None)
  }

  /** From the opening brace to the end of the reference. */
  lemma FieldOpened(fmt: string, h: Handler, p: nat, r: Source, told: seq<Event>, e: nat, id: int, asked: seq<Event>)
    requires p < |fmt| && fmt[p] == '{' && Written(r) && Stands(fmt, p + 1, SourceText(r)) && e == Close(p, r)
    requires e < |fmt| && (fmt[e] == '}' || fmt[e] == ':')
    requires ArgOf(h, r, told) == Some(id) && asked == told + [Arg(Meaning(r))]
    ensures ReplacementField(fmt, h, p, told) == FieldBody(fmt, h, e, id, asked)
  {
    SourceRead(fmt, p + 1, r);
  }

  lemma PlainBody(fmt: string, h: Handler, e: nat, id: int, asked: seq<Event>, next: seq<Event>)
    requires e < |fmt| && fmt[e] == '}' && next == asked + [Field(id, e)]
    ensures FieldBody(fmt, h, e, id, asked)
            == if h.field(next, id, e) then Step(next, Some(e + 1)) else Step(next + [Failed(Refused)], None)
  {
  }

  lemma SpecsBody(fmt: string, h: Handler, e: nat, id: int, asked: seq<Event>, next: seq<Event>)
    requires e < |fmt| && fmt[e] == ':' && next == asked + [Specs(id, e + 1)]
    ensures FieldBody(fmt, h, e, id, asked) == AfterSpecs(fmt, e + 1, h.specs(next, id, e + 1), next)
  {
  }

  /** After pieces that are in order a flaw ends the scan, with its error at the end of what was told. */
  lemma FlawEndsScan(pieces: seq<Piece>, f: Flaw, rest: string, h: Handler)
    requires AllWritten(pieces) && AllAccepted(h, 0, pieces, [])
    requires IsFlaw(h, |Render(pieces)|, f, rest, AllTold(h, 0, pieces, []))
    ensures Scan(Render(pieces) + FlawText(f) + rest, h, 0, 0, [])
            == FlawTold(h, |Render(pieces)|, f, rest, AllTold(h, 0, pieces, []))
  {
    var fmt, at := Render(pieces) + FlawText(f) + rest, |Render(pieces)|;
    InThree(Render(pieces), FlawText(f), rest);
    RenderedIsLaid(fmt, 0, pieces, at);
    var b, t := PiecesRead(fmt, h, 0, 0, [], pieces, at, [], AllTold(h, 0, pieces, []));
    FlawRead(fmt, h, at, f, Spoken(fmt, b, at, t), rest);
  }

  lemma InThree(a: string, b: string, c: string)
    ensures Stands(a + b + c, 0, a) && Stands(a + b + c, |a|, b) && (a + b + c)[|a| + |b|..] == c
    ensures (a + b + c)[0..0] == ""
  {
    assert (a + b + c)[..|a|] == a && (a + b + c)[|a|..|a| + |b|] == b;
  }

  /** A single closing brace ends the scan too; the text since the last brace is not told then. */
  lemma LoneBraceEndsScan(pieces: seq<Piece>, last: Piece, text: string, rest: string, h: Handler)
    requires AllWritten(pieces) && PieceWritten(last) && (EndsTold(last) || (pieces == [] && last == Literal("")))
    requires AllAccepted(h, 0, pieces, []) && Accepts(h, |Render(pieces)|, last, AllTold(h, 0, pieces, []))
    requires (forall c <- text :: !IsBrace(c)) && (rest == "" || rest[0] != '}')
    ensures Scan(Render(pieces) + PieceText(last) + (text + "}" + rest), h, 0, 0, [])
            == ToldBy(h, |Render(pieces)|, last, AllTold(h, 0, pieces, [])) + [Failed(UnmatchedBrace)]
  {
    var tail := text + "}" + rest;
    var fmt, at, all := Render(pieces) + PieceText(last) + tail, |Render(pieces)|, AllTold(h, 0, pieces, []);
    var q, next := at + Width(last), ToldBy(h, at, last, all);
    InThree(Render(pieces), PieceText(last), tail);
    RenderedIsLaid(fmt, 0, pieces, at);
    PieceIsLaid(fmt, at, last, q);
    if EndsTold(last) {
      LastRead(fmt, h, pieces, at, all, last, q, next);
    }
    LoneBraceRead(fmt, h, q, text, rest, next);
  }

  /** After pieces the last of which leaves no text waiting, the scan starts afresh. */
  lemma LastRead(fmt: string, h: Handler, pieces: seq<Piece>, at: nat, all: seq<Event>, last: Piece, q: nat,
                 next: seq<Event>)
    requires AllWritten(pieces) && AllLaid(fmt, 0, pieces, at) && AllAccepted(h, 0, pieces, [])
    requires all == AllTold(h, 0, pieces, [])
    requires PieceWritten(last) && Laid(fmt, at, last, q) && Accepts(h, at, last, all) && EndsTold(last)
    requires next == ToldBy(h, at, last, all)
    ensures Scan(fmt, h, 0, 0, []) == Scan(fmt, h, q, q, next)
  {
    assert fmt[0..0] == fmt[q..q] == "";
    var b, t := PiecesRead(fmt, h, 0, 0, [], pieces, at, [], all);
    b, t := PieceRead(fmt, h, b, at, t, last, q, all, next);
  }

  lemma LoneBraceRead(fmt: string, h: Handler, at: nat, text: string, rest: string, told: seq<Event>)
    requires at <= |fmt| && fmt[at..] == text + "}" + rest
    requires (forall c <- text :: !IsBrace(c)) && (rest == "" || rest[0] != '}')
    ensures Scan(fmt, h, at, at, told) == told + [Failed(UnmatchedBrace)]
  {
    var q := at + |text|;
    assert fmt[q..] == fmt[at..][|text|..] == "}" + rest;
    forall i | at <= i < q ensures fmt[i] != '{' && fmt[i] != '}' {
      assert fmt[i] == fmt[at..][i - at] == text[i - at] && text[i - at] in text;
    }
    SkipOrdinary(fmt, h, at, at, q, told);
    assert fmt[q] == fmt[q..][0] == '}';
    assert rest != "" ==> fmt[q + 1] == fmt[q..][1] == rest[0];
    LoneBraceNow(fmt, h, at, q, told);
  }

  lemma LoneBraceNow(fmt: string, h: Handler, begin: nat, q: nat, told: seq<Event>)
    requires begin <= q < |fmt| && fmt[q] == '}' && (q + 1 == |fmt| || fmt[q + 1] != '}')
    ensures Scan(fmt, h, begin, q, told) == told + [Failed(UnmatchedBrace)]
  {
  }
}
