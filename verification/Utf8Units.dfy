/** The encoder that turns wide or 16-bit code units into UTF-8. */
module Utf8Units {
  import opened Arithmetic
  import opened Options
  import opened Utf8

  /** How scalar values are spelled in code units: one each, or surrogate pairs when the units have 16 bits. */
  function Units(cs: seq<Scalar>, narrow: bool): seq<nat>
  {
    if cs == [] then [] else UnitsOf(cs[0], narrow) + Units(cs[1..], narrow)
  }

  function UnitsOf(c: Scalar, narrow: bool): seq<nat>
  {
    if narrow && c >= 0x10000 then [0xd800 + (c - 0x10000) / 1024, 0xdc00 + (c - 0x10000) % 1024] else [c]
  }

  predicate HighSurrogate(u: nat) { 0xd800 <= u < 0xdc00 }

  predicate LowSurrogate(u: nat) { 0xdc00 <= u < 0xe000 }

  function Pair(high: nat, low: nat): int { high * 1024 + low - 0x35fdc00 }

  lemma PairIsScalar(high: nat, low: nat)
    requires HighSurrogate(high) && LowSurrogate(low)
    ensures 0x10000 <= Pair(high, low) <= 0x10ffff && UnitsOf(Pair(high, low), true) == [high, low]
  {
  }

  lemma PairOfUnits(c: Scalar)
    requires c >= 0x10000
    ensures var u := UnitsOf(c, true);
            |u| == 2 && HighSurrogate(u[0]) && LowSurrogate(u[1]) && Pair(u[0], u[1]) == c
  {
  }

  /** A code point above 16 bits is a high and a low surrogate with ten bits of its offset each, others one unit. */
  lemma SurrogatesExactly(c: Scalar, units: seq<nat>)
    ensures UnitsOf(c, true) == units
            <==> if c < 0x10000 then units == [c] else
                 && |units| == 2 && 0xd800 <= units[0] < 0xdc00 && 0xdc00 <= units[1] < 0xe000
                 && c == 0x10000 + (units[0] - 0xd800) * 1024 + (units[1] - 0xdc00)
    ensures UnitsOf(c, false) == [c]
  {
    if c >= 0x10000 {
      var u := c - 0x10000;
      if |units| == 2 && 0xd800 <= units[0] && 0xdc00 <= units[1] < 0xe000
         && u == (units[0] - 0xd800) * 1024 + (units[1] - 0xdc00) {
        DivModUnique(u, 1024, units[0] - 0xd800, units[1] - 0xdc00);
      }
    }
  }

  /** The first scalar value of nonempty units and how many units it takes; none if they are malformed. */
  function FirstScalar(units: seq<nat>, narrow: bool): (r: Option<(Scalar, nat)>)
    requires units != []
    ensures r.Some? ==> 1 <= r.value.1 <= |units|
  {
    var c := units[0];
    if narrow && 0xd800 <= c <= 0xdfff then
      if |units| > 1 && HighSurrogate(c) && LowSurrogate(units[1]) then
        PairIsScalar(c, units[1]);
        Some((Pair(c, units[1]), 2))
      else None
    else if c < 0xd800 || 0xe000 <= c <= 0x10ffff then Some((c, 1))
    else None
  }

  function Scalars(units: seq<nat>, narrow: bool): Option<seq<Scalar>>
  {
    if units == [] then Some([]) else
      var first := FirstScalar(units, narrow);
      if first.None? then None else
        var rest := Scalars(units[first.value.1..], narrow);
        if rest.None? then None else Some([first.value.0] + rest.value)
  }

  /** Units fit the code unit type: 16 bits when narrow. */
  predicate Fit(units: seq<nat>, narrow: bool)
  {
    narrow ==> forall i :: 0 <= i < |units| ==> units[i] < 0x10000
  }

  /** Units are accepted exactly if they spell scalar values, and then as those. */
  lemma {:induction false} ScalarsIff(units: seq<nat>, narrow: bool, cs: seq<Scalar>)
    requires Fit(units, narrow)
    ensures Scalars(units, narrow) == Some(cs) <==> Units(cs, narrow) == units
    decreases |units|
  {
    if units == [] {
      assert cs != [] ==> |UnitsOf(cs[0], narrow)| > 0;
    } else {
      if cs != [] && Units(cs, narrow) == units {
        FirstOfUnits(cs[0], Units(cs[1..], narrow), narrow);
      }
      var first := FirstScalar(units, narrow);
      if first.Some? && cs != [] {
        var (c, n) := first.value;
        ScalarsIff(units[n..], narrow, cs[1..]);
        UnitsOfFirst(units, narrow);
        assert units == units[..n] + units[n..];
        assert cs == [cs[0]] + cs[1..];
        assert ([c] + cs[1..])[1..] == cs[1..];
      }
    }
  }

  lemma FirstOfUnits(c: Scalar, rest: seq<nat>, narrow: bool)
    ensures FirstScalar(UnitsOf(c, narrow) + rest, narrow) == Some((c, |UnitsOf(c, narrow)|))
  {
    if c >= 0x10000 { PairOfUnits(c); }
  }

  lemma UnitsOfFirst(units: seq<nat>, narrow: bool)
    requires units != [] && FirstScalar(units, narrow).Some? && Fit(units, narrow)
    ensures var (c, n) := FirstScalar(units, narrow).value; UnitsOf(c, narrow) == units[..n]
  {
    if narrow && 0xd800 <= units[0] <= 0xdfff { PairIsScalar(units[0], units[1]); }
  }

  function Encoded(str: seq<Octet>, rest: Option<seq<Scalar>>): Option<seq<Octet>>
  {
    if rest.None? then None else Some(str + EncodeAll(rest.value))
  }

  lemma EncodedStep(str: seq<Octet>, units: seq<nat>, p: nat, narrow: bool)
    requires p < |units|
    ensures var first := FirstScalar(units[p..], narrow);
            Encoded(str, Scalars(units[p..], narrow))
            == if first.None? then None
               else Encoded(str + EncodeScalar(first.value.0), Scalars(units[p + first.value.1..], narrow))
  {
    var first := FirstScalar(units[p..], narrow);
    if first.Some? {
      var (c, n) := first.value;
      assert units[p..][n..] == units[p + n..];
      var rest := Scalars(units[p + n..], narrow);
      if rest.Some? {
        assert ([c] + rest.value)[1..] == rest.value;
        assert str + (EncodeScalar(c) + EncodeAll(rest.value)) == (str + EncodeScalar(c)) + EncodeAll(rest.value);
      }
    }
  }

  /** Whatever the encoder accepts is reported back by the decoder as the very code points the units spell. */
  lemma EncodedUnitsDecode(units: seq<nat>, narrow: bool)
    requires Fit(units, narrow) && Scalars(units, narrow).Some?
    ensures var cs := Scalars(units, narrow).value;
            Units(cs, narrow) == units && DecodeAll(Encoded([], Some(cs)).value) == WithoutError(cs)
  {
    var cs := Scalars(units, narrow).value;
    ScalarsIff(units, narrow, cs);
    assert [] + EncodeAll(cs) == EncodeAll(cs);
    RoundTrip(cs);
  }

  /** Combines a surrogate pair of narrow units; none stands for the thrown error. */
  method TakeUnits(units: seq<nat>, p: nat, narrow: bool) returns (c: Option<nat>, next: nat)
    requires p < |units| && Fit(units, narrow)
    ensures c.None? ==> FirstScalar(units[p..], narrow) == None
    ensures c.Some? ==>
              var first := FirstScalar(units[p..], narrow);
              if Encode(c.value).Some? then first == Some((c.value, next - p)) && p < next <= |units| else first == None
  {
    next := p + 1;
    var unit := units[p];
    if narrow && 0xd800 <= unit <= 0xdfff {
      TopBits(unit);
      if next < |units| { TopBits(units[next]); }
      if next == |units| || unit / 1024 * 1024 != 0xd800 || units[next] / 1024 * 1024 != 0xdc00 {
        return None, next;
      }
      PairTaken(units[p..]);
      unit := unit * 1024 + units[next] - 0x35fdc00;
      next := next + 1;
    } else {
      UnitTaken(units[p..], narrow);
    }
    c := Some(unit);
  }

  /** What the masks of the surrogate test select. */
  lemma TopBits(u: nat)
    ensures u / 1024 * 1024 == 0xd800 <==> HighSurrogate(u)
    ensures u / 1024 * 1024 == 0xdc00 <==> LowSurrogate(u)
  {
  }

  lemma PairTaken(units: seq<nat>)
    requires |units| > 1 && HighSurrogate(units[0]) && LowSurrogate(units[1])
    ensures var c := Pair(units[0], units[1]);
            c >= 0 && Encode(c).Some? && FirstScalar(units, true) == Some((c, 2))
  {
    PairIsScalar(units[0], units[1]);
  }

  lemma UnitTaken(units: seq<nat>, narrow: bool)
    requires units != [] && !(narrow && 0xd800 <= units[0] <= 0xdfff)
    ensures FirstScalar(units, narrow) == if Encode(units[0]).Some? then Some((units[0], 1)) else None
  {
  }

  /** Appends the bytes of each code point; none stands for the thrown error. */
  method EncodeUnits(units: seq<nat>, narrow: bool) returns (r: Option<seq<Octet>>)
    requires Fit(units, narrow)
    ensures r == Encoded([], Scalars(units, narrow))
  {
    var str: seq<Octet>, p := [], 0;
    assert units[0..] == units;
    while p < |units|
      invariant p <= |units|
      invariant Encoded(str, Scalars(units[p..], narrow)) == Encoded([], Scalars(units, narrow))
    {
      EncodedStep(str, units, p, narrow);
      var unit, next := TakeUnits(units, p, narrow);
      if unit.None? { return None; }
      var bytes := AppendBytes(str, unit.value);
      if bytes.None? { return None; }
      str := bytes.value;
      p := next;
    }
    assert units[p..] == [] && str + [] == str && EncodeAll([]) == [];
    return Some(str);
  }

  /** Appends the bytes of one code point, one by one. */
  method AppendBytes(given: seq<Octet>, c: nat) returns (r: Option<seq<Octet>>)
    ensures r == if Encode(c).Some? then Some(given + Encode(c).value) else None
  {
    var str := given;
    if c < 0x80 {
      str := str + [c];
    } else if c < 0x800 {
      str := str + [0xc0 + c / 64];
      str := str + [0x80 + c % 64];
    } else if 0x800 <= c <= 0xd7ff || 0xe000 <= c <= 0xffff {
      str := str + [0xe0 + c / 4096];
      str := str + [0x80 + c % 4096 / 64];
      str := str + [0x80 + c % 64];
    } else if 0x10000 <= c <= 0x10ffff {
      str := str + [0xf0 + c / 262144];
      str := str + [0x80 + c % 262144 / 4096];
      str := str + [0x80 + c % 4096 / 64];
      str := str + [0x80 + c % 64];
    } else {
      return None;
    }
    assert Encode(c).Some? && str == given + Encode(c).value;
    return Some(str);
  }
}

/** The bit operations that are written as arithmetic above. */
module Utf8Bits {
  lemma EncoderBits(c: bv32)
    ensures c & 0x3f == c % 64 && (c & 0xfff) >> 6 == c % 4096 / 64 && (c & 0x3ffff) >> 12 == c % 262144 / 4096
    ensures c >> 6 == c / 64 && c >> 12 == c / 4096 && c >> 18 == c / 262144
    ensures 0x80 | (c & 0x3f) == 0x80 + c % 64
    ensures c < 0x800 ==> 0xc0 | (c >> 6) == 0xc0 + c / 64
    ensures c < 0x10000 ==> 0xe0 | (c >> 12) == 0xe0 + c / 4096
    ensures c < 0x200000 ==> 0xf0 | (c >> 18) == 0xf0 + c / 262144
  {
  }

  lemma SurrogateBits(high: bv32, low: bv32)
    ensures high < 0x10000 ==> high & 0xfc00 == high / 1024 * 1024 && (high << 10) == high * 1024
    ensures low < 0x10000 ==> low & 0xfc00 == low / 1024 * 1024
  {
  }

  lemma DecoderBits(lead: bv32, b1: bv32, b2: bv32, b3: bv32)
    requires lead < 0x80 && b1 < 256 && b2 < 256 && b3 < 256
    ensures (lead << 18) | ((b1 & 0x3f) << 12) | ((b2 & 0x3f) << 6) | (b3 & 0x3f)
            == lead * 0x40000 + b1 % 64 * 0x1000 + b2 % 64 * 64 + b3 % 64
  {
  }

  lemma ErrorBits(b1: bv32, b2: bv32, b3: bv32)
    requires b1 < 256 && b2 < 256 && b3 < 256
    ensures (((b1 & 0xc0) >> 2) | ((b2 & 0xc0) >> 4) | (b3 >> 6)) ^ 0x2a
            == (b1 / 64 + 2) % 4 * 16 + (b2 / 64 + 2) % 4 * 4 + (b3 / 64 + 2) % 4
  {
  }
}
