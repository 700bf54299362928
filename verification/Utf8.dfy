/**
 * Encoding code points as UTF-8, and decoding them without branches, four bytes at a time.
 * Bit fields are written as quotients and remainders; the module Utf8Bits shows that they are the same.
 */
module Utf8 {
  import opened Arithmetic
  import opened Options

  type Octet = b: int | 0 <= b < 256

  /** A reported code point and its error bits; 0 for no error. */
  datatype Decoded = Decoded(point: nat, error: nat)

  /** A Unicode scalar value: a code point that is not a surrogate half. */
  type Scalar = c: nat | c < 0xd800 || 0xe000 <= c <= 0x10ffff

  /** The bytes of one code point; none when it is not a scalar value. */
  function Encode(c: nat): Option<seq<Octet>>
  {
    if c < 0x80 then Some([c])
    else if c < 0x800 then Some([0xc0 + c / 64, 0x80 + c % 64])
    else if 0x800 <= c <= 0xd7ff || 0xe000 <= c <= 0xffff then
      Some([0xe0 + c / 4096, 0x80 + c % 4096 / 64, 0x80 + c % 64])
    else if 0x10000 <= c <= 0x10ffff then
      Some([0xf0 + c / 262144, 0x80 + c % 262144 / 4096, 0x80 + c % 4096 / 64, 0x80 + c % 64])
    else None
  }

  function EncodeScalar(c: Scalar): (s: seq<Octet>)
    ensures 1 <= |s| <= 4 && Encode(c) == Some(s)
  {
    Encode(c).value
  }

  function EncodeAll(cs: seq<Scalar>): seq<Octet>
  {
    if cs == [] then [] else EncodeScalar(cs[0]) + EncodeAll(cs[1..])
  }

  /** The length the lead byte announces; 1 for a byte that cannot lead. */
  function CodePointLength(lead: Octet): (len: nat)
    ensures 1 <= len <= 4
  {
    var row := lead / 8;
    if row < 16 then 1 else if row < 24 then 1
    else if row < 28 then 2 else if row < 30 then 3 else if row < 31 then 4 else 1
  }

  /** A continuation byte, or one above all lead bytes, where a character should begin. */
  predicate Stray(lead: Octet) { 0x80 <= lead < 0xc0 || 0xf8 <= lead }

  /** The rows of the four tables, by length: what the masks and shifts keep, and the smallest code point. */
  const LEAD_RANGE: seq<nat> := [1, 0x80, 0x20, 0x10, 0x08]
  const SMALLEST: seq<nat> := [4194304, 0, 128, 2048, 65536]
  const UNUSED: seq<nat> := [1, 0x40000, 0x1000, 0x40, 1]
  const UNUSED_ERRORS: seq<nat> := [1, 64, 16, 4, 1]

  /** A two-bit field that should hold binary 10, as left by an exclusive or with that. */
  function Tail(b: Octet): nat { (b / 64 + 2) % 4 }

  /** All four error conditions of a four-byte character. */
  function Errors(c: nat, smallest: nat, b1: Octet, b2: Octet, b3: Octet): nat
  {
    (if c < smallest then 64 else 0) + (if c / 2048 == 0x1b then 128 else 0) + (if c > 0x10ffff then 256 else 0)
    + Tail(b1) * 16 + Tail(b2) * 4 + Tail(b3)
  }

  function Point(b0: Octet, b1: Octet, b2: Octet, b3: Octet): nat
  {
    var len := CodePointLength(b0);
    (b0 % LEAD_RANGE[len] * 0x40000 + b1 % 64 * 0x1000 + b2 % 64 * 64 + b3 % 64) / UNUSED[len]
  }

  /** The code point that four bytes start with, and the errors of its own bytes. */
  function Decode(b0: Octet, b1: Octet, b2: Octet, b3: Octet): Decoded
  {
    var len, c := CodePointLength(b0), Point(b0, b1, b2, b3);
    Decoded(c, Errors(c, SMALLEST[len], b1, b2, b3) / UNUSED_ERRORS[len])
  }

  lemma PointByLength(b0: Octet, b1: Octet, b2: Octet, b3: Octet)
    ensures var (len, c) := (CodePointLength(b0), Point(b0, b1, b2, b3));
            && (len == 1 ==> c == b0 % 128)
            && (len == 2 ==> c == (b0 - 0xc0) * 64 + b1 % 64)
            && (len == 3 ==> c == (b0 - 0xe0) * 4096 + b1 % 64 * 64 + b2 % 64)
            && (len == 4 ==> c == (b0 - 0xf0) * 262144 + b1 % 64 * 4096 + b2 % 64 * 64 + b3 % 64)
  {
    LeadBits(b0);
    UpperFields(b0 % LEAD_RANGE[CodePointLength(b0)], b1 % 64, b2 % 64, b3 % 64);
  }

  lemma LeadBits(b0: Octet)
    ensures CodePointLength(b0) == 2 ==> b0 % 0x20 == b0 - 0xc0
    ensures CodePointLength(b0) == 3 ==> b0 % 0x10 == b0 - 0xe0
    ensures CodePointLength(b0) == 4 ==> b0 % 0x08 == b0 - 0xf0
  {
  }

  lemma UpperFields(x0: nat, x1: nat, x2: nat, x3: nat)
    requires x1 < 64 && x2 < 64 && x3 < 64
    ensures var c := x0 * 262144 + x1 * 4096 + x2 * 64 + x3;
            c / 262144 == x0 && c / 4096 == x0 * 64 + x1 && c / 64 == x0 * 4096 + x1 * 64 + x2
  {
    var c := x0 * 262144 + x1 * 4096 + x2 * 64 + x3;
    DivModUnique(c, 262144, x0, x1 * 4096 + x2 * 64 + x3);
    DivModUnique(c, 4096, x0 * 64 + x1, x2 * 64 + x3);
    DivModUnique(c, 64, x0 * 4096 + x1 * 64 + x2, x3);
  }

  /** No error means that the code point is allowed, and that the continuation bytes of its length are in place. */
  lemma ErrorByLength(b0: Octet, b1: Octet, b2: Octet, b3: Octet)
    ensures var (len, d) := (CodePointLength(b0), Decode(b0, b1, b2, b3));
            d.error == 0 <==>
              && SMALLEST[len] <= d.point <= 0x10ffff && d.point / 2048 != 0x1b
              && (len > 1 ==> b1 / 64 == 2) && (len > 2 ==> b2 / 64 == 2) && (len > 3 ==> b3 / 64 == 2)
  {
    var len, c := CodePointLength(b0), Point(b0, b1, b2, b3);
    var e := Errors(c, SMALLEST[len], b1, b2, b3);
    var wrong := (if c < SMALLEST[len] then 1 else 0) + (if c / 2048 == 0x1b then 2 else 0)
                 + (if c > 0x10ffff then 4 else 0);
    assert e == wrong * 64 + Tail(b1) * 16 + Tail(b2) * 4 + Tail(b3);
    ErrorFields(wrong, Tail(b1), Tail(b2), Tail(b3));
    TailIsZero(b1);
    TailIsZero(b2);
    TailIsZero(b3);
  }

  lemma ErrorFields(k: nat, t1: nat, t2: nat, t3: nat)
    requires t1 < 4 && t2 < 4 && t3 < 4
    ensures var e := k * 64 + t1 * 16 + t2 * 4 + t3;
            e / 64 == k && e / 16 == k * 4 + t1 && e / 4 == k * 16 + t1 * 4 + t2
  {
    var e := k * 64 + t1 * 16 + t2 * 4 + t3;
    DivModUnique(e, 64, k, t1 * 16 + t2 * 4 + t3);
    DivModUnique(e, 16, k * 4 + t1, t2 * 4 + t3);
    DivModUnique(e, 4, k * 16 + t1 * 4 + t2, t3);
  }

  lemma TailIsZero(b: Octet)
    ensures Tail(b) == 0 <==> b / 64 == 2
  {
  }

  predicate Exact(b0: Octet, b1: Octet, b2: Octet, b3: Octet, bytes: seq<Octet>)
  {
    Decode(b0, b1, b2, b3).error == 0 <==> Encode(Point(b0, b1, b2, b3)) == Some(bytes)
  }

  lemma ExactOne(b0: Octet, b1: Octet, b2: Octet, b3: Octet)
    requires b0 < 0x80
    ensures Exact(b0, b1, b2, b3, [b0])
  {
    PointByLength(b0, b1, b2, b3);
    ErrorByLength(b0, b1, b2, b3);
  }

  lemma ExactTwo(b0: Octet, b1: Octet, b2: Octet, b3: Octet)
    requires CodePointLength(b0) == 2
    ensures Exact(b0, b1, b2, b3, [b0, b1])
  {
    PointByLength(b0, b1, b2, b3);
    ErrorByLength(b0, b1, b2, b3);
    EncodesToTwo(Point(b0, b1, b2, b3), b0, b1);
  }

  lemma ExactThree(b0: Octet, b1: Octet, b2: Octet, b3: Octet)
    requires CodePointLength(b0) == 3
    ensures Exact(b0, b1, b2, b3, [b0, b1, b2])
  {
    PointByLength(b0, b1, b2, b3);
    ErrorByLength(b0, b1, b2, b3);
    EncodesToThree(Point(b0, b1, b2, b3), b0, b1, b2);
  }

  lemma ExactFour(b0: Octet, b1: Octet, b2: Octet, b3: Octet)
    requires CodePointLength(b0) == 4
    ensures Exact(b0, b1, b2, b3, [b0, b1, b2, b3])
  {
    PointByLength(b0, b1, b2, b3);
    ErrorByLength(b0, b1, b2, b3);
    EncodesToFour(Point(b0, b1, b2, b3), b0, b1, b2, b3);
  }

  lemma EncodesToTwo(c: nat, b0: Octet, b1: Octet)
    requires 0xc0 <= b0 < 0xe0 && c == (b0 - 0xc0) * 64 + b1 % 64
    ensures Encode(c) == Some([b0, b1]) <==> 0x80 <= c && b1 / 64 == 2
  {
    assert Encode(c).Some? && |Encode(c).value| == 2 ==>
             (Encode(c).value == [b0, b1] <==> Encode(c).value[0] == b0 && Encode(c).value[1] == b1);
  }

  lemma EncodesToThree(c: nat, b0: Octet, b1: Octet, b2: Octet)
    requires 0xe0 <= b0 < 0xf0 && c == (b0 - 0xe0) * 4096 + b1 % 64 * 64 + b2 % 64
    ensures Encode(c) == Some([b0, b1, b2]) <==> 0x800 <= c && c / 2048 != 0x1b && b1 / 64 == 2 && b2 / 64 == 2
  {
    ThreeFields(c, b0 - 0xe0, b1 % 64, b2 % 64);
    IsContinuation(b1);
    IsContinuation(b2);
    if 0x800 <= c && c / 2048 != 0x1b {
      assert Encode(c) == Some([b0, 0x80 + b1 % 64, 0x80 + b2 % 64]);
      assert [b0, 0x80 + b1 % 64, 0x80 + b2 % 64] == [b0, b1, b2] <==> b1 / 64 == 2 && b2 / 64 == 2;
    } else {
      assert Encode(c).Some? ==> |Encode(c).value| != 3;
    }
  }

  lemma EncodesToFour(c: nat, b0: Octet, b1: Octet, b2: Octet, b3: Octet)
    requires 0xf0 <= b0 < 0xf8 && c == (b0 - 0xf0) * 262144 + b1 % 64 * 4096 + b2 % 64 * 64 + b3 % 64
    ensures Encode(c) == Some([b0, b1, b2, b3])
            <==> 0x10000 <= c <= 0x10ffff && b1 / 64 == 2 && b2 / 64 == 2 && b3 / 64 == 2
  {
    FourFields(c, b0 - 0xf0, b1 % 64, b2 % 64, b3 % 64);
    IsContinuation(b1);
    IsContinuation(b2);
    IsContinuation(b3);
    if 0x10000 <= c <= 0x10ffff {
      assert Encode(c) == Some([b0, 0x80 + b1 % 64, 0x80 + b2 % 64, 0x80 + b3 % 64]);
      assert [b0, 0x80 + b1 % 64, 0x80 + b2 % 64, 0x80 + b3 % 64] == [b0, b1, b2, b3]
             <==> b1 / 64 == 2 && b2 / 64 == 2 && b3 / 64 == 2;
    } else {
      assert Encode(c).Some? ==> |Encode(c).value| != 4;
    }
  }

  predicate Continuation(b: int) { 0x80 <= b < 0xc0 }

  /** The table in section 3 of RFC 3629: the bytes that spell a code point, in the shortest form. */
  predicate Spelled(c: int, s: seq<int>)
  {
    match |s|
    case 1 => 0 <= s[0] < 0x80 && c == s[0]
    case 2 => 0xc0 <= s[0] < 0xe0 && Continuation(s[1])
      && c == (s[0] - 0xc0) * 64 + (s[1] - 0x80) && 0x80 <= c
    case 3 => 0xe0 <= s[0] < 0xf0 && Continuation(s[1]) && Continuation(s[2])
      && c == (s[0] - 0xe0) * 4096 + (s[1] - 0x80) * 64 + (s[2] - 0x80) && 0x800 <= c && !(0xd800 <= c < 0xe000)
    case 4 => 0xf0 <= s[0] < 0xf8 && Continuation(s[1]) && Continuation(s[2]) && Continuation(s[3])
      && c == (s[0] - 0xf0) * 262144 + (s[1] - 0x80) * 4096 + (s[2] - 0x80) * 64 + (s[3] - 0x80)
      && 0x10000 <= c <= 0x10ffff
    case _ => false
  }

  /** The encoder produces exactly what that table allows, and nothing for any other number. */
  lemma EncodingExactly(c: nat, s: seq<Octet>)
    ensures Encode(c) == Some(s) <==> Spelled(c, s)
  {
    if Encode(c) == Some(s) {
      EncodingIsSpelled(c);
    }
    if Spelled(c, s) {
      SpelledIsEncoding(c, s);
    }
  }

  lemma EncodingIsSpelled(c: nat)
    requires Encode(c).Some?
    ensures Spelled(c, Encode(c).value)
  {
    if 0x80 <= c < 0x800 {
      SpelledAsTwo(c, c / 64, c % 64);
    } else if 0x800 <= c < 0x10000 {
      Parts(c);
      SpelledAsThree(c, c / 4096, c % 4096 / 64, c % 64);
    } else if 0x10000 <= c {
      Parts(c);
      SpelledAsFour(c, c / 262144, c % 262144 / 4096, c % 4096 / 64, c % 64);
    }
  }

  lemma SpelledAsTwo(c: nat, x0: nat, x1: nat)
    requires x1 < 64 && c == x0 * 64 + x1 && 0x80 <= c < 0x800
    ensures Spelled(c, [0xc0 + x0, 0x80 + x1])
  {
  }

  lemma SpelledAsThree(c: nat, x0: nat, x1: nat, x2: nat)
    requires x1 < 64 && x2 < 64 && c == x0 * 4096 + x1 * 64 + x2
    requires 0x800 <= c < 0x10000 && !(0xd800 <= c < 0xe000)
    ensures Spelled(c, [0xe0 + x0, 0x80 + x1, 0x80 + x2])
  {
  }

  lemma SpelledAsFour(c: nat, x0: nat, x1: nat, x2: nat, x3: nat)
    requires x1 < 64 && x2 < 64 && x3 < 64 && c == x0 * 262144 + x1 * 4096 + x2 * 64 + x3
    requires 0x10000 <= c <= 0x10ffff
    ensures Spelled(c, [0xf0 + x0, 0x80 + x1, 0x80 + x2, 0x80 + x3])
  {
  }

  lemma Parts(c: nat)
    ensures c == c / 4096 * 4096 + c % 4096 / 64 * 64 + c % 64
    ensures c == c / 262144 * 262144 + c % 262144 / 4096 * 4096 + c % 4096 / 64 * 64 + c % 64
    ensures c % 4096 / 64 < 64 && c % 262144 / 4096 < 64 && c % 64 < 64
  {
    Fields3(c);
    Fields4(c);
  }

  lemma SpelledIsEncoding(c: nat, s: seq<Octet>)
    requires Spelled(c, s)
    ensures Encode(c) == Some(s)
  {
    if |s| == 1 {
      assert s == [c];
    } else if |s| == 2 {
      assert s == [s[0], s[1]];
      TwoFromTable(c, s[0], s[1]);
    } else if |s| == 3 {
      assert s == [s[0], s[1], s[2]];
      ThreeFromTable(c, s[0], s[1], s[2]);
    } else {
      assert s == [s[0], s[1], s[2], s[3]];
      FourFromTable(c, s[0], s[1], s[2], s[3]);
    }
  }

  lemma TwoFromTable(c: nat, b0: Octet, b1: Octet)
    requires Spelled(c, [b0, b1])
    ensures Encode(c) == Some([b0, b1])
  {
    Remainder(b1);
    EncodesToTwo(c, b0, b1);
  }

  lemma ThreeFromTable(c: nat, b0: Octet, b1: Octet, b2: Octet)
    requires Spelled(c, [b0, b1, b2])
    ensures Encode(c) == Some([b0, b1, b2])
  {
    Remainder(b1);
    Remainder(b2);
    EncodesToThree(c, b0, b1, b2);
  }

  lemma FourFromTable(c: nat, b0: Octet, b1: Octet, b2: Octet, b3: Octet)
    requires Spelled(c, [b0, b1, b2, b3])
    ensures Encode(c) == Some([b0, b1, b2, b3])
  {
    Remainder(b1);
    Remainder(b2);
    Remainder(b3);
    EncodesToFour(c, b0, b1, b2, b3);
  }

  lemma Remainder(b: Octet)
    ensures Continuation(b) ==> b % 64 == b - 0x80 && b / 64 == 2
  {
  }

  lemma IsContinuation(b: Octet)
    ensures 0x80 + b % 64 == b <==> b / 64 == 2
  {
  }

  lemma ThreeFields(c: nat, x0: nat, x1: nat, x2: nat)
    requires x1 < 64 && x2 < 64 && c == x0 * 4096 + x1 * 64 + x2
    ensures c / 4096 == x0 && c % 4096 / 64 == x1 && c % 64 == x2
  {
    DivModUnique(c, 4096, x0, x1 * 64 + x2);
    DivModUnique(x1 * 64 + x2, 64, x1, x2);
    DivModUnique(c, 64, x0 * 64 + x1, x2);
  }

  lemma FourFields(c: nat, x0: nat, x1: nat, x2: nat, x3: nat)
    requires x1 < 64 && x2 < 64 && x3 < 64 && c == x0 * 262144 + x1 * 4096 + x2 * 64 + x3
    ensures c / 262144 == x0 && c % 262144 / 4096 == x1 && c % 4096 / 64 == x2 && c % 64 == x3
  {
    ThreeFields(c, 64 * x0 + x1, x2, x3);
    DivModUnique(c, 262144, x0, x1 * 4096 + x2 * 64 + x3);
    DivModUnique(x1 * 4096 + x2 * 64 + x3, 4096, x1, x2 * 64 + x3);
  }

  /**
   * No error is reported exactly for the encoding of the code point, or for a stray byte:
   * that one is taken for a character of length 1, and its error bits are dropped.
   */
  lemma ErrorIsExact(b0: Octet, b1: Octet, b2: Octet, b3: Octet)
    ensures var d := Decode(b0, b1, b2, b3);
            d.error == 0 <==> Stray(b0) || Encode(d.point) == Some([b0, b1, b2, b3][..CodePointLength(b0)])
  {
    var len := CodePointLength(b0);
    assert [b0, b1, b2, b3][..len] == if len == 1 then [b0] else if len == 2 then [b0, b1]
                                      else if len == 3 then [b0, b1, b2] else [b0, b1, b2, b3];
    if Stray(b0) {
      PointByLength(b0, b1, b2, b3);
      ErrorByLength(b0, b1, b2, b3);
    } else if len == 1 {
      ExactOne(b0, b1, b2, b3);
    } else if len == 2 {
      ExactTwo(b0, b1, b2, b3);
    } else if len == 3 {
      ExactThree(b0, b1, b2, b3);
    } else {
      ExactFour(b0, b1, b2, b3);
    }
  }

  /** A lone continuation byte is reported as the code point 0 with no error, though 0 is not encoded so. */
  lemma StrayByteIsNoError()
    ensures Decode(0x80, 0, 0, 0) == Decoded(0, 0) && Encode(0) == Some([0])
  {
  }

  /** Decoding the encoding of a scalar value, whatever bytes come after it. */
  lemma DecodeAfterEncode(c: Scalar, b0: Octet, b1: Octet, b2: Octet, b3: Octet)
    requires EncodeScalar(c) <= [b0, b1, b2, b3]
    ensures CodePointLength(b0) == |EncodeScalar(c)| && Decode(b0, b1, b2, b3) == Decoded(c, 0) && !Stray(b0)
  {
    var bytes := EncodeScalar(c);
    assert bytes == [b0, b1, b2, b3][..|bytes|];
    assert bytes[0] == b0;
    assert |bytes| > 1 ==> bytes[1] == b1;
    assert |bytes| > 2 ==> bytes[2] == b2;
    assert |bytes| > 3 ==> bytes[3] == b3;
    LeadByte(c, b0);
    PointByLength(b0, b1, b2, b3);
    if |bytes| == 2 {
      Fields2(c);
    } else if |bytes| == 3 {
      Fields3(c);
    } else if |bytes| == 4 {
      Fields4(c);
    }
    ErrorIsExact(b0, b1, b2, b3);
  }

  lemma LeadByte(c: Scalar, b0: Octet)
    requires b0 == EncodeScalar(c)[0]
    ensures CodePointLength(b0) == |EncodeScalar(c)| && !Stray(b0)
  {
  }

  lemma Fields2(c: nat)
    ensures c == c / 64 * 64 + (0x80 + c % 64) % 64
  {
  }

  lemma Fields3(c: nat)
    ensures c == c / 4096 * 4096 + (0x80 + c % 4096 / 64) % 64 * 64 + (0x80 + c % 64) % 64
  {
    var q, r := c / 4096, c % 4096;
    DivParts(c, 4096);
    DivParts(r, 64);
    DivModUnique(c, 64, 64 * q + r / 64, r % 64);
    Low6(r % 64);
    Low6(r / 64);
  }

  lemma Fields4(c: nat)
    ensures c == c / 262144 * 262144 + (0x80 + c % 262144 / 4096) % 64 * 4096
                 + (0x80 + c % 4096 / 64) % 64 * 64 + (0x80 + c % 64) % 64
  {
    var q, r := c / 262144, c % 262144;
    DivParts(c, 262144);
    DivParts(r, 4096);
    DivModUnique(c, 4096, 64 * q + r / 4096, r % 4096);
    Fields3(c);
    DivModUnique(c, 4096, c / 4096, c % 4096);
    Low6(r / 4096);
  }

  lemma Low6(x: nat)
    requires x < 64
    ensures (0x80 + x) % 64 == x
  {
  }

  function At(s: seq<Octet>, i: nat): Octet { if i < |s| then s[i] else 0 }

  /** Decoding at the start of a string that is padded with zero bytes. */
  function DecodeFirst(s: seq<Octet>): Decoded { Decode(At(s, 0), At(s, 1), At(s, 2), At(s, 3)) }

  function StepLength(s: seq<Octet>): (n: nat)
    requires s != []
    ensures 1 <= n <= |s|
  {
    if CodePointLength(s[0]) < |s| then CodePointLength(s[0]) else |s|
  }

  /** What a plain decoder reports, one character after the other. */
  function DecodeAll(s: seq<Octet>): seq<Decoded>
  {
    if s == [] then [] else [DecodeFirst(s)] + DecodeAll(s[StepLength(s)..])
  }

  /** One character, from four bytes that must all be there. */
  method Utf8Decode(s: seq<Octet>, p: nat) returns (next: nat, c: nat, e: nat)
    requires p + 4 <= |s|
    ensures next == p + CodePointLength(s[p]) && Decoded(c, e) == DecodeFirst(s[p..])
  {
    assert forall i :: 0 <= i < 4 ==> At(s[p..], i) == s[p + i];
    var len := CodePointLength(s[p]);
    next := p + len;
    c := s[p] % LEAD_RANGE[len] * 0x40000;
    c := c + s[p + 1] as int % 64 * 0x1000;
    c := c + s[p + 2] as int % 64 * 64;
    c := c + s[p + 3] % 64;
    DivParts(c, UNUSED[len]);
    c := c / UNUSED[len];
    assert c == Point(s[p], s[p + 1], s[p + 2], s[p + 3]);
    e := Errors(c, SMALLEST[len], s[p + 1], s[p + 2], s[p + 3]);
    DivParts(e, UNUSED_ERRORS[len]);
    e := e / UNUSED_ERRORS[len];
  }

  /** What is reported from position p on. */
  function DecodeFrom(s: seq<Octet>, p: nat): seq<Decoded> { if p < |s| then DecodeAll(s[p..]) else [] }

  lemma DecodeStep(s: seq<Octet>, p: nat)
    requires p < |s|
    ensures DecodeFrom(s, p) == [DecodeFirst(s[p..])] + DecodeFrom(s, p + CodePointLength(s[p]))
  {
    var t, n := s[p..], CodePointLength(s[p]);
    assert DecodeAll(t) == [DecodeFirst(t)] + DecodeAll(t[StepLength(t)..]);
    if p + n < |s| {
      assert t[n..] == s[p + n..];
    } else {
      assert t[|t|..] == [];
    }
  }

  predicate ReportedUpTo(reported: seq<Decoded>, s: seq<Octet>, p: nat)
  {
    reported + DecodeFrom(s, p) == DecodeAll(s)
  }

  lemma NoneReported(s: seq<Octet>)
    ensures ReportedUpTo([], s, 0)
  {
    assert s[0..] == s && [] + DecodeFrom(s, 0) == DecodeFrom(s, 0);
  }

  lemma ReportOne(reported: seq<Decoded>, s: seq<Octet>, p: nat, d: Decoded, more: seq<Decoded>, next: nat)
    requires p < |s| && ReportedUpTo(reported, s, p) && d == DecodeFirst(s[p..])
    requires more == reported + [d] && next == p + CodePointLength(s[p])
    ensures ReportedUpTo(more, s, next)
  {
    DecodeStep(s, p);
    MoveOver(reported, DecodeFrom(s, p), d, DecodeFrom(s, next), more);
  }

  /** Decodes and reports the character at p. */
  method DecodeOne(s: seq<Octet>, p: nat, given: seq<Decoded>) returns (next: nat, reported: seq<Decoded>)
    requires p + 4 <= |s| && ReportedUpTo(given, s, p)
    ensures next == p + CodePointLength(s[p]) && ReportedUpTo(reported, s, next)
  {
    var c, e;
    next, c, e := Utf8Decode(s, p);
    reported := given + [Decoded(c, e)];
    ReportOne(given, s, p, Decoded(c, e), reported, next);
  }

  /** Decodes in place while four bytes are left, then from a zero-padded copy of the rest. */
  method ForEachCodepoint(s: seq<Octet>) returns (reported: seq<Decoded>)
    ensures reported == DecodeAll(s)
  {
    reported := [];
    var p := 0;
    NoneReported(s);
    if |s| >= 4 {
      var end := |s| - 3;
      while p < end
        invariant 0 <= p <= |s| == end + 3
        invariant ReportedUpTo(reported, s, p)
      {
        p, reported := DecodeOne(s, p, reported);
      }
    }
    if |s| - p != 0 {
      var rest := DecodePadded(s[p..]);
      reported := reported + rest;
    } else {
      assert reported + [] == reported;
    }
  }

  method Pad(tail: seq<Octet>) returns (padded: seq<Octet>)
    requires |tail| <= 3
    ensures |padded| == 7 && forall i :: 0 <= i < 7 ==> padded[i] == if i < |tail| then tail[i] else 0
  {
    var buf := new Octet[7](_ => 0);
    forall i | 0 <= i < |tail| { buf[i] := tail[i]; }
    padded := buf[..];
  }

  /** The last one to three bytes, decoded from a buffer with zeros after them. */
  method DecodePadded(tail: seq<Octet>) returns (reported: seq<Decoded>)
    requires 0 < |tail| <= 3
    ensures reported == DecodeAll(tail)
  {
    var padded := Pad(tail);
    reported := [];
    var q := 0;
    NoneReported(tail);
    while q < |tail|
      invariant 0 <= q && ReportedUpTo(reported, tail, q)
    {
      PaddedTail(tail, padded, q);
      var next, c, e := Utf8Decode(padded, q);
      ReportOne(reported, tail, q, Decoded(c, e), reported + [Decoded(c, e)], next);
      reported := reported + [Decoded(c, e)];
      q := next;
    }
    assert reported + [] == reported;
  }

  lemma MoveOver(reported: seq<Decoded>, before: seq<Decoded>, d: Decoded, after: seq<Decoded>, more: seq<Decoded>)
    requires before == [d] + after && more == reported + [d]
    ensures more + after == reported + before
  {
  }

  lemma PaddedTail(tail: seq<Octet>, buf: seq<Octet>, q: nat)
    requires |buf| == 7 && q < |tail| <= 3 && forall i :: 0 <= i < 7 ==> buf[i] == At(tail, i)
    ensures DecodeFirst(buf[q..]) == DecodeFirst(tail[q..]) && buf[q] == tail[q]
  {
    assert forall i :: 0 <= i < 4 ==> At(buf[q..], i) == At(tail[q..], i);
  }

  /** No character starts with a stray byte. */
  predicate NoStray(s: seq<Octet>)
  {
    s != [] ==> !Stray(s[0]) && NoStray(s[StepLength(s)..])
  }

  function WithoutError(cs: seq<Scalar>): (ds: seq<Decoded>)
    ensures |ds| == |cs| && forall i :: 0 <= i < |cs| ==> ds[i] == Decoded(cs[i], 0)
  {
    if cs == [] then [] else [Decoded(cs[0], 0)] + WithoutError(cs[1..])
  }

  /** Decoding the encoding of any scalar values reports exactly those, without errors. */
  lemma {:induction false} RoundTrip(cs: seq<Scalar>)
    ensures DecodeAll(EncodeAll(cs)) == WithoutError(cs) && NoStray(EncodeAll(cs))
  {
    if cs != [] {
      RoundTrip(cs[1..]);
      FirstOfEncoded(cs[0], EncodeAll(cs[1..]));
      AfterFirst(EncodeScalar(cs[0]), EncodeAll(cs[1..]));
    }
  }

  lemma AfterFirst(bytes: seq<Octet>, rest: seq<Octet>)
    requires bytes != [] && StepLength(bytes + rest) == |bytes|
    ensures DecodeAll(bytes + rest) == [DecodeFirst(bytes + rest)] + DecodeAll(rest)
    ensures !Stray(bytes[0]) && NoStray(rest) ==> NoStray(bytes + rest)
  {
    assert (bytes + rest)[|bytes|..] == rest;
  }

  lemma FirstOfEncoded(c: Scalar, rest: seq<Octet>)
    ensures var s := EncodeScalar(c) + rest;
            DecodeFirst(s) == Decoded(c, 0) && StepLength(s) == |EncodeScalar(c)| && !Stray(s[0])
  {
    var s := EncodeScalar(c) + rest;
    assert EncodeScalar(c) <= [At(s, 0), At(s, 1), At(s, 2), At(s, 3)];
    DecodeAfterEncode(c, At(s, 0), At(s, 1), At(s, 2), At(s, 3));
  }

  predicate NoErrors(ds: seq<Decoded>) { forall i :: 0 <= i < |ds| ==> ds[i].error == 0 }

  /** Stray bytes aside, a string is decoded without error only if it is the encoding of what was reported. */
  lemma {:induction false} OnlyEncodingsHaveNoErrors(s: seq<Octet>) returns (cs: seq<Scalar>)
    requires NoErrors(DecodeAll(s)) && NoStray(s)
    ensures EncodeAll(cs) == s && WithoutError(cs) == DecodeAll(s)
  {
    cs := [];
    if s != [] {
      var rest := s[StepLength(s)..];
      var c := FirstHasNoError(s, rest);
      cs := OnlyEncodingsHaveNoErrors(rest);
      OneMore(c, cs);
      cs := [c] + cs;
    }
  }

  lemma FirstHasNoError(s: seq<Octet>, rest: seq<Octet>) returns (c: Scalar)
    requires s != [] && rest == s[StepLength(s)..] && NoErrors(DecodeAll(s)) && NoStray(s)
    ensures NoErrors(DecodeAll(rest)) && NoStray(rest)
    ensures s == EncodeScalar(c) + rest && DecodeAll(s) == [Decoded(c, 0)] + DecodeAll(rest)
  {
    FirstOfAll(s, rest);
    NoErrorsAfter(DecodeFirst(s), DecodeAll(rest));
    c := ExactFirst(s);
  }

  lemma FirstOfAll(s: seq<Octet>, rest: seq<Octet>)
    requires s != [] && rest == s[StepLength(s)..]
    ensures DecodeAll(s) == [DecodeFirst(s)] + DecodeAll(rest) && s == s[..StepLength(s)] + rest
    ensures NoStray(s) ==> !Stray(s[0]) && NoStray(rest)
  {
  }

  lemma OneMore(c: Scalar, cs: seq<Scalar>)
    ensures EncodeAll([c] + cs) == EncodeScalar(c) + EncodeAll(cs)
    ensures WithoutError([c] + cs) == [Decoded(c, 0)] + WithoutError(cs)
  {
    assert ([c] + cs)[1..] == cs;
  }

  lemma NoErrorsAfter(d: Decoded, ds: seq<Decoded>)
    requires NoErrors([d] + ds)
    ensures d.error == 0 && NoErrors(ds)
  {
    assert ([d] + ds)[0] == d && forall i :: 0 <= i < |ds| ==> ([d] + ds)[i + 1] == ds[i];
  }

  lemma ExactFirst(s: seq<Octet>) returns (c: Scalar)
    requires s != [] && DecodeFirst(s).error == 0 && !Stray(s[0])
    ensures DecodeFirst(s) == Decoded(c, 0) && EncodeScalar(c) == s[..StepLength(s)]
  {
    var bytes, len := [At(s, 0), At(s, 1), At(s, 2), At(s, 3)], CodePointLength(s[0]);
    ErrorIsExact(At(s, 0), At(s, 1), At(s, 2), At(s, 3));
    c := DecodeFirst(s).point;
    assert forall i :: 0 <= i < len ==> bytes[i] == EncodeScalar(c)[i];
    assert |s| < 4 ==> bytes[|s|] == 0;
    assert bytes[..len] == s[..len];
  }
}
