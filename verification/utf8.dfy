/**
 * `bytes.decode("utf-8")` with the default strict error handling: the
 * decoder accepts exactly the well-formed byte sequences of table 3-7 of
 * the Unicode Standard (no overlong forms, no surrogates, nothing above
 * U+10FFFF) and fails at the first ill-formed one. A byte order mark is
 * kept as the character U+FEFF.
 */
module Utf8 {
  import opened Wrappers
  import opened Bytes

  /** `UnicodeDecodeError`, with the offset of the first byte it could not decode. */
  datatype Error = InvalidUtf8(position: nat)

  /** A decoded character and the number of bytes that encoded it. */
  datatype Scalar = Scalar(c: char, width: nat)

  predicate IsContinuation(x: byte) { 0x80 <= x <= 0xBF }

  /** The range a second byte must lie in after the leading byte `b0` of a 3- or 4-byte form. */
  predicate SecondByteFits(b0: byte, b1: byte) {
    if b0 == 0xE0 then 0xA0 <= b1 <= 0xBF       // no overlong 3-byte form
    else if b0 == 0xED then 0x80 <= b1 <= 0x9F  // no surrogate
    else if b0 == 0xF0 then 0x90 <= b1 <= 0xBF  // no overlong 4-byte form
    else if b0 == 0xF4 then 0x80 <= b1 <= 0x8F  // nothing above U+10FFFF
    else IsContinuation(b1)
  }

  /** The code points that the 2-, 3- and 4-byte forms carry. */
  function Point2(b0: int, b1: int): int { (b0 - 0xC0) * 64 + (b1 - 0x80) }
  function Point3(b0: int, b1: int, b2: int): int { (b0 - 0xE0) * 4096 + (b1 - 0x80) * 64 + (b2 - 0x80) }
  function Point4(b0: int, b1: int, b2: int, b3: int): int {
    (b0 - 0xF0) * 262144 + (b1 - 0x80) * 4096 + (b2 - 0x80) * 64 + (b3 - 0x80)
  }

  /** The character at the front of `b`, if `b` starts with a well-formed sequence. */
  function DecodeScalar(b: seq<byte>): (r: Option<Scalar>)
    requires |b| > 0
    ensures r.Some? ==> 1 <= r.value.width <= |b| && r.value.width <= 4
  {
    var b0 := b[0];
    if b0 < 0x80 then Some(Scalar(b0 as char, 1))
    else if 0xC2 <= b0 <= 0xDF then
      if |b| >= 2 && IsContinuation(b[1])
      then Some(Scalar(Point2(b0, b[1]) as char, 2))
      else None
    else if 0xE0 <= b0 <= 0xEF then
      if |b| >= 3 && SecondByteFits(b0, b[1]) && IsContinuation(b[2])
      then Some(Scalar(Point3(b0, b[1], b[2]) as char, 3))
      else None
    else if 0xF0 <= b0 <= 0xF4 then
      if |b| >= 4 && SecondByteFits(b0, b[1]) && IsContinuation(b[2]) && IsContinuation(b[3])
      then Some(Scalar(Point4(b0, b[1], b[2], b[3]) as char, 4))
      else None
    else None  // 0x80..0xC1 and 0xF5..0xFF never start a character
  }

  /** Decodes `b`, whose first byte sits at offset `offset` of the whole input. */
  function DecodeFrom(b: seq<byte>, offset: nat): (r: Result<string, Error>)
    ensures r.Ok? ==> |r.value| <= |b|
    ensures r.Err? ==> offset <= r.error.position < offset + |b|
    decreases |b|
  {
    if b == [] then Ok("")
    else match DecodeScalar(b)
      case None => Err(InvalidUtf8(offset))
      case Some(sc) =>
        match DecodeFrom(b[sc.width..], offset + sc.width)
        case Ok(rest) => Ok([sc.c] + rest)
        case Err(e) => Err(e)
  }

  /** `b.decode("utf-8")`. */
  function Decode(b: seq<byte>): (r: Result<string, Error>)
    ensures r.Ok? ==> |r.value| <= |b|
    ensures r.Err? ==> r.error.position < |b|
  {
    DecodeFrom(b, 0)
  }

  /** The shortest-form encoding of one character. */
  function EncodeChar(c: char): (b: seq<byte>)
    ensures 1 <= |b| <= 4
  {
    var n := c as int;
    if n < 0x80 then [n]
    else if n < 0x800 then [0xC0 + n / 64, 0x80 + n % 64]
    else if n < 0x1_0000 then [0xE0 + n / 4096, 0x80 + n / 64 % 64, 0x80 + n % 64]
    else [0xF0 + n / 262144, 0x80 + n / 4096 % 64, 0x80 + n / 64 % 64, 0x80 + n % 64]
  }

  /** `s.encode("utf-8")`. */
  function Encode(s: string): seq<byte>
    decreases |s|
  {
    if s == [] then [] else EncodeChar(s[0]) + Encode(s[1..])
  }

  lemma DivMod64(q: int, r: int)
    requires 0 <= r < 64
    ensures (q * 64 + r) / 64 == q && (q * 64 + r) % 64 == r
  {
  }

  lemma DivMod4096(q: int, r: int)
    requires 0 <= r < 4096
    ensures (q * 4096 + r) / 4096 == q
  {
  }

  lemma DivMod262144(q: int, r: int)
    requires 0 <= r < 262144
    ensures (q * 262144 + r) / 262144 == q
  {
  }

  lemma DecodeTwo(n: int, rest: seq<byte>)
    requires 0x80 <= n < 0x800
    ensures var b := [0xC0 + n / 64, 0x80 + n % 64] + rest;
      0xC2 <= b[0] <= 0xDF && IsContinuation(b[1]) && Point2(b[0], b[1]) == n
  {
  }

  lemma DecodeThree(n: int, rest: seq<byte>)
    requires 0x800 <= n < 0xD800 || 0xE000 <= n < 0x1_0000
    ensures var b := [0xE0 + n / 4096, 0x80 + n / 64 % 64, 0x80 + n % 64] + rest;
      0xE0 <= b[0] <= 0xEF && SecondByteFits(b[0], b[1]) && IsContinuation(b[2]) && Point3(b[0], b[1], b[2]) == n
  {
    var hi := n / 64;
    DivMod64(hi, n % 64);
    DivMod64(hi / 64, hi % 64);
  }

  lemma DecodeFour(n: int, rest: seq<byte>)
    requires 0x1_0000 <= n < 0x11_0000
    ensures var b := [0xF0 + n / 262144, 0x80 + n / 4096 % 64, 0x80 + n / 64 % 64, 0x80 + n % 64] + rest;
      0xF0 <= b[0] <= 0xF4 && SecondByteFits(b[0], b[1]) && IsContinuation(b[2]) && IsContinuation(b[3])
      && Point4(b[0], b[1], b[2], b[3]) == n
  {
    var b := [0xF0 + n / 262144, 0x80 + n / 4096 % 64, 0x80 + n / 64 % 64, 0x80 + n % 64] + rest;
    var q1, q2 := n / 64, n / 4096;
    assert n == q1 * 64 + n % 64;
    assert q1 == q2 * 64 + q1 % 64;
    assert q2 == n / 262144 * 64 + q2 % 64;
    assert Point4(b[0], b[1], b[2], b[3]) == ((n / 262144 * 64 + q2 % 64) * 64 + q1 % 64) * 64 + n % 64;
  }

  /** The decoder reads back the encoding of one character, whatever follows it. */
  lemma DecodeScalarEncodeChar(c: char, rest: seq<byte>)
    ensures DecodeScalar(EncodeChar(c) + rest) == Some(Scalar(c, |EncodeChar(c)|))
  {
    var n := c as int;
    if n < 0x80 {
    } else if n < 0x800 {
      DecodeTwo(n, rest);
    } else if n < 0x1_0000 {
      DecodeThree(n, rest);
    } else {
      DecodeFour(n, rest);
    }
  }

  lemma EncodeTwo(b0: byte, b1: byte)
    requires 0xC2 <= b0 <= 0xDF && IsContinuation(b1)
    ensures 0x80 <= Point2(b0, b1) < 0x800
    ensures EncodeChar(Point2(b0, b1) as char) == [b0, b1]
  {
    DivMod64(b0 - 0xC0, b1 - 0x80);
  }

  lemma EncodeThree(b0: byte, b1: byte, b2: byte)
    requires 0xE0 <= b0 <= 0xEF && SecondByteFits(b0, b1) && IsContinuation(b2)
    ensures 0x800 <= Point3(b0, b1, b2) < 0xD800 || 0xE000 <= Point3(b0, b1, b2) < 0x1_0000
    ensures EncodeChar(Point3(b0, b1, b2) as char) == [b0, b1, b2]
  {
    var n := Point3(b0, b1, b2);
    var hi := (b0 - 0xE0) * 64 + (b1 - 0x80);
    DivMod64(hi, b2 - 0x80);
    DivMod64(b0 - 0xE0, b1 - 0x80);
    DivMod4096(b0 - 0xE0, (b1 - 0x80) * 64 + (b2 - 0x80));
  }

  lemma EncodeFour(b0: byte, b1: byte, b2: byte, b3: byte)
    requires 0xF0 <= b0 <= 0xF4 && SecondByteFits(b0, b1) && IsContinuation(b2) && IsContinuation(b3)
    ensures 0x1_0000 <= Point4(b0, b1, b2, b3) < 0x11_0000
    ensures EncodeChar(Point4(b0, b1, b2, b3) as char) == [b0, b1, b2, b3]
  {
    var n := Point4(b0, b1, b2, b3);
    var t1 := (b0 - 0xF0) * 64 + (b1 - 0x80);
    var t2 := t1 * 64 + (b2 - 0x80);
    assert n == t2 * 64 + (b3 - 0x80);
    DivMod64(t2, b3 - 0x80);
    DivMod64(t1, b2 - 0x80);
    DivMod64(b0 - 0xF0, b1 - 0x80);
    DivMod4096(t1, (b2 - 0x80) * 64 + (b3 - 0x80));
    DivMod262144(b0 - 0xF0, (b1 - 0x80) * 4096 + (b2 - 0x80) * 64 + (b3 - 0x80));
  }

  /** A well-formed sequence accepted by the decoder is the shortest-form encoding of what it decodes to. */
  lemma EncodeCharDecodeScalar(b: seq<byte>)
    requires |b| > 0 && DecodeScalar(b).Some?
    ensures EncodeChar(DecodeScalar(b).value.c) == b[..DecodeScalar(b).value.width]
  {
    var b0 := b[0];
    if b0 < 0x80 {
    } else if b0 <= 0xDF {
      EncodeTwo(b0, b[1]);
    } else if b0 <= 0xEF {
      EncodeThree(b0, b[1], b[2]);
    } else {
      EncodeFour(b0, b[1], b[2], b[3]);
    }
  }

  lemma {:induction false} DecodeFromEncode(s: string, offset: nat)
    ensures DecodeFrom(Encode(s), offset) == Ok(s)
    decreases |s|
  {
    if s != [] {
      var e, r := EncodeChar(s[0]), Encode(s[1..]);
      assert Encode(s) == e + r;
      DecodeScalarEncodeChar(s[0], r);
      assert DecodeScalar(e + r).value.width == |e|;
      assert (e + r)[|e|..] == r;
      DecodeFromEncode(s[1..], offset + |e|);
      assert [s[0]] + s[1..] == s;
    }
  }

  /**
   * One step of a successful decoding: the first `w` bytes encode the first
   * character, and the remaining bytes decode to the remaining characters.
   */
  lemma DecodeFromStep(b: seq<byte>, offset: nat, s: string) returns (w: nat)
    requires b != [] && DecodeFrom(b, offset) == Ok(s)
    ensures 1 <= w <= |b| && s != []
    ensures EncodeChar(s[0]) == b[..w]
    ensures DecodeFrom(b[w..], offset + w) == Ok(s[1..])
  {
    w := DecodeScalar(b).value.width;
    EncodeCharDecodeScalar(b);
  }

  lemma {:induction false} EncodeDecodeFrom(b: seq<byte>, offset: nat, s: string)
    requires DecodeFrom(b, offset) == Ok(s)
    ensures Encode(s) == b
    decreases |b|
  {
    if b != [] {
      var w := DecodeFromStep(b, offset, s);
      EncodeDecodeFrom(b[w..], offset + w, s[1..]);
      EncodeCons(s, b[..w], b[w..]);
      assert b[..w] + b[w..] == b;
    }
  }

  lemma EncodeCons(s: string, first: seq<byte>, others: seq<byte>)
    requires s != [] && EncodeChar(s[0]) == first && Encode(s[1..]) == others
    ensures Encode(s) == first + others
  {
  }

  /** Decoding succeeds exactly on the encodings of strings, and then inverts the encoding. */
  lemma DecodeIffEncoded(b: seq<byte>, s: string)
    ensures Decode(b) == Ok(s) <==> b == Encode(s)
  {
    if Decode(b) == Ok(s) { EncodeDecodeFrom(b, 0, s); }
    if b == Encode(s) { DecodeFromEncode(s, 0); }
  }

  /** `DecodeIffEncoded` for every string at once. */
  lemma DecodeExactlyEncoded(b: seq<byte>)
    ensures forall t {:trigger Encode(t)} :: Decode(b) == Ok(t) <==> b == Encode(t)
  {
    forall t {:trigger Encode(t)} ensures Decode(b) == Ok(t) <==> b == Encode(t) {
      DecodeIffEncoded(b, t);
    }
  }
}
