/**
 * Base64 as the read path uses it: `base64.b64decode(encoded_str)` with the
 * default `validate=False`, i.e. CPython's lenient `binascii.a2b_base64`.
 * The alphabet is the one of section 4 of RFC 4648. The decoder
 *  - refuses a string holding a non-ASCII character (the `str` argument is
 *    first encoded as ASCII),
 *  - skips every character outside the alphabet and outside `=`,
 *  - stops at the first padding run that completes a quad,
 *  - fails when the data characters leave one character over, or two or
 *    three without the padding that completes them.
 * `Encode` is the canonical padded encoder; `DecodeEncode` proves that the
 * decoder inverts it.
 */
module Base64 {
  import opened Wrappers
  import opened Bytes

  /** The errors `b64decode` raises, without their message texts. */
  datatype Error =
    | NonAsciiInput                  // ValueError from the str -> ASCII conversion
    | LoneDataCharacter(count: nat)  // binascii.Error: data characters are 1 more than a multiple of 4
    | IncorrectPadding               // binascii.Error: "Incorrect padding"

  predicate IsAscii(c: char) { c as int < 128 }

  predicate AllAscii(s: string) { forall i :: 0 <= i < |s| ==> IsAscii(s[i]) }

  /** Characters of the base64 alphabet (section 4 of RFC 4648, table 1). */
  predicate IsAlphabet(c: char) {
    ('A' <= c <= 'Z') || ('a' <= c <= 'z') || ('0' <= c <= '9') || c == '+' || c == '/'
  }

  /** The 6-bit value of an alphabet character. */
  function Value(c: char): (v: nat)
    requires IsAlphabet(c)
    ensures v < 64
    ensures Symbol(v) == c
  {
    if 'A' <= c <= 'Z' then c as int - 'A' as int
    else if 'a' <= c <= 'z' then c as int - 'a' as int + 26
    else if '0' <= c <= '9' then c as int - '0' as int + 52
    else if c == '+' then 62
    else 63
  }

  /** The alphabet character for a 6-bit value. */
  function Symbol(v: nat): (c: char)
    requires v < 64
    ensures IsAlphabet(c) && IsAscii(c)
  {
    if v < 26 then ('A' as int + v) as char
    else if v < 52 then ('a' as int + v - 26) as char
    else if v < 62 then ('0' as int + v - 52) as char
    else if v == 62 then '+'
    else '/'
  }

  lemma SymbolValue(v: nat)
    requires v < 64
    ensures Value(Symbol(v)) == v
  {
  }

  /**
   * The decoder's state between two input characters: the position in the
   * current quad, the bits of the previous character not yet written out,
   * the number of `=` seen since the last data character once the quad
   * holds two or three characters, and the bytes written so far.
   */
  datatype State = State(pos: nat, left: nat, pads: nat, out: seq<byte>)

  const Start := State(0, 0, 0, [])

  /** One data character of value `v` (each byte is written as an `unsigned char`). */
  function Absorb(st: State, v: nat): State
    requires v < 64
  {
    if st.pos == 0 then State(1, v, 0, st.out)
    else if st.pos == 1 then State(2, v % 16, 0, st.out + [(st.left * 4 + v / 16) % 256])
    else if st.pos == 2 then State(3, v % 4, 0, st.out + [(st.left * 16 + v / 4) % 256])
    else State(0, 0, 0, st.out + [(st.left * 64 + v) % 256])
  }

  /** The end of the input (without a completing padding run). */
  function Finish(st: State): Result<seq<byte>, Error> {
    if st.pos == 0 then Ok(st.out)
    else if st.pos == 1 then Err(LoneDataCharacter(|st.out| / 3 * 4 + 1))
    else Err(IncorrectPadding)
  }

  /**
   * How many quarters of a byte the quad in progress still falls short of
   * three quarters of a byte per character: each data character adds at
   * most three quarters of a byte to the output, counted over whole quads.
   */
  function Slack(pos: nat): nat {
    if pos == 0 || pos >= 4 then 0 else 4 - pos
  }

  /** Feeds the characters of `s` one by one, left to right. */
  function Feed(st: State, s: string): Result<seq<byte>, Error>
    decreases |s|
  {
    if s == [] then Finish(st)
    else if s[0] == '=' then
      if st.pos >= 2 && st.pos + st.pads + 1 >= 4 then Ok(st.out)  // the quad is complete: stop
      else Feed(if st.pos >= 2 then st.(pads := st.pads + 1) else st, s[1..])
    else if IsAlphabet(s[0]) then Feed(Absorb(st, Value(s[0])), s[1..])
    else Feed(st, s[1..])  // not in the alphabet: discarded
  }

  /** Each character adds at most three quarters of a byte, counted over whole quads. */
  lemma {:induction false} FeedBound(st: State, s: string)
    requires st.pos < 4
    ensures Feed(st, s).Ok? ==> 4 * |Feed(st, s).value| <= 4 * |st.out| + Slack(st.pos) + 3 * |s|
    decreases |s|
  {
    if s != [] {
      if s[0] == '=' {
        if !(st.pos >= 2 && st.pos + st.pads + 1 >= 4) {
          FeedBound(if st.pos >= 2 then st.(pads := st.pads + 1) else st, s[1..]);
        }
      } else if IsAlphabet(s[0]) {
        FeedBound(Absorb(st, Value(s[0])), s[1..]);
      } else {
        FeedBound(st, s[1..]);
      }
    }
  }

  /** `base64.b64decode(s)` on a `str`. */
  function Decode(s: string): (r: Result<seq<byte>, Error>)
    ensures r.Ok? ==> 4 * |r.value| <= 3 * |s|
  {
    if !AllAscii(s) then Err(NonAsciiInput)
    else
      FeedBound(Start, s);
      Feed(Start, s)
  }

  /** The four characters that encode the three bytes `b0 b1 b2`. */
  function Group(b0: byte, b1: byte, b2: byte): (s: string)
    ensures |s| == 4
  {
    [Symbol(b0 / 4), Symbol(b0 % 4 * 16 + b1 / 16), Symbol(b1 % 16 * 4 + b2 / 64), Symbol(b2 % 64)]
  }

  /** The canonical padded encoding: four characters for every three bytes. */
  function Encode(b: seq<byte>): (s: string)
    decreases |b|
  {
    if |b| == 0 then ""
    else if |b| == 1 then [Symbol(b[0] / 4), Symbol(b[0] % 4 * 16), '=', '=']
    else if |b| == 2 then
      [Symbol(b[0] / 4), Symbol(b[0] % 4 * 16 + b[1] / 16), Symbol(b[1] % 16 * 4), '=']
    else Group(b[0], b[1], b[2]) + Encode(b[3..])
  }

  /** The encoding has four characters per started group of three bytes, all of them ASCII. */
  lemma {:induction false} EncodeShape(b: seq<byte>)
    ensures |Encode(b)| == (|b| + 2) / 3 * 4
    ensures AllAscii(Encode(b))
    decreases |b|
  {
    if |b| >= 3 {
      EncodeShape(b[3..]);
      var g, r := Group(b[0], b[1], b[2]), Encode(b[3..]);
      assert Encode(b) == g + r;
      GroupCount(|b|);
      AsciiAppend(g, r);
    }
  }

  lemma GroupCount(n: nat)
    requires n >= 3
    ensures (n + 2) / 3 * 4 == 4 + (n - 3 + 2) / 3 * 4
  {
  }

  lemma AsciiAppend(s: string, t: string)
    requires AllAscii(s) && AllAscii(t)
    ensures AllAscii(s + t)
  {
    forall i | 0 <= i < |s + t| ensures IsAscii((s + t)[i]) {
      if i >= |s| { assert (s + t)[i] == t[i - |s|]; }
    }
  }

  /** Feeding a data character is absorbing its value. */
  lemma FeedData(st: State, c: char, rest: string)
    requires IsAlphabet(c)
    ensures Feed(st, [c] + rest) == Feed(Absorb(st, Value(c)), rest)
  {
    assert ([c] + rest)[1..] == rest;
  }

  /** The bytes written by a group decode back to the bytes that were encoded. */
  lemma GroupArithmetic(b0: byte, b1: byte, b2: byte)
    ensures (b0 / 4 * 4 + (b0 % 4 * 16 + b1 / 16) / 16) % 256 == b0
    ensures ((b0 % 4 * 16 + b1 / 16) % 16 * 16 + (b1 % 16 * 4 + b2 / 64) / 4) % 256 == b1
    ensures ((b1 % 16 * 4 + b2 / 64) % 4 * 64 + b2 % 64) % 256 == b2
  {
  }

  /** Feeding one complete encoded group writes its three bytes and returns to a quad boundary. */
  lemma FeedGroup(out: seq<byte>, b0: byte, b1: byte, b2: byte, rest: string)
    ensures Feed(State(0, 0, 0, out), Group(b0, b1, b2) + rest) == Feed(State(0, 0, 0, out + [b0, b1, b2]), rest)
  {
    var v0, v1, v2, v3 := b0 / 4, b0 % 4 * 16 + b1 / 16, b1 % 16 * 4 + b2 / 64, b2 % 64;
    SymbolValue(v0); SymbolValue(v1); SymbolValue(v2); SymbolValue(v3);
    GroupArithmetic(b0, b1, b2);
    var c0, c1, c2, c3 := Symbol(v0), Symbol(v1), Symbol(v2), Symbol(v3);
    assert Group(b0, b1, b2) + rest == [c0] + ([c1] + ([c2] + ([c3] + rest)));
    var st0 := State(0, 0, 0, out);
    var st1 := Absorb(st0, v0);
    var st2 := Absorb(st1, v1);
    var st3 := Absorb(st2, v2);
    FeedData(st0, c0, [c1] + ([c2] + ([c3] + rest)));
    FeedData(st1, c1, [c2] + ([c3] + rest));
    FeedData(st2, c2, [c3] + rest);
    FeedData(st3, c3, rest);
    assert st3 == State(3, v2 % 4, 0, out + [b0, b1]);
    assert Absorb(st3, v3) == State(0, 0, 0, out + [b0, b1, b2]);
  }

  /** A final lone byte, encoded as two characters and `==`: decoding stops after the padding. */
  lemma FeedLastOne(out: seq<byte>, b0: byte, rest: string)
    ensures Feed(State(0, 0, 0, out), Encode([b0]) + rest) == Ok(out + [b0])
  {
    var v0, v1 := b0 / 4, b0 % 4 * 16;
    SymbolValue(v0); SymbolValue(v1);
    GroupArithmetic(b0, 0, 0);
    var c0, c1 := Symbol(v0), Symbol(v1);
    assert Encode([b0]) + rest == [c0] + ([c1] + (['='] + (['='] + rest)));
    var st0 := State(0, 0, 0, out);
    var st1 := Absorb(st0, v0);
    var st2 := Absorb(st1, v1);
    FeedData(st0, c0, [c1] + (['='] + (['='] + rest)));
    FeedData(st1, c1, ['='] + (['='] + rest));
    assert st2 == State(2, v1 % 16, 0, out + [b0]);
    assert (['='] + (['='] + rest))[1..] == ['='] + rest;
    assert Feed(st2, ['='] + (['='] + rest)) == Feed(st2.(pads := 1), ['='] + rest);
  }

  /** Two final bytes, encoded as three characters and `=`: decoding stops after the padding. */
  lemma FeedLastTwo(out: seq<byte>, b0: byte, b1: byte, rest: string)
    ensures Feed(State(0, 0, 0, out), Encode([b0, b1]) + rest) == Ok(out + [b0, b1])
  {
    var v0, v1, v2 := b0 / 4, b0 % 4 * 16 + b1 / 16, b1 % 16 * 4;
    SymbolValue(v0); SymbolValue(v1); SymbolValue(v2);
    GroupArithmetic(b0, b1, 0);
    var c0, c1, c2 := Symbol(v0), Symbol(v1), Symbol(v2);
    assert Encode([b0, b1]) + rest == [c0] + ([c1] + ([c2] + (['='] + rest)));
    var st0 := State(0, 0, 0, out);
    var st1 := Absorb(st0, v0);
    var st2 := Absorb(st1, v1);
    var st3 := Absorb(st2, v2);
    FeedData(st0, c0, [c1] + ([c2] + (['='] + rest)));
    FeedData(st1, c1, [c2] + (['='] + rest));
    FeedData(st2, c2, ['='] + rest);
    assert st3 == State(3, v2 % 4, 0, out + [b0, b1]);
  }

  /**
   * Decoding the canonical encoding of `b` after the bytes `out`: a whole
   * number of groups carries on into what follows; a padded last group ends
   * the decoding, and whatever follows it is ignored.
   */
  lemma {:induction false} FeedEncode(out: seq<byte>, b: seq<byte>, rest: string)
    ensures Feed(State(0, 0, 0, out), Encode(b) + rest)
         == if |b| % 3 == 0 then Feed(State(0, 0, 0, out + b), rest) else Ok(out + b)
    decreases |b|
  {
    if |b| == 0 {
      assert Encode(b) + rest == rest && out + b == out;
    } else if |b| == 1 {
      assert b == [b[0]];
      FeedLastOne(out, b[0], rest);
    } else if |b| == 2 {
      assert b == [b[0], b[1]];
      FeedLastTwo(out, b[0], b[1], rest);
    } else {
      FeedEncodeStep(out, b, rest);
    }
  }

  lemma {:induction false} FeedEncodeStep(out: seq<byte>, b: seq<byte>, rest: string)
    requires |b| >= 3
    ensures Feed(State(0, 0, 0, out), Encode(b) + rest)
         == if |b| % 3 == 0 then Feed(State(0, 0, 0, out + b), rest) else Ok(out + b)
    decreases |b|, 0
  {
    var tail := b[3..];
    var out' := out + [b[0], b[1], b[2]];
    var g := Group(b[0], b[1], b[2]);
    assert Encode(b) == g + Encode(tail);
    assert Encode(b) + rest == g + (Encode(tail) + rest);
    FeedGroup(out, b[0], b[1], b[2], Encode(tail) + rest);
    assert Feed(State(0, 0, 0, out), Encode(b) + rest) == Feed(State(0, 0, 0, out'), Encode(tail) + rest);
    FeedEncode(out', tail, rest);
    assert out' + tail == out + b;
    DropGroupMod(|b|);
  }

  lemma DropGroupMod(n: nat)
    requires n >= 3
    ensures (n - 3) % 3 == n % 3
  {
  }

  /** Round trip: `b64decode` returns exactly the bytes a canonical encoder encoded. */
  lemma DecodeEncode(b: seq<byte>)
    ensures Decode(Encode(b)) == Ok(b)
  {
    EncodeShape(b);
    FeedEncode([], b, []);
    assert Encode(b) + [] == Encode(b);
    assert [] + b == b;
    assert Start == State(0, 0, 0, []);
  }

  /** The bytes of several fragments, one after the other. */
  function Flatten(frags: seq<seq<byte>>): seq<byte>
    decreases |frags|
  {
    if frags == [] then [] else frags[0] + Flatten(frags[1..])
  }

  /** Each fragment encoded on its own, and the encodings joined. */
  function JoinEncoded(frags: seq<seq<byte>>): string
    decreases |frags|
  {
    if frags == [] then [] else Encode(frags[0]) + JoinEncoded(frags[1..])
  }

  lemma {:induction false} JoinEncodedAscii(frags: seq<seq<byte>>)
    ensures AllAscii(JoinEncoded(frags))
    decreases |frags|
  {
    if frags != [] {
      EncodeShape(frags[0]);
      JoinEncodedAscii(frags[1..]);
      AsciiAppend(Encode(frags[0]), JoinEncoded(frags[1..]));
    }
  }

  lemma {:induction false} FeedJoined(out: seq<byte>, frags: seq<seq<byte>>, later: string)
    requires |frags| >= 1
    requires forall i :: 0 <= i < |frags| - 1 ==> |frags[i]| % 3 == 0
    requires |frags[|frags| - 1]| % 3 != 0
    ensures Feed(State(0, 0, 0, out), JoinEncoded(frags) + later) == Ok(out + Flatten(frags))
    decreases |frags|, 1
  {
    if |frags| == 1 {
      var f := frags[0];
      assert JoinEncoded(frags) + later == Encode(f) + (JoinEncoded([]) + later);
      FeedEncodePadded(out, f, JoinEncoded([]) + later);
      assert Flatten(frags) == f + Flatten([]) == f + [] == f;
    } else {
      FeedJoinedStep(out, frags, later);
    }
  }

  lemma {:induction false} FeedJoinedStep(out: seq<byte>, frags: seq<seq<byte>>, later: string)
    requires |frags| >= 2
    requires forall i :: 0 <= i < |frags| - 1 ==> |frags[i]| % 3 == 0
    requires |frags[|frags| - 1]| % 3 != 0
    ensures Feed(State(0, 0, 0, out), JoinEncoded(frags) + later) == Ok(out + Flatten(frags))
    decreases |frags|, 0
  {
    var f, tail := frags[0], frags[1..];
    var after := JoinEncoded(tail) + later;
    assert JoinEncoded(frags) + later == Encode(f) + after;
    FeedEncodeWhole(out, f, after);
    FeedJoined(out + f, tail, later);
    assert out + f + Flatten(tail) == out + Flatten(frags);
  }

  lemma FeedEncodeWhole(out: seq<byte>, b: seq<byte>, rest: string)
    requires |b| % 3 == 0
    ensures Feed(State(0, 0, 0, out), Encode(b) + rest) == Feed(State(0, 0, 0, out + b), rest)
  {
    FeedEncode(out, b, rest);
  }

  lemma FeedEncodePadded(out: seq<byte>, b: seq<byte>, rest: string)
    requires |b| % 3 != 0
    ensures Feed(State(0, 0, 0, out), Encode(b) + rest) == Ok(out + b)
  {
    FeedEncode(out, b, rest);
  }

  /**
   * Fragments encoded one by one and then joined: decoding runs through the
   * fragments whose length is a multiple of three, stops at the first one
   * that ends in padding, and silently drops whatever comes after it.
   */
  lemma DecodeStopsAfterPadding(frags: seq<seq<byte>>, later: string)
    requires |frags| >= 1
    requires forall i :: 0 <= i < |frags| - 1 ==> |frags[i]| % 3 == 0
    requires |frags[|frags| - 1]| % 3 != 0
    requires AllAscii(later)
    ensures Decode(JoinEncoded(frags) + later) == Ok(Flatten(frags))
  {
    JoinEncodedAscii(frags);
    AsciiAppend(JoinEncoded(frags), later);
    FeedJoined([], frags, later);
    assert [] + Flatten(frags) == Flatten(frags);
    assert Start == State(0, 0, 0, []);
  }
}
