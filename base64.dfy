/**
 * Base64 with the standard alphabet and `=` padding (section 4 of RFC 4648),
 * as Python's `base64.b64encode` writes it and as `base64.b64decode` (with
 * `validate=False`) reads it. The reader is CPython's non-strict
 * `binascii.a2b_base64` loop: characters outside the alphabet are skipped, a
 * complete pad sequence ends the input, and a dangling partial quantum is an
 * error.
 */
module Base64 {
  import opened Basics

  const Pad: char := '='

  /** The character of a 6-bit value. */
  function Digit(v: int): (c: char)
    requires 0 <= v < 64
  {
    if v < 26 then ('A' as int + v) as char
    else if v < 52 then ('a' as int + (v - 26)) as char
    else if v < 62 then ('0' as int + (v - 52)) as char
    else if v == 62 then '+'
    else '/'
  }

  /** The 6-bit value of a character, `None` for a character outside the alphabet. */
  function SextetOf(c: char): (r: Option<int>)
    ensures r.Some? ==> 0 <= r.value < 64 && Digit(r.value) == c
  {
    if 'A' <= c <= 'Z' then Some(c as int - 'A' as int)
    else if 'a' <= c <= 'z' then Some(c as int - 'a' as int + 26)
    else if '0' <= c <= '9' then Some(c as int - '0' as int + 52)
    else if c == '+' then Some(62)
    else if c == '/' then Some(63)
    else None
  }

  /** Reading a digit back gives its value: the alphabet is a bijection. */
  lemma SextetOfDigit(v: int)
    requires 0 <= v < 64
    ensures SextetOf(Digit(v)) == Some(v)
  {
  }

  /** What `b64encode` may write: alphabet characters and padding. */
  predicate IsEncodingChar(c: char)
  {
    SextetOf(c).Some? || c == Pad
  }

  /** The four characters of three bytes. */
  function Quantum(b0: Byte, b1: Byte, b2: Byte): string
  {
    [Digit(b0 / 4), Digit(b0 % 4 * 16 + b1 / 16), Digit(b1 % 16 * 4 + b2 / 64), Digit(b2 % 64)]
  }

  /** `base64.b64encode(b)`: every group of three bytes becomes four characters, a short last group is padded. */
  function Encode(b: Bytes): (s: string)
    ensures |s| == (|b| + 2) / 3 * 4
    ensures forall k :: 0 <= k < |s| ==> IsEncodingChar(s[k])
    decreases |b|
  {
    if |b| == 0 then []
    else if |b| == 1 then [Digit(b[0] / 4), Digit(b[0] % 4 * 16), Pad, Pad]
    else if |b| == 2 then [Digit(b[0] / 4), Digit(b[0] % 4 * 16 + b[1] / 16), Digit(b[1] % 16 * 4), Pad]
    else Quantum(b[0], b[1], b[2]) + Encode(b[3..])
  }

  /** The state of the decoding loop: position in the quantum, pending bits, pads seen, output, and whether a pad sequence ended the input. */
  datatype Decoder = Decoder(quad: int, left: int, pads: int, out: Bytes, stopped: bool)

  const Start := Decoder(0, 0, 0, [], false)

  /** One character through the decoding loop. Each output byte is stored through an `unsigned char`, hence `% 256`. */
  function Feed(d: Decoder, c: char): Decoder
  {
    if d.stopped then d
    else if c == Pad then
      if d.quad >= 2 && d.quad + d.pads + 1 >= 4 then d.(pads := d.pads + 1, stopped := true)
      else if d.quad >= 2 then d.(pads := d.pads + 1)
      else d
    else
      match SextetOf(c)
      case None => d
      case Some(v) =>
        if d.quad == 0 then d.(quad := 1, left := v, pads := 0)
        else if d.quad == 1 then d.(quad := 2, out := d.out + [(d.left * 4 + v / 16) % 256], left := v % 16, pads := 0)
        else if d.quad == 2 then d.(quad := 3, out := d.out + [(d.left * 16 + v / 4) % 256], left := v % 4, pads := 0)
        else d.(quad := 0, out := d.out + [(d.left * 64 + v) % 256], left := 0, pads := 0)
  }

  function Run(d: Decoder, s: string): Decoder
    decreases |s|
  {
    if |s| == 0 then d else Run(Feed(d, s[0]), s[1..])
  }

  datatype DecodeError =
    | NonAscii           // `b64decode` on a str holding a non-ASCII character
    | DanglingSextet     // one data character more than a multiple of four
    | IncorrectPadding

  /** The check after the loop: a quantum left open without a pad sequence is an error. */
  function Finish(d: Decoder): Result<Bytes, DecodeError>
  {
    if d.stopped || d.quad == 0 then Ok(d.out)
    else if d.quad == 1 then Err(DanglingSextet)
    else Err(IncorrectPadding)
  }

  /** Output owed by an open quantum: with it, every character fed pays for at most three quarters of a byte. */
  function Debt(quad: int): int
  {
    if quad == 1 then 3 else if quad == 2 then 2 else if quad == 3 then 1 else 0
  }

  /** The decoding loop writes at most three bytes per four characters, counting the open quantum's debt. */
  lemma {:induction false} RunBound(d: Decoder, s: string)
    requires 0 <= d.quad < 4
    ensures var e := Run(d, s);
            && 0 <= e.quad < 4
            && 4 * |e.out| + Debt(e.quad) <= 4 * |d.out| + Debt(d.quad) + 3 * |s|
    decreases |s|
  {
    if |s| > 0 {
      RunBound(Feed(d, s[0]), s[1..]);
    }
  }

  /** `base64.b64decode(s)` for a str argument: non-ASCII text is refused, and the output is at most three bytes per four characters. */
  function Decode(s: string): (r: Result<Bytes, DecodeError>)
    ensures r.Ok? ==> forall k :: 0 <= k < |s| ==> s[k] as int < 128
    ensures r.Ok? ==> 4 * |r.value| <= 3 * |s|
  {
    if exists k :: 0 <= k < |s| && s[k] as int >= 128 then Err(NonAscii)
    else
      RunBound(Start, s);
      Finish(Run(Start, s))
  }

  lemma {:induction false} RunAppend(d: Decoder, s: string, t: string)
    ensures Run(d, s + t) == Run(Run(d, s), t)
    decreases |s|
  {
    if |s| == 0 {
      assert s + t == t;
    } else {
      assert (s + t)[0] == s[0];
      assert (s + t)[1..] == s[1..] + t;
      RunAppend(Feed(d, s[0]), s[1..], t);
    }
  }

  lemma RunFour(d: Decoder, c0: char, c1: char, c2: char, c3: char)
    ensures Run(d, [c0, c1, c2, c3]) == Feed(Feed(Feed(Feed(d, c0), c1), c2), c3)
  {
    var s := [c0, c1, c2, c3];
    var d1, d2, d3 := Feed(d, c0), Feed(Feed(d, c0), c1), Feed(Feed(Feed(d, c0), c1), c2);
    assert s[1..] == [c1, c2, c3] && [c1, c2, c3][1..] == [c2, c3] && [c2, c3][1..] == [c3] && [c3][1..] == [];
    assert Run(d, s) == Run(d1, [c1, c2, c3]);
    assert Run(d1, [c1, c2, c3]) == Run(d2, [c2, c3]);
    assert Run(d2, [c2, c3]) == Run(d3, [c3]);
    assert Run(d3, [c3]) == Feed(d3, c3);
  }

  /** Splitting a value into a high part and a low part below the divisor, for the three divisors of the format. */
  lemma Parts(q: int, r: int)
    requires 0 <= q && 0 <= r
    ensures r < 4 ==> (q * 4 + r) / 4 == q && (q * 4 + r) % 4 == r
    ensures r < 16 ==> (q * 16 + r) / 16 == q && (q * 16 + r) % 16 == r
    ensures r < 64 ==> (q * 64 + r) / 64 == q && (q * 64 + r) % 64 == r
  {
  }

  /** The first data character of a quantum only records its bits. */
  lemma FeedFirst(d: Decoder, v: int)
    requires 0 <= v < 64 && d.quad == 0 && !d.stopped
    ensures Feed(d, Digit(v)) == d.(quad := 1, left := v, pads := 0)
  {
    SextetOfDigit(v);
  }

  /** The second data character completes the first byte of the quantum. */
  lemma FeedSecond(d: Decoder, v: int)
    requires 0 <= v < 64 && d.quad == 1 && !d.stopped
    ensures Feed(d, Digit(v)) == d.(quad := 2, out := d.out + [(d.left * 4 + v / 16) % 256], left := v % 16, pads := 0)
  {
    SextetOfDigit(v);
  }

  lemma FeedThird(d: Decoder, v: int)
    requires 0 <= v < 64 && d.quad == 2 && !d.stopped
    ensures Feed(d, Digit(v)) == d.(quad := 3, out := d.out + [(d.left * 16 + v / 4) % 256], left := v % 4, pads := 0)
  {
    SextetOfDigit(v);
  }

  lemma FeedFourth(d: Decoder, v: int)
    requires 0 <= v < 64 && d.quad == 3 && !d.stopped
    ensures Feed(d, Digit(v)) == d.(quad := 0, out := d.out + [(d.left * 64 + v) % 256], left := 0, pads := 0)
  {
    SextetOfDigit(v);
  }

  /** How the three bytes of a quantum are spread over four sextets, and how the decoder puts them back together. */
  lemma QuantumArithmetic(b0: Byte, b1: Byte, b2: Byte)
    ensures var c0, c1, c2, c3 := b0 / 4, b0 % 4 * 16 + b1 / 16, b1 % 16 * 4 + b2 / 64, b2 % 64;
            && 0 <= c0 < 64 && 0 <= c1 < 64 && 0 <= c2 < 64 && 0 <= c3 < 64
            && (c0 * 4 + c1 / 16) % 256 == b0
            && c1 % 16 == b1 / 16 && (b1 / 16 * 16 + c2 / 4) % 256 == b1
            && c2 % 4 == b2 / 64 && (b2 / 64 * 64 + c3) % 256 == b2
  {
    Parts(b0 % 4, b1 / 16);
    Parts(b1 % 16, b2 / 64);
  }

  /** A full quantum takes a decoder at a quantum boundary to the next one, adding its three bytes. */
  lemma QuantumDecodes(d: Decoder, b0: Byte, b1: Byte, b2: Byte)
    requires d.quad == 0 && d.pads == 0 && !d.stopped
    ensures var e := Run(d, Quantum(b0, b1, b2));
            e.quad == 0 && e.pads == 0 && !e.stopped && e.out == d.out + [b0, b1, b2]
  {
    var c0, c1, c2, c3 := b0 / 4, b0 % 4 * 16 + b1 / 16, b1 % 16 * 4 + b2 / 64, b2 % 64;
    QuantumArithmetic(b0, b1, b2);
    RunFour(d, Digit(c0), Digit(c1), Digit(c2), Digit(c3));
    FeedFirst(d, c0);
    var d1 := d.(quad := 1, left := c0, pads := 0);
    FeedSecond(d1, c1);
    var d2 := d1.(quad := 2, out := d.out + [b0], left := b1 / 16, pads := 0);
    assert Feed(d1, Digit(c1)) == d2;
    FeedThird(d2, c2);
    var d3 := d2.(quad := 3, out := d.out + [b0, b1], left := b2 / 64, pads := 0);
    assert Feed(d2, Digit(c2)) == d3;
    FeedFourth(d3, c3);
    assert Feed(d3, Digit(c3)) == d3.(quad := 0, out := d.out + [b0, b1, b2], left := 0, pads := 0);
  }

  /** The padded tail of one byte yields that byte and ends the input. */
  lemma OneByteTailDecodes(d: Decoder, b0: Byte)
    requires d.quad == 0 && d.pads == 0 && !d.stopped
    ensures var e := Run(d, [Digit(b0 / 4), Digit(b0 % 4 * 16), Pad, Pad]);
            e.stopped && e.out == d.out + [b0]
  {
    var c0, c1 := b0 / 4, b0 % 4 * 16;
    QuantumArithmetic(b0, 0, 0);
    RunFour(d, Digit(c0), Digit(c1), Pad, Pad);
    FeedFirst(d, c0);
    var d1 := d.(quad := 1, left := c0, pads := 0);
    FeedSecond(d1, c1);
  }

  /** The padded tail of two bytes yields those bytes and ends the input. */
  lemma TwoByteTailDecodes(d: Decoder, b0: Byte, b1: Byte)
    requires d.quad == 0 && d.pads == 0 && !d.stopped
    ensures var e := Run(d, [Digit(b0 / 4), Digit(b0 % 4 * 16 + b1 / 16), Digit(b1 % 16 * 4), Pad]);
            e.stopped && e.out == d.out + [b0, b1]
  {
    var c0, c1, c2 := b0 / 4, b0 % 4 * 16 + b1 / 16, b1 % 16 * 4;
    QuantumArithmetic(b0, b1, 0);
    RunFour(d, Digit(c0), Digit(c1), Digit(c2), Pad);
    FeedFirst(d, c0);
    var d1 := d.(quad := 1, left := c0, pads := 0);
    FeedSecond(d1, c1);
    var d2 := d1.(quad := 2, out := d.out + [b0], left := b1 / 16, pads := 0);
    assert Feed(d1, Digit(c1)) == d2;
    FeedThird(d2, c2);
  }

  /** Decoding an encoding from a quantum boundary appends exactly the encoded bytes and leaves nothing dangling. */
  lemma {:induction false} RunEncode(d: Decoder, b: Bytes)
    requires d.quad == 0 && d.pads == 0 && !d.stopped
    ensures var e := Run(d, Encode(b));
            e.out == d.out + b && (e.stopped || e.quad == 0)
    decreases |b|
  {
    if |b| == 1 {
      OneByteTailDecodes(d, b[0]);
    } else if |b| == 2 {
      TwoByteTailDecodes(d, b[0], b[1]);
    } else if |b| >= 3 {
      RunAppend(d, Quantum(b[0], b[1], b[2]), Encode(b[3..]));
      QuantumDecodes(d, b[0], b[1], b[2]);
      var d' := Run(d, Quantum(b[0], b[1], b[2]));
      RunEncode(d', b[3..]);
      assert d'.out + b[3..] == d.out + b;
    }
  }

  /** `b64decode(b64encode(b)) == b`. */
  lemma RoundTrip(b: Bytes)
    ensures Decode(Encode(b)) == Ok(b)
  {
    var s := Encode(b);
    forall k | 0 <= k < |s| ensures s[k] as int < 128 {
      assert IsEncodingChar(s[k]);
    }
    assert !exists k :: 0 <= k < |s| && s[k] as int >= 128;
    RunEncode(Start, b);
    assert Start.out + b == b;
  }
}
