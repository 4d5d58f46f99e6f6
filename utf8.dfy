/**
 * UTF-8 as Rust's `String::from_utf8` accepts it: the well-formed byte
 * sequences of Table 3-7 of the Unicode Standard (no overlong forms, no
 * surrogates, nothing above U+10FFFF), decoded to Unicode scalar values.
 */
module Utf8 {
  import opened Base

  predicate IsContinuation(b: byte)
  {
    0x80 <= b <= 0xBF
  }

  /**
   * The scalar value that the well-formed sequence at the start of `bs`
   * encodes, with the number of bytes it takes; None when `bs` does not
   * start with a well-formed sequence.
   */
  function DecodeFirst(bs: seq<byte>): (r: Option<(char, nat)>)
    requires |bs| > 0
    ensures r.Some? ==> 1 <= r.value.1 <= |bs| && r.value.1 <= 4
  {
    var b0 := bs[0] as int;
    if b0 < 0x80 then
      Some((b0 as char, 1))
    else if 0xC2 <= b0 <= 0xDF then
      if |bs| < 2 || !IsContinuation(bs[1]) then None
      else Some((((b0 - 0xC0) * 64 + (bs[1] as int - 0x80)) as char, 2))
    else if 0xE0 <= b0 <= 0xEF then
      // second byte range per lead byte: E0 excludes overlongs, ED excludes surrogates
      var lo := if b0 == 0xE0 then 0xA0 else 0x80;
      var hi := if b0 == 0xED then 0x9F else 0xBF;
      if |bs| < 3 || !(lo <= bs[1] as int <= hi) || !IsContinuation(bs[2]) then None
      else Some((((b0 - 0xE0) * 4096 + (bs[1] as int - 0x80) * 64 + (bs[2] as int - 0x80)) as char, 3))
    else if 0xF0 <= b0 <= 0xF4 then
      // F0 excludes overlongs, F4 excludes values above U+10FFFF
      var lo := if b0 == 0xF0 then 0x90 else 0x80;
      var hi := if b0 == 0xF4 then 0x8F else 0xBF;
      if |bs| < 4 || !(lo <= bs[1] as int <= hi) || !IsContinuation(bs[2]) || !IsContinuation(bs[3]) then None
      else Some((((b0 - 0xF0) * 262144 + (bs[1] as int - 0x80) * 4096
                  + (bs[2] as int - 0x80) * 64 + (bs[3] as int - 0x80)) as char, 4))
    else
      None
  }

  /** The text that `bs` encodes, or None when `bs` is not well-formed UTF-8 (`String::from_utf8`). */
  function Decode(bs: seq<byte>): Option<string>
    decreases |bs|
  {
    if bs == [] then Some("")
    else match DecodeFirst(bs)
      case None => None
      case Some((c, n)) =>
        match Decode(bs[n..])
        case None => None
        case Some(rest) => Some([c] + rest)
  }

  /** The UTF-8 encoding of one scalar value. */
  function EncodeChar(c: char): (bs: seq<byte>)
    ensures 1 <= |bs| <= 4
  {
    var n := c as int;
    if n < 0x80 then
      [n as byte]
    else if n < 0x800 then
      [(0xC0 + n / 64) as byte, (0x80 + n % 64) as byte]
    else if n < 0x10000 then
      [(0xE0 + n / 4096) as byte, (0x80 + n / 64 % 64) as byte, (0x80 + n % 64) as byte]
    else
      [(0xF0 + n / 262144) as byte, (0x80 + n / 4096 % 64) as byte,
       (0x80 + n / 64 % 64) as byte, (0x80 + n % 64) as byte]
  }

  /** The UTF-8 encoding of a text (`str::as_bytes`). */
  function Encode(s: string): (bs: seq<byte>)
    ensures |s| <= |bs| <= 4 * |s|
  {
    if s == [] then [] else EncodeChar(s[0]) + Encode(s[1..])
  }

  /** Decoding reads back exactly the one scalar value that was encoded, and no further. */
  lemma DecodeFirstEncodeChar(c: char, rest: seq<byte>)
    ensures DecodeFirst(EncodeChar(c) + rest) == Some((c, |EncodeChar(c)|))
  {
    var n := c as int;
    if n < 0x80 {
    } else if n < 0x800 {
      DecodeTwo(c, rest);
    } else if n < 0x10000 {
      DecodeThree(c, rest);
    } else {
      DecodeFour(c, rest);
    }
  }

  /** `DecodeFirstEncodeChar` for a two-byte encoding. */
  lemma DecodeTwo(c: char, rest: seq<byte>)
    requires 0x80 <= c as int < 0x800
    ensures DecodeFirst(EncodeChar(c) + rest) == Some((c, 2))
  {
    var n := c as int;
    var bs := EncodeChar(c) + rest;
    assert bs[0] as int == 0xC0 + n / 64 && bs[1] as int == 0x80 + n % 64;
    assert n == (n / 64) * 64 + n % 64;
  }

  /** `DecodeFirstEncodeChar` for a three-byte encoding. */
  lemma DecodeThree(c: char, rest: seq<byte>)
    requires 0x800 <= c as int < 0x10000
    ensures DecodeFirst(EncodeChar(c) + rest) == Some((c, 3))
  {
    var n := c as int;
    var bs := EncodeChar(c) + rest;
    assert bs[0] as int == 0xE0 + n / 4096;
    assert bs[1] as int == 0x80 + n / 64 % 64 && bs[2] as int == 0x80 + n % 64;
    assert n / 64 == (n / 4096) * 64 + n / 64 % 64;
    assert n == (n / 64) * 64 + n % 64;
  }

  /** `DecodeFirstEncodeChar` for a four-byte encoding. */
  lemma DecodeFour(c: char, rest: seq<byte>)
    requires 0x10000 <= c as int
    ensures DecodeFirst(EncodeChar(c) + rest) == Some((c, 4))
  {
    var n := c as int;
    var bs := EncodeChar(c) + rest;
    assert bs[0] as int == 0xF0 + n / 262144 && bs[1] as int == 0x80 + n / 4096 % 64;
    assert bs[2] as int == 0x80 + n / 64 % 64 && bs[3] as int == 0x80 + n % 64;
    assert n / 4096 == (n / 262144) * 64 + n / 4096 % 64;
    assert n / 64 == (n / 4096) * 64 + n / 64 % 64;
    assert n == (n / 64) * 64 + n % 64;
  }

  /** Every text survives an encode/decode round trip. */
  lemma {:induction false} DecodeEncode(s: string)
    ensures Decode(Encode(s)) == Some(s)
  {
    if s != [] {
      var first := EncodeChar(s[0]);
      var rest := Encode(s[1..]);
      DecodeFirstEncodeChar(s[0], rest);
      assert (first + rest)[|first|..] == rest;
      DecodeEncode(s[1..]);
      assert [s[0]] + s[1..] == s;
    }
  }

  /** Taking six bits off the bottom undoes appending them. */
  lemma DivMod64(q: int, r: int)
    requires 0 <= r < 64
    ensures (q * 64 + r) / 64 == q && (q * 64 + r) % 64 == r
  {
  }

  /** What decoding accepts is exactly an encoding: re-encoding gives back the bytes read. */
  lemma EncodeCharDecodeFirst(bs: seq<byte>)
    requires |bs| > 0 && DecodeFirst(bs).Some?
    ensures EncodeChar(DecodeFirst(bs).value.0) == bs[..DecodeFirst(bs).value.1]
  {
    var b0 := bs[0] as int;
    if b0 < 0x80 {
    } else if b0 <= 0xDF {
      EncodeTwo(bs);
    } else if b0 <= 0xEF {
      EncodeThree(bs);
    } else {
      EncodeFour(bs);
    }
  }

  /** `EncodeCharDecodeFirst` for a two-byte sequence. */
  lemma EncodeTwo(bs: seq<byte>)
    requires |bs| > 0 && 0x80 <= bs[0] as int <= 0xDF && DecodeFirst(bs).Some?
    ensures EncodeChar(DecodeFirst(bs).value.0) == bs[..DecodeFirst(bs).value.1]
  {
    var b0, t1 := bs[0] as int, bs[1] as int - 0x80;
    var n := DecodeFirst(bs).value.0 as int;
    assert n == (b0 - 0xC0) * 64 + t1;
    DivMod64(b0 - 0xC0, t1);
  }

  /** `EncodeCharDecodeFirst` for a three-byte sequence. */
  lemma EncodeThree(bs: seq<byte>)
    requires |bs| > 0 && 0xE0 <= bs[0] as int <= 0xEF && DecodeFirst(bs).Some?
    ensures EncodeChar(DecodeFirst(bs).value.0) == bs[..DecodeFirst(bs).value.1]
  {
    var b0, t1, t2 := bs[0] as int, bs[1] as int - 0x80, bs[2] as int - 0x80;
    var n := DecodeFirst(bs).value.0 as int;
    var hi := (b0 - 0xE0) * 64 + t1;
    assert n == hi * 64 + t2;
    DivMod64(hi, t2);
    DivMod64(b0 - 0xE0, t1);
    assert n / 4096 == n / 64 / 64;
  }

  /** `EncodeCharDecodeFirst` for a four-byte sequence. */
  lemma EncodeFour(bs: seq<byte>)
    requires |bs| > 0 && 0xF0 <= bs[0] as int && DecodeFirst(bs).Some?
    ensures EncodeChar(DecodeFirst(bs).value.0) == bs[..DecodeFirst(bs).value.1]
  {
    var b0, t1, t2, t3 := bs[0] as int, bs[1] as int - 0x80, bs[2] as int - 0x80, bs[3] as int - 0x80;
    var n := DecodeFirst(bs).value.0 as int;
    var top := (b0 - 0xF0) * 64 + t1;
    var hi := top * 64 + t2;
    assert n == hi * 64 + t3;
    DivMod64(hi, t3);
    DivMod64(top, t2);
    DivMod64(b0 - 0xF0, t1);
    assert n / 4096 == n / 64 / 64;
    assert n / 262144 == n / 64 / 64 / 64;
  }

  /** One step of a successful decode: the first scalar value, then the rest. */
  lemma DecodeStep(bs: seq<byte>)
    requires bs != [] && Decode(bs).Some?
    ensures DecodeFirst(bs).Some?
    ensures Decode(bs[DecodeFirst(bs).value.1..]).Some?
    ensures Decode(bs).value == [DecodeFirst(bs).value.0] + Decode(bs[DecodeFirst(bs).value.1..]).value
  {
  }

  /** Encoding a text that starts with `c`. */
  lemma EncodeCons(c: char, s: string)
    ensures Encode([c] + s) == EncodeChar(c) + Encode(s)
  {
    assert ([c] + s)[1..] == s;
  }

  /** A text whose first value and remainder re-encode to the two parts of `bs` re-encodes to `bs`. */
  lemma ReEncode(bs: seq<byte>, c: char, n: nat, t: string)
    requires n <= |bs| && EncodeChar(c) == bs[..n] && Encode(t) == bs[n..]
    ensures Encode([c] + t) == bs
  {
    EncodeCons(c, t);
    assert bs == bs[..n] + bs[n..];
  }

  /** Decoding succeeds only on encodings: a decoded text re-encodes to the very bytes it came from. */
  lemma {:induction false} EncodeDecode(bs: seq<byte>)
    requires Decode(bs).Some?
    ensures Encode(Decode(bs).value) == bs
    decreases |bs|
  {
    if bs != [] {
      DecodeStep(bs);
      var c, n := DecodeFirst(bs).value.0, DecodeFirst(bs).value.1;
      var t := Decode(bs[n..]).value;
      EncodeCharDecodeFirst(bs);
      EncodeDecode(bs[n..]);
      ReEncode(bs, c, n, t);
    }
  }
}
