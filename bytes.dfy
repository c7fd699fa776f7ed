/** Bytes and text: str.encode() and bytes.decode() with Python's default
    codec, UTF-8, in its strict form (a malformed sequence is an error). */
module Bytes {
  import opened Wrappers

  newtype Byte = b: int | 0 <= b < 256

  predicate IsContinuation(b: Byte) {
    0x80 <= b <= 0xBF
  }

  /** The UTF-8 form of one character: one to four bytes. */
  function EncodeChar(c: char): (r: seq<Byte>)
    ensures 1 <= |r| <= 4
    ensures |r| == 1 <==> c as int < 0x80
  {
    var n := c as int;
    if n < 0x80 then [n as Byte]
    else if n < 0x800 then [(0xC0 + n / 64) as Byte, (0x80 + n % 64) as Byte]
    else if n < 0x10000 then
      [(0xE0 + n / 64 / 64) as Byte, (0x80 + n / 64 % 64) as Byte, (0x80 + n % 64) as Byte]
    else
      [(0xF0 + n / 64 / 64 / 64) as Byte, (0x80 + n / 64 / 64 % 64) as Byte,
       (0x80 + n / 64 % 64) as Byte, (0x80 + n % 64) as Byte]
  }

  /** str.encode(): the characters' UTF-8 forms, concatenated. */
  function Encode(s: string): seq<Byte> {
    if s == [] then [] else EncodeChar(s[0]) + Encode(s[1..])
  }

  predicate IsAscii(s: string) {
    forall i :: 0 <= i < |s| ==> s[i] as int < 0x80
  }

  /** The number of bytes of a well-formed sequence that starts with b0 and
      continues with b1, following the table of well-formed UTF-8 byte
      sequences of the Unicode standard (section 3.9, table 3-7); 0 when
      no well-formed sequence starts so. */
  function SequenceLength(b0: Byte, b1: Byte): nat {
    if b0 < 0x80 then 1
    else if 0xC2 <= b0 <= 0xDF then (if IsContinuation(b1) then 2 else 0)
    else if b0 == 0xE0 then (if 0xA0 <= b1 <= 0xBF then 3 else 0)
    else if b0 == 0xED then (if 0x80 <= b1 <= 0x9F then 3 else 0)
    else if 0xE1 <= b0 <= 0xEF then (if IsContinuation(b1) then 3 else 0)
    else if b0 == 0xF0 then (if 0x90 <= b1 <= 0xBF then 4 else 0)
    else if b0 == 0xF4 then (if 0x80 <= b1 <= 0x8F then 4 else 0)
    else if 0xF1 <= b0 <= 0xF3 then (if IsContinuation(b1) then 4 else 0)
    else 0
  }

  /** The character at the head of b, with the number of bytes it takes;
      None when b does not start with a well-formed sequence. */
  function DecodeChar(b: seq<Byte>): (r: Option<(char, nat)>)
    requires |b| > 0
    ensures r.Some? ==> 1 <= r.value.1 <= |b|
  {
    var len := SequenceLength(b[0], if |b| > 1 then b[1] else 0);
    if len == 0 || len > |b| then None
    else if len == 1 then Some((b[0] as int as char, 1))
    else if len == 2 then
      Some((((b[0] as int - 0xC0) * 64 + (b[1] as int - 0x80)) as char, 2))
    else if len == 3 then
      if !IsContinuation(b[2]) then None
      else
        var n := (b[0] as int - 0xE0) * 4096 + (b[1] as int - 0x80) * 64 + (b[2] as int - 0x80);
        Some((n as char, 3))
    else
      if !IsContinuation(b[2]) || !IsContinuation(b[3]) then None
      else
        var n := (b[0] as int - 0xF0) * 262144 + (b[1] as int - 0x80) * 4096
               + (b[2] as int - 0x80) * 64 + (b[3] as int - 0x80);
        Some((n as char, 4))
  }

  /** bytes.decode(): None where Python raises UnicodeDecodeError. Only
      the canonical UTF-8 form of a text is accepted: what decodes encodes
      back to the same bytes. */
  function Decode(b: seq<Byte>): (r: Option<string>)
    ensures r.Some? ==> Encode(r.value) == b
    decreases |b|
  {
    if b == [] then Some([])
    else
      match DecodeChar(b)
      case None => None
      case Some((c, len)) =>
        match Decode(b[len..])
        case None => None
        case Some(rest) =>
          EncodeOfDecodeChar(b);
          assert ([c] + rest)[1..] == rest;
          assert b[..len] + b[len..] == b;
          Some([c] + rest)
  }

  /** Base-64 digits: q * 64 + d splits back into q and d. */
  lemma SplitSixBits(q: int, d: int)
    requires 0 <= q && 0 <= d < 64
    ensures (q * 64 + d) / 64 == q && (q * 64 + d) % 64 == d
  {
  }

  lemma EncodeOfDecodeTwo(b: seq<Byte>)
    requires |b| > 0 && DecodeChar(b).Some? && DecodeChar(b).value.1 == 2
    ensures EncodeChar(DecodeChar(b).value.0) == b[..2]
  {
    SplitSixBits(b[0] as int - 0xC0, b[1] as int - 0x80);
  }

  lemma EncodeOfDecodeThree(b: seq<Byte>)
    requires |b| > 0 && DecodeChar(b).Some? && DecodeChar(b).value.1 == 3
    ensures EncodeChar(DecodeChar(b).value.0) == b[..3]
  {
    var hi := (b[0] as int - 0xE0) * 64 + (b[1] as int - 0x80);
    SplitSixBits(hi, b[2] as int - 0x80);
    SplitSixBits(b[0] as int - 0xE0, b[1] as int - 0x80);
  }

  lemma EncodeOfDecodeFour(b: seq<Byte>)
    requires |b| > 0 && DecodeChar(b).Some? && DecodeChar(b).value.1 == 4
    ensures EncodeChar(DecodeChar(b).value.0) == b[..4]
  {
    var mid := (b[0] as int - 0xF0) * 64 + (b[1] as int - 0x80);
    var hi := mid * 64 + (b[2] as int - 0x80);
    SplitSixBits(hi, b[3] as int - 0x80);
    SplitSixBits(mid, b[2] as int - 0x80);
    SplitSixBits(b[0] as int - 0xF0, b[1] as int - 0x80);
  }

  /** The character at the head of b, encoded, gives the bytes it was
      decoded from. */
  lemma EncodeOfDecodeChar(b: seq<Byte>)
    requires |b| > 0 && DecodeChar(b).Some?
    ensures EncodeChar(DecodeChar(b).value.0) == b[..DecodeChar(b).value.1]
  {
    var len := DecodeChar(b).value.1;
    if len == 2 {
      EncodeOfDecodeTwo(b);
    } else if len == 3 {
      EncodeOfDecodeThree(b);
    } else if len == 4 {
      EncodeOfDecodeFour(b);
    }
  }

  lemma DecodeEncodeTwo(c: char, tail: seq<Byte>)
    requires 0x80 <= c as int < 0x800
    ensures DecodeChar(EncodeChar(c) + tail) == Some((c, 2))
  {
    var n := c as int;
    var b := EncodeChar(c) + tail;
    var hi, lo := n / 64, n % 64;
    assert n == hi * 64 + lo;
    assert b[0] as int == 0xC0 + hi && b[1] as int == 0x80 + lo;
    assert SequenceLength(b[0], b[1]) == 2;
  }

  lemma DecodeEncodeThree(c: char, tail: seq<Byte>)
    requires 0x800 <= c as int < 0x10000
    ensures DecodeChar(EncodeChar(c) + tail) == Some((c, 3))
  {
    var n := c as int;
    var b := EncodeChar(c) + tail;
    assert n == (n / 64 / 64) * 4096 + (n / 64 % 64) * 64 + n % 64;
    assert SequenceLength(b[0], b[1]) == 3;
  }

  lemma DecodeEncodeFour(c: char, tail: seq<Byte>)
    requires 0x10000 <= c as int
    ensures DecodeChar(EncodeChar(c) + tail) == Some((c, 4))
  {
    var n := c as int;
    var b := EncodeChar(c) + tail;
    assert n == (n / 64 / 64 / 64) * 262144 + (n / 64 / 64 % 64) * 4096 + (n / 64 % 64) * 64 + n % 64;
    assert SequenceLength(b[0], b[1]) == 4;
  }

  /** Each character's UTF-8 form decodes back to that character. */
  lemma DecodeEncodeChar(c: char, tail: seq<Byte>)
    ensures DecodeChar(EncodeChar(c) + tail) == Some((c, |EncodeChar(c)|))
  {
    var n := c as int;
    if n < 0x80 {
    } else if n < 0x800 {
      DecodeEncodeTwo(c, tail);
    } else if n < 0x10000 {
      DecodeEncodeThree(c, tail);
    } else {
      DecodeEncodeFour(c, tail);
    }
  }

  /** decode(encode(s)) == s for every string. */
  lemma {:induction false} DecodeOfEncode(s: string)
    ensures Decode(Encode(s)) == Some(s)
  {
    if s != [] {
      var e := EncodeChar(s[0]);
      DecodeEncodeChar(s[0], Encode(s[1..]));
      DecodeOfEncode(s[1..]);
      assert (e + Encode(s[1..]))[|e|..] == Encode(s[1..]);
      assert [s[0]] + s[1..] == s;
    }
  }

  /** The encoded form has at least one byte per character, and exactly one
      per character precisely when the text is ASCII. */
  lemma {:induction false} EncodeLength(s: string)
    ensures |Encode(s)| >= |s|
    ensures |Encode(s)| == |s| <==> IsAscii(s)
  {
    if s != [] {
      EncodeLength(s[1..]);
      if IsAscii(s[1..]) && s[0] as int < 0x80 {
        forall i | 0 <= i < |s| ensures s[i] as int < 0x80 {
          if i > 0 { assert s[i] == s[1..][i - 1]; }
        }
      }
      if IsAscii(s) {
        assert forall i :: 0 <= i < |s| - 1 ==> s[1..][i] == s[i + 1];
      }
    }
  }
}
