/**
 * UTF-8 as defined by RFC 3629, over strings of Unicode scalar values (Dafny's `char`).
 * Decoding is strict: overlong forms, encoded surrogates, code points above U+10FFFF and
 * truncated or stray continuation octets are rejected.
 */
module Utf8 {
  import opened Wrappers
  import opened Bytes

  /** The 1 to 4 octets RFC 3629 assigns to one scalar value. */
  function EncodeChar(c: char): (r: seq<byte>)
    ensures 1 <= |r| <= 4
    ensures (|r| == 1) == (c as int < 0x80)
  {
    var cp := c as int;
    if cp < 0x80 then [cp]
    else if cp < 0x800 then [0xC0 + cp / 64, 0x80 + cp % 64]
    else if cp < 0x1_0000 then [0xE0 + cp / 4096, 0x80 + (cp / 64) % 64, 0x80 + cp % 64]
    else [0xF0 + cp / 0x4_0000, 0x80 + (cp / 4096) % 64, 0x80 + (cp / 64) % 64, 0x80 + cp % 64]
  }

  /** `String.getBytes(UTF_8)`: the encodings of the characters, in order. */
  function Encode(s: string): (r: seq<byte>)
    ensures |s| <= |r| <= 4 * |s|
  {
    if s == [] then [] else EncodeChar(s[0]) + Encode(s[1..])
  }

  predicate IsContinuation(b: byte) {
    0x80 <= b < 0xC0
  }

  /** The scalar value that starts an octet sequence, and how many octets it took. */
  datatype Decoded = Decoded(c: char, length: nat)

  function DecodeChar(b: seq<byte>): (r: Option<Decoded>)
    requires |b| > 0
    ensures r.Some? ==> 1 <= r.value.length <= |b| && r.value.length <= 4
  {
    var b0: int := b[0];
    if b0 < 0x80 then Some(Decoded(b0 as char, 1))
    else if 0xC2 <= b0 <= 0xDF then
      if |b| < 2 || !IsContinuation(b[1]) then None
      else Some(Decoded(Value2(b0, b[1]) as char, 2))
    else if 0xE0 <= b0 <= 0xEF then
      if |b| < 3 || !IsContinuation(b[1]) || !IsContinuation(b[2]) then None
      else
        var cp := Value3(b0, b[1], b[2]);
        if cp < 0x800 || 0xD800 <= cp < 0xE000 then None
        else Some(Decoded(cp as char, 3))
    else if 0xF0 <= b0 <= 0xF4 then
      if |b| < 4 || !IsContinuation(b[1]) || !IsContinuation(b[2]) || !IsContinuation(b[3]) then None
      else
        var cp := Value4(b0, b[1], b[2], b[3]);
        if cp < 0x1_0000 || 0x11_0000 <= cp then None
        else Some(Decoded(cp as char, 4))
    else None
  }

  /** The code point carried by a lead octet and its continuation octets (6 bits each). */
  function Value2(b0: int, b1: int): int {
    (b0 - 0xC0) * 64 + (b1 - 0x80)
  }

  function Value3(b0: int, b1: int, b2: int): int {
    (b0 - 0xE0) * 4096 + (b1 - 0x80) * 64 + (b2 - 0x80)
  }

  function Value4(b0: int, b1: int, b2: int, b3: int): int {
    (b0 - 0xF0) * 0x4_0000 + (b1 - 0x80) * 4096 + (b2 - 0x80) * 64 + (b3 - 0x80)
  }

  /** `new String(bytes, UTF_8)` on well-formed input; None when the octets are not UTF-8. */
  function Decode(b: seq<byte>): (r: Option<string>)
    ensures r.Some? ==> |r.value| <= |b|
    decreases |b|
  {
    if b == [] then Some([])
    else
      match DecodeChar(b)
      case None => None
      case Some(d) =>
        match Decode(b[d.length..])
        case None => None
        case Some(rest) => Some([d.c] + rest)
  }

  lemma DecodeCharEncodeChar(c: char, rest: seq<byte>)
    ensures DecodeChar(EncodeChar(c) + rest) == Some(Decoded(c, |EncodeChar(c)|))
  {
    var cp := c as int;
    if cp < 0x80 {
    } else if cp < 0x800 {
      RoundTrip2(c, rest);
    } else if cp < 0x1_0000 {
      RoundTrip3(c, rest);
    } else {
      RoundTrip4(c, rest);
    }
  }

  lemma RoundTrip2(c: char, rest: seq<byte>)
    requires 0x80 <= c as int < 0x800
    ensures DecodeChar(EncodeChar(c) + rest) == Some(Decoded(c, 2))
  {
    var cp := c as int;
    var b := EncodeChar(c) + rest;
    assert b[0] == 0xC0 + cp / 64 && b[1] == 0x80 + cp % 64;
    assert Value2(b[0], b[1]) == cp;
  }

  lemma RoundTrip3(c: char, rest: seq<byte>)
    requires 0x800 <= c as int < 0x1_0000
    ensures DecodeChar(EncodeChar(c) + rest) == Some(Decoded(c, 3))
  {
    var cp := c as int;
    var b := EncodeChar(c) + rest;
    assert b[0] == 0xE0 + cp / 4096 && b[1] == 0x80 + (cp / 64) % 64 && b[2] == 0x80 + cp % 64;
    assert Value3(b[0], b[1], b[2]) == cp;
  }

  lemma RoundTrip4(c: char, rest: seq<byte>)
    requires 0x1_0000 <= c as int
    ensures DecodeChar(EncodeChar(c) + rest) == Some(Decoded(c, 4))
  {
    var cp := c as int;
    var b := EncodeChar(c) + rest;
    assert b[0] == 0xF0 + cp / 0x4_0000 && b[1] == 0x80 + (cp / 4096) % 64;
    assert b[2] == 0x80 + (cp / 64) % 64 && b[3] == 0x80 + cp % 64;
    Digits4(cp);
  }

  /** The four octets of a supplementary code point are a valid lead and continuations, and carry it. */
  lemma Digits4(cp: int)
    requires 0x1_0000 <= cp < 0x11_0000
    ensures 0xF0 <= 0xF0 + cp / 0x4_0000 <= 0xF4
    ensures 0x80 <= 0x80 + (cp / 4096) % 64 < 0xC0 && 0x80 <= 0x80 + (cp / 64) % 64 < 0xC0
    ensures 0x80 <= 0x80 + cp % 64 < 0xC0
    ensures Value4(0xF0 + cp / 0x4_0000, 0x80 + (cp / 4096) % 64, 0x80 + (cp / 64) % 64, 0x80 + cp % 64) == cp
  {
    var n1 := cp / 64;
    var n2 := n1 / 64;
    var n3 := n2 / 64;
    assert cp == 4096 * n2 + 64 * (n1 % 64) + cp % 64;
    assert cp / 4096 == n2;
    assert cp == 0x4_0000 * n3 + 4096 * (n2 % 64) + 64 * (n1 % 64) + cp % 64;
    assert cp / 0x4_0000 == n3;
  }

  lemma SplitJoin(b: seq<byte>, n: nat)
    requires n <= |b|
    ensures b[..n] + b[n..] == b
  {
  }

  lemma EncodeCons(c: char, s: string)
    ensures Encode([c] + s) == EncodeChar(c) + Encode(s)
  {
    assert ([c] + s)[0] == c && ([c] + s)[1..] == s;
  }

  /** Decoding the encoding of any string gives the string back. */
  lemma {:induction false} DecodeEncode(s: string)
    ensures Decode(Encode(s)) == Some(s)
  {
    if s != [] {
      var e, rest := EncodeChar(s[0]), Encode(s[1..]);
      EncodeCons(s[0], s[1..]);
      assert [s[0]] + s[1..] == s;
      DecodeCharEncodeChar(s[0], rest);
      DecodeEncode(s[1..]);
      assert (e + rest)[|e|..] == rest;
    }
  }

  lemma EncodeCharDecodeChar(b: seq<byte>)
    requires |b| > 0 && DecodeChar(b).Some?
    ensures EncodeChar(DecodeChar(b).value.c) == b[..DecodeChar(b).value.length]
  {
    var d := DecodeChar(b).value;
    var cp := d.c as int;
    if d.length == 2 {
      Split2(b[0], b[1]);
    } else if d.length == 3 {
      Split3(b[0], b[1], b[2]);
    } else if d.length == 4 {
      Split4(b[0], b[1], b[2], b[3]);
    }
  }

  lemma Split2(b0: int, b1: int)
    requires 0xC2 <= b0 <= 0xDF && 0x80 <= b1 < 0xC0
    ensures Value2(b0, b1) / 64 == b0 - 0xC0 && Value2(b0, b1) % 64 == b1 - 0x80
  {
  }

  lemma Split3(b0: int, b1: int, b2: int)
    requires 0xE0 <= b0 <= 0xEF && 0x80 <= b1 < 0xC0 && 0x80 <= b2 < 0xC0
    ensures var cp := Value3(b0, b1, b2);
      cp / 4096 == b0 - 0xE0 && (cp / 64) % 64 == b1 - 0x80 && cp % 64 == b2 - 0x80
  {
    var cp := Value3(b0, b1, b2);
    assert cp / 64 == (b0 - 0xE0) * 64 + (b1 - 0x80);
  }

  lemma Split4(b0: int, b1: int, b2: int, b3: int)
    requires 0xF0 <= b0 <= 0xF4 && 0x80 <= b1 < 0xC0 && 0x80 <= b2 < 0xC0 && 0x80 <= b3 < 0xC0
    ensures var cp := Value4(b0, b1, b2, b3);
      cp / 0x4_0000 == b0 - 0xF0 && (cp / 4096) % 64 == b1 - 0x80 &&
      (cp / 64) % 64 == b2 - 0x80 && cp % 64 == b3 - 0x80
  {
    var cp := Value4(b0, b1, b2, b3);
    assert cp / 64 == (b0 - 0xF0) * 4096 + (b1 - 0x80) * 64 + (b2 - 0x80);
    assert cp / 4096 == (b0 - 0xF0) * 64 + (b1 - 0x80);
  }

  /** Encoding a decoded string gives back exactly the octets it came from. */
  lemma {:induction false} EncodeDecode(b: seq<byte>)
    requires Decode(b).Some?
    ensures Encode(Decode(b).value) == b
    decreases |b|
  {
    if b != [] {
      var d := DecodeChar(b).value;
      var tail := b[d.length..];
      var rest := Decode(tail).value;
      assert Decode(b).value == [d.c] + rest;
      EncodeCharDecodeChar(b);
      EncodeDecode(tail);
      EncodeCons(d.c, rest);
      SplitJoin(b, d.length);
    }
  }

  /** A string of ASCII characters encodes to one octet per character, with the same code. */
  lemma {:induction false} AsciiEncoding(s: string)
    requires forall i :: 0 <= i < |s| ==> s[i] as int < 0x80
    ensures |Encode(s)| == |s|
    ensures forall i :: 0 <= i < |s| ==> Encode(s)[i] == s[i] as int
  {
    if s != [] {
      AsciiEncoding(s[1..]);
      assert Encode(s) == [s[0] as int] + Encode(s[1..]);
    }
  }
}
