/**
 * Base64 as defined in section 4 of RFC 4648: the standard 64-character alphabet,
 * 4 characters for every 3 octets, and `=` padding in the final unit.
 * The converter uses it to turn (encrypted) bytes into column text and back.
 */
module Base64 {
  import opened Wrappers
  import opened Bytes

  /** The padding character of section 3.2 of RFC 4648. */
  const Pad: char := '='

  /** The 6-bit value `k` as a character of the alphabet ('A'..'Z', 'a'..'z', '0'..'9', '+', '/'). */
  function CharOf(k: int): (c: char)
    requires 0 <= k < 64
    ensures c != Pad
  {
    if k < 26 then ('A' as int + k) as char
    else if k < 52 then ('a' as int + (k - 26)) as char
    else if k < 62 then ('0' as int + (k - 52)) as char
    else if k == 62 then '+'
    else '/'
  }

  /** The 6-bit value of an alphabet character, or None for any other character (padding included). */
  function IndexOf(c: char): (r: Option<int>)
    ensures r.Some? ==> 0 <= r.value < 64 && CharOf(r.value) == c
  {
    if 'A' <= c <= 'Z' then Some(c as int - 'A' as int)
    else if 'a' <= c <= 'z' then Some(c as int - 'a' as int + 26)
    else if '0' <= c <= '9' then Some(c as int - '0' as int + 52)
    else if c == '+' then Some(62)
    else if c == '/' then Some(63)
    else None
  }

  lemma IndexOfCharOf(k: int)
    requires 0 <= k < 64
    ensures IndexOf(CharOf(k)) == Some(k)
  {
  }

  /** One unit of output: 1 to 3 octets become 4 characters, padded with `=` when short. */
  function EncodeUnit(b: seq<byte>): (s: string)
    requires 1 <= |b| <= 3
    ensures |s| == 4
  {
    var b0 := b[0];
    var b1 := if |b| > 1 then b[1] else 0;
    var b2 := if |b| > 2 then b[2] else 0;
    [CharOf(b0 / 4), CharOf((b0 % 4) * 16 + b1 / 16)]
    + (if |b| > 1 then [CharOf((b1 % 16) * 4 + b2 / 64)] else [Pad])
    + (if |b| > 2 then [CharOf(b2 % 64)] else [Pad])
  }

  /** The encoding of `b`; `Base64Utils.encode` followed by reading the ASCII result as text. */
  function Encode(b: seq<byte>): (s: string)
    ensures |s| == 4 * ((|b| + 2) / 3)
    decreases |b|
  {
    if |b| == 0 then ""
    else if |b| <= 3 then EncodeUnit(b)
    else
      assert (|b| + 2) / 3 == (|b[3..]| + 2) / 3 + 1;
      EncodeUnit(b[..3]) + Encode(b[3..])
  }

  /**
   * Decodes one 4-character unit. Only the final unit (`last`) may end in padding:
   * `xx==` carries one octet and `xxx=` two. Bits below the last octet are ignored.
   */
  function DecodeUnit(s: string, last: bool): (r: Option<seq<byte>>)
    requires |s| == 4
    ensures r.Some? ==> 1 <= |r.value| <= 3 && (!last ==> |r.value| == 3)
  {
    var i0, i1 := IndexOf(s[0]), IndexOf(s[1]);
    if i0.None? || i1.None? then None
    else if last && s[2] == Pad && s[3] == Pad then
      Some([i0.value * 4 + i1.value / 16])
    else
      var i2 := IndexOf(s[2]);
      if i2.None? then None
      else if last && s[3] == Pad then
        Some([i0.value * 4 + i1.value / 16, (i1.value % 16) * 16 + i2.value / 4])
      else
        var i3 := IndexOf(s[3]);
        if i3.None? then None
        else Some([i0.value * 4 + i1.value / 16, (i1.value % 16) * 16 + i2.value / 4,
                   (i2.value % 4) * 64 + i3.value])
  }

  /**
   * The decoding of `s`, or None when `s` is not Base64 text (a length that is not a
   * multiple of 4, a character outside the alphabet, misplaced padding); the JDK decoder
   * throws IllegalArgumentException there. The empty text decodes to no octets.
   */
  function Decode(s: string): (r: Option<seq<byte>>)
    ensures r.Some? ==> |s| % 4 == 0 && |r.value| <= 3 * (|s| / 4) && 3 * (|s| / 4) <= |r.value| + 2
    ensures s == [] ==> r == Some([])
    decreases |s|
  {
    if |s| == 0 then Some([])
    else if |s| < 4 then None
    else if |s| == 4 then DecodeUnit(s, true)
    else
      match DecodeUnit(s[..4], false)
      case None => None
      case Some(u) =>
        match Decode(s[4..])
        case None => None
        case Some(rest) => Some(u + rest)
  }

  lemma UnitRoundTrip(b: seq<byte>, last: bool)
    requires 1 <= |b| <= 3 && (|b| < 3 ==> last)
    ensures DecodeUnit(EncodeUnit(b), last) == Some(b)
  {
    if |b| == 1 {
      OneOctetRoundTrip(b[0]);
      assert b == [b[0]];
    } else if |b| == 2 {
      TwoOctetsRoundTrip(b[0], b[1]);
      assert b == [b[0], b[1]];
    } else {
      ThreeOctetsRoundTrip(b[0], b[1], b[2], last);
      assert b == [b[0], b[1], b[2]];
    }
  }

  lemma OneOctetRoundTrip(b0: byte)
    ensures DecodeUnit(EncodeUnit([b0]), true) == Some([b0])
  {
    var c0, c1 := b0 / 4, (b0 % 4) * 16;
    IndexOfCharOf(c0);
    IndexOfCharOf(c1);
    assert EncodeUnit([b0]) == [CharOf(c0), CharOf(c1), Pad, Pad];
    assert c0 * 4 + c1 / 16 == b0;
  }

  lemma TwoOctetsRoundTrip(b0: byte, b1: byte)
    ensures DecodeUnit(EncodeUnit([b0, b1]), true) == Some([b0, b1])
  {
    var c0, c1, c2 := b0 / 4, (b0 % 4) * 16 + b1 / 16, (b1 % 16) * 4;
    IndexOfCharOf(c0);
    IndexOfCharOf(c1);
    IndexOfCharOf(c2);
    assert EncodeUnit([b0, b1]) == [CharOf(c0), CharOf(c1), CharOf(c2), Pad];
    assert c0 * 4 + c1 / 16 == b0;
    assert (c1 % 16) * 16 + c2 / 4 == b1;
  }

  lemma ThreeOctetsRoundTrip(b0: byte, b1: byte, b2: byte, last: bool)
    ensures DecodeUnit(EncodeUnit([b0, b1, b2]), last) == Some([b0, b1, b2])
  {
    var c0, c1, c2, c3 := b0 / 4, (b0 % 4) * 16 + b1 / 16, (b1 % 16) * 4 + b2 / 64, b2 % 64;
    IndexOfCharOf(c0);
    IndexOfCharOf(c1);
    IndexOfCharOf(c2);
    IndexOfCharOf(c3);
    assert EncodeUnit([b0, b1, b2]) == [CharOf(c0), CharOf(c1), CharOf(c2), CharOf(c3)];
    assert c0 * 4 + c1 / 16 == b0;
    assert (c1 % 16) * 16 + c2 / 4 == b1;
    assert (c2 % 4) * 64 + c3 == b2;
  }

  /** Decoding undoes encoding, for every octet sequence. */
  lemma {:induction false} DecodeEncode(b: seq<byte>)
    ensures Decode(Encode(b)) == Some(b)
    decreases |b|
  {
    if |b| == 0 {
    } else if |b| <= 3 {
      UnitRoundTrip(b, true);
    } else {
      var u, rest := EncodeUnit(b[..3]), Encode(b[3..]);
      DecodeEncode(b[3..]);
      UnitRoundTrip(b[..3], false);
      assert Encode(b) == u + rest;
      assert (u + rest)[..4] == u;
      assert (u + rest)[4..] == rest;
      assert b[..3] + b[3..] == b;
    }
  }

  /** Characters that may appear in encoded text: the alphabet and the padding. */
  predicate IsBase64Char(c: char) {
    IndexOf(c).Some? || c == Pad
  }

  lemma EncodeUnitAlphabet(b: seq<byte>)
    requires 1 <= |b| <= 3
    ensures forall i :: 0 <= i < 4 ==> IsBase64Char(EncodeUnit(b)[i])
  {
    var b0 := b[0];
    var b1 := if |b| > 1 then b[1] else 0;
    var b2 := if |b| > 2 then b[2] else 0;
    IndexOfCharOf(b0 / 4);
    IndexOfCharOf((b0 % 4) * 16 + b1 / 16);
    IndexOfCharOf((b1 % 16) * 4 + b2 / 64);
    IndexOfCharOf(b2 % 64);
  }

  /** Encoded text consists of alphabet characters and padding only (so it never holds the column separator). */
  lemma {:induction false} EncodeAlphabet(b: seq<byte>)
    ensures forall i :: 0 <= i < |Encode(b)| ==> IsBase64Char(Encode(b)[i])
    decreases |b|
  {
    if 0 < |b| <= 3 {
      EncodeUnitAlphabet(b);
    } else if |b| > 3 {
      EncodeUnitAlphabet(b[..3]);
      EncodeAlphabet(b[3..]);
      var u, rest := EncodeUnit(b[..3]), Encode(b[3..]);
      assert Encode(b) == u + rest;
      forall i | 0 <= i < |Encode(b)|
        ensures IsBase64Char(Encode(b)[i])
      {
        if i >= 4 {
          assert Encode(b)[i] == rest[i - 4];
        }
      }
    }
  }
}
