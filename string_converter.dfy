/**
 * `StringEncryptedAttributeConverter`: the converter for String attributes, whose codec is UTF-8.
 */
module StringConverters {
  import opened Wrappers
  import opened Bytes
  import opened CipherFormats
  import opened CipherEngine
  import opened Converters
  import Utf8
  import Base64

  /** `convertAttributeToBytes`: `getBytes(UTF_8)`; its octets decode back to the same string. */
  function ConvertAttributeToBytes(s: string): (b: seq<byte>)
    ensures Utf8.Decode(b) == Some(s)
    ensures |s| <= |b| <= 4 * |s|
  {
    Utf8.DecodeEncode(s);
    Utf8.Encode(s)
  }

  /** `convertBytesToAttribute`: `new String(bytes, UTF_8)`; None exactly when the octets are no string's encoding. */
  function ConvertBytesToAttribute(b: seq<byte>): (r: Option<string>)
    ensures r.Some? ==> Utf8.Encode(r.value) == b
    ensures r.None? ==> forall s :: Utf8.Encode(s) != b
  {
    if Utf8.Decode(b).Some? then Utf8.EncodeDecode(b); Utf8.Decode(b)
    else DecodeComplete(b); None
  }

  lemma DecodeComplete(b: seq<byte>)
    requires Utf8.Decode(b).None?
    ensures forall s :: Utf8.Encode(s) != b
  {
    forall s | Utf8.Encode(s) == b
      ensures false
    {
      Utf8.DecodeEncode(s);
    }
  }

  function StringCodec(): Codec<string> {
    Codec(ConvertAttributeToBytes, ConvertBytesToAttribute)
  }

  /** Every string attribute (and null) reads back unchanged from the column it was written to. */
  lemma StringRoundTrip(s: Option<string>, reg: Registry, provider: Option<AesCbcProvider>)
    ensures ConvertToDatabaseColumn(s, reg, StringCodec(), provider).Ok?
    ensures ConvertToEntityAttribute(ConvertToDatabaseColumn(s, reg, StringCodec(), provider).value, reg, StringCodec(), provider) == Ok(s)
  {
    StoredRoundTrip(s, reg, StringCodec(), provider);
  }

  /** The empty string has no octets, and no octets read back as the empty string. */
  lemma EmptyStringBytes()
    ensures ConvertAttributeToBytes("") == [] && ConvertBytesToAttribute([]) == Some("")
  {
  }

  /** Writing "hello" gives "BASE64:aGVsbG8=". */
  lemma HelloWritten(reg: Registry, provider: Option<AesCbcProvider>)
    ensures ConvertToDatabaseColumn(Some("hello"), reg, StringCodec(), provider) == Ok(Some("BASE64:aGVsbG8="))
  {
    var bytes := StringCodec().toBytes("hello");
    assert bytes == ConvertAttributeToBytes("hello");
    HelloBytes();
    HelloBase64();
    HelloColumnText();
  }

  lemma HelloColumnText()
    ensures "BASE64:" + "aGVsbG8=" == "BASE64:aGVsbG8="
  {
  }

  /** Reading "BASE64:aGVsbG8=" gives "hello". */
  lemma HelloRead(reg: Registry, provider: Option<AesCbcProvider>)
    ensures ConvertToEntityAttribute(Some("BASE64:aGVsbG8="), reg, StringCodec(), provider) == Ok(Some("hello"))
  {
    HelloWritten(reg, provider);
    StringRoundTrip(Some("hello"), reg, provider);
  }

  lemma HelloBytes()
    ensures ConvertAttributeToBytes("hello") == [104, 101, 108, 108, 111]
  {
    Utf8.AsciiEncoding("hello");
  }

  lemma HelloBase64()
    ensures Base64.Encode([104, 101, 108, 108, 111]) == "aGVsbG8="
  {
    var bytes: seq<byte> := [104, 101, 108, 108, 111];
    assert bytes[..3] == [104, 101, 108] && bytes[3..] == [108, 111];
    assert Base64.EncodeUnit([104, 101, 108]) == [Base64.CharOf(26), Base64.CharOf(6), Base64.CharOf(21), Base64.CharOf(44)];
    assert Base64.EncodeUnit([104, 101, 108]) == "aGVs";
    assert Base64.EncodeUnit([108, 111]) == [Base64.CharOf(27), Base64.CharOf(6), Base64.CharOf(60), Base64.Pad];
    assert Base64.EncodeUnit([108, 111]) == "bG8=";
  }

  /** "ZZZZ:abcd" names no format and is rejected. */
  lemma UnknownColumn(reg: Registry, provider: Option<AesCbcProvider>)
    ensures ConvertToEntityAttribute(Some("ZZZZ:abcd"), reg, StringCodec(), provider) == Err(UnknownFormatConversion("ZZZZ"))
  {
    assert "ZZZZ:abcd" == "ZZZZ" + [EntitySeparator] + "abcd";
    UnknownPrefixRejected("ZZZZ", "abcd", reg, StringCodec(), provider);
  }

  /** "BASE64:" and "BASE64" both read back as the empty string. */
  lemma EmptyColumn(reg: Registry, provider: Option<AesCbcProvider>)
    ensures ConvertToEntityAttribute(Some("BASE64:"), reg, StringCodec(), provider) == Ok(Some(""))
    ensures ConvertToEntityAttribute(Some("BASE64"), reg, StringCodec(), provider) == Ok(Some(""))
  {
    EmptyBase64Payload(reg, StringCodec(), provider);
    MissingSeparatorMeansEmptyPayload("BASE64", reg, StringCodec(), provider);
    assert "BASE64" + [EntitySeparator] == "BASE64:";
  }
}
