/**
 * The two final methods of `EncryptedAttributeConverter`: `convertToDatabaseColumn` (serialise,
 * encrypt, Base64, tag with the format prefix) and `convertToEntityAttribute` (the inverse).
 * The subclass's abstract serialiser pair is the `Codec` parameter.
 */
module Converters {
  import opened Wrappers
  import opened Bytes
  import opened CipherFormats
  import opened CipherEngine
  import Base64

  /** `ENTITY_SEPARATOR`, between the format prefix and the payload. */
  const EntitySeparator: char := ':'

  /** `convertAttributeToBytes` / `convertBytesToAttribute` of a concrete converter; None is a value it cannot rebuild. */
  datatype Codec<!X> = Codec(toBytes: X -> seq<byte>, fromBytes: seq<byte> -> Option<X>)

  /** What the two conversions throw. */
  datatype Failure =
    | UnknownFormatConversion(prefix: string)  // UnknownFormatConversionException
    | CipherFailure(error: CipherError)        // from encrypt/decrypt
    | IllegalBase64                            // IllegalArgumentException of the Base64 decoder
    | Undecodable                              // the codec could not rebuild the attribute

  /** `s.split(ENTITY_SEPARATOR, 2)` read as (entity[0], payload): text before the first separator and the rest, or (s, "") without one. */
  function SplitFirst(s: string): (r: (string, string))
    ensures EntitySeparator !in r.0
    ensures EntitySeparator in s ==> s == r.0 + [EntitySeparator] + r.1
    ensures EntitySeparator !in s ==> r == (s, "")
  {
    if s == [] then ("", "")
    else if s[0] == EntitySeparator then ("", s[1..])
    else
      var rest := SplitFirst(s[1..]);
      assert s == [s[0]] + s[1..];
      ([s[0]] + rest.0, rest.1)
  }

  /** A separator-free prefix is recovered exactly, whatever the payload holds. */
  lemma {:induction false} SplitFraming(prefix: string, payload: string)
    requires EntitySeparator !in prefix
    ensures SplitFirst(prefix + [EntitySeparator] + payload) == (prefix, payload)
  {
    if prefix != [] {
      SplitFraming(prefix[1..], payload);
      assert (prefix + [EntitySeparator] + payload)[1..] == prefix[1..] + [EntitySeparator] + payload;
      assert [prefix[0]] + prefix[1..] == prefix;
    }
  }

  /** `getEncryptionFormat(x)`: the hook for per-value format choice; it always answers the default. */
  function GetEncryptionFormat<X>(reg: Registry, x: X): (f: CipherFormat)
    ensures f in reg && f.id == Base64Format
  {
    GetDefault(reg)
  }

  /** `getDecryptionFormat(prefix)`: the registered format with that prefix; never falls back to the default. */
  function GetDecryptionFormat(reg: Registry, prefix: string): (r: Result<CipherFormat, Failure>)
    ensures r.Ok? ==> r.value in reg && DbPrefix(r.value.id) == prefix
    ensures r.Err? ==> r.error == UnknownFormatConversion(prefix) && forall f :: f in reg ==> DbPrefix(f.id) != prefix
  {
    match FormatWithPrefix(reg, prefix)
    case None => Err(UnknownFormatConversion(prefix))
    case Some(f) => Ok(f)
  }

  /** The body of `convertToDatabaseColumn` once format `f` is chosen. */
  function EncodeWith<X>(x: X, f: CipherFormat, codec: Codec<X>, provider: Option<AesCbcProvider>): (r: Result<string, Failure>)
    ensures r.Ok? <==> Encrypt(codec.toBytes(x), f, provider).Ok?
    ensures r.Ok? ==> SplitFirst(r.value) == (DbPrefix(f.id), Base64.Encode(Encrypt(codec.toBytes(x), f, provider).value))
  {
    match Encrypt(codec.toBytes(x), f, provider)
    case Err(e) => Err(CipherFailure(e))
    case Ok(cipherText) =>
      SplitFraming(DbPrefix(f.id), Base64.Encode(cipherText));
      Ok(DbPrefix(f.id) + [EntitySeparator] + Base64.Encode(cipherText))
  }

  /**
   * `convertToDatabaseColumn`: null stays null; otherwise the value is written under the default
   * format, so the column is "BASE64:" followed by the Base64 text of the serialised value. The
   * result depends on the value alone, which is what lets plain-text query filters match.
   */
  function ConvertToDatabaseColumn<X>(x: Option<X>, reg: Registry, codec: Codec<X>, provider: Option<AesCbcProvider>): (r: Result<Option<string>, Failure>)
    ensures x.None? ==> r == Ok(None)
    ensures x.Some? ==> r == Ok(Some("BASE64:" + Base64.Encode(codec.toBytes(x.value))))
  {
    match x
    case None => Ok(None)
    case Some(v) =>
      assert "BASE64:" == DbPrefix(Base64Format) + [EntitySeparator];
      match EncodeWith(v, GetEncryptionFormat(reg, v), codec, provider)
      case Err(e) => Err(e)
      case Ok(s) => Ok(Some(s))
  }

  /**
   * `convertToEntityAttribute`: null stays null; otherwise split at the first separator, look the
   * prefix up, Base64-decode, decrypt and deserialise, failing at the first step that throws.
   */
  function ConvertToEntityAttribute<X>(s: Option<string>, reg: Registry, codec: Codec<X>, provider: Option<AesCbcProvider>): (r: Result<Option<X>, Failure>)
    ensures s.None? ==> r == Ok(None)
    ensures s.Some? && FormatWithPrefix(reg, SplitFirst(s.value).0).None? ==>
      r == Err(UnknownFormatConversion(SplitFirst(s.value).0))
    ensures s.Some? && r.Ok? ==> r.value.Some? && Base64.Decode(SplitFirst(s.value).1).Some?
  {
    match s
    case None => Ok(None)
    case Some(column) =>
      var parts := SplitFirst(column);
      match GetDecryptionFormat(reg, parts.0)
      case Err(e) => Err(e)
      case Ok(f) =>
        match Base64.Decode(parts.1)
        case None => Err(IllegalBase64)
        case Some(cipherText) =>
          match Decrypt(cipherText, f, provider)
          case Err(e) => Err(CipherFailure(e))
          case Ok(plain) =>
            match codec.fromBytes(plain)
            case None => Err(Undecodable)
            case Some(v) => Ok(Some(v))
  }

  /**
   * Round trip through any registered format whose key and IV loaded: what is written under `f`
   * reads back as the same value, provided the codec rebuilds it and AES/CBC inverts itself.
   */
  lemma RoundTrip<X>(x: X, reg: Registry, f: CipherFormat, codec: Codec<X>, provider: Option<AesCbcProvider>)
    requires f in reg && Loaded(f)
    requires codec.fromBytes(codec.toBytes(x)) == Some(x)
    requires CipherName(f.id).Some? ==> provider.Some? && Inverts(provider.value)
    ensures EncodeWith(x, f, codec, provider).Ok?
    ensures ConvertToEntityAttribute(Some(EncodeWith(x, f, codec, provider).value), reg, codec, provider) == Ok(Some(x))
  {
    var plain := codec.toBytes(x);
    EngineRoundTrip(plain, f, provider);
    var cipherText := Encrypt(plain, f, provider).value;
    Base64.DecodeEncode(cipherText);
    LookupOwnPrefix(reg, f);
  }

  /**
   * The round trip the application relies on: reading back what `convertToDatabaseColumn` wrote
   * gives the original attribute (null included). The default format is pass-through, so it needs
   * nothing of the AES provider or of the loaded secrets.
   */
  lemma StoredRoundTrip<X>(x: Option<X>, reg: Registry, codec: Codec<X>, provider: Option<AesCbcProvider>)
    requires x.Some? ==> codec.fromBytes(codec.toBytes(x.value)) == Some(x.value)
    ensures ConvertToDatabaseColumn(x, reg, codec, provider).Ok?
    ensures ConvertToEntityAttribute(ConvertToDatabaseColumn(x, reg, codec, provider).value, reg, codec, provider) == Ok(x)
  {
    if x.Some? {
      var f := GetEncryptionFormat(reg, x.value);
      assert Loaded(f);
      RoundTrip(x.value, reg, f, codec, provider);
    }
  }

  /** A prefix other than the two registered ones is rejected, whatever follows it. */
  lemma UnknownPrefixRejected<X>(prefix: string, payload: string, reg: Registry, codec: Codec<X>, provider: Option<AesCbcProvider>)
    requires EntitySeparator !in prefix && prefix != "BASE64" && prefix != "AES1"
    ensures ConvertToEntityAttribute(Some(prefix + [EntitySeparator] + payload), reg, codec, provider)
            == Err(UnknownFormatConversion(prefix))
  {
    SplitFraming(prefix, payload);
    LookupKnownPrefixes(reg, prefix);
  }

  /** A column without separator is read as its prefix followed by an empty payload. */
  lemma MissingSeparatorMeansEmptyPayload<X>(s: string, reg: Registry, codec: Codec<X>, provider: Option<AesCbcProvider>)
    requires EntitySeparator !in s
    ensures ConvertToEntityAttribute(Some(s), reg, codec, provider)
            == ConvertToEntityAttribute(Some(s + [EntitySeparator]), reg, codec, provider)
  {
    SplitFraming(s, "");
    assert s + [EntitySeparator] + "" == s + [EntitySeparator];
  }

  /** An empty payload under BASE64 decodes whatever the codec makes of no octets. */
  lemma EmptyBase64Payload<X>(reg: Registry, codec: Codec<X>, provider: Option<AesCbcProvider>)
    ensures ConvertToEntityAttribute(Some("BASE64"), reg, codec, provider)
            == (match codec.fromBytes([]) case None => Err(Undecodable) case Some(v) => Ok(Some(v)))
  {
    LookupOwnPrefix(reg, reg[0]);
  }
}
