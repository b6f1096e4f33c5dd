# Encrypted attribute converters, projection masking and entity identity

This project models the data-protection core of a Spring Boot / JPA demo application:

- **`EncryptedAttributeConverter`** is the JPA converter that turns an entity attribute into a
  column string and back.
  - Writing: serialise the attribute to octets, encrypt them with a cipher format, Base64-encode
    the result, and prefix it with the format's tag: `BASE64:<payload>` or `AES1:<payload>`.
  - Reading: split at the first `:`, look the format up by its tag, Base64-decode, decrypt and
    deserialise.
  - The closed `CipherFormat` registry holds `BASE_64`, a pass-through with the NullCipher, and
    `AES_V1`, which is AES/CBC/PKCS5Padding with a 256-bit key.
  - The registry loads each format's key and IV from a secret loader when the enum is built.
- **`StringEncryptedAttributeConverter`** is the concrete converter for `String` attributes. Its
  serialiser is UTF-8.
- **`AuthorClassProjectionView`** is a read-only projection with two derived getters: the full name
  and the masked account number, which keeps the first two and last two characters.
- **`BaseEntity`** gives every persisted entity its `hashCode` (id hash plus class hash) and its
  `equals` (same object, or same class, hash, id and version).

Files:

| file | module | contents |
|---|---|---|
| `wrappers.dfy` | `Wrappers`, `Bytes` | Option/Result (Java null and thrown exceptions), octets |
| `base64.dfy` | `Base64` | RFC 4648 section 4 encoder and strict decoder, round trip |
| `utf8.dfy` | `Utf8` | RFC 3629 encoder and strict decoder, round trips both ways |
| `cipher_format.dfy` | `CipherFormats` | the enum, its secret loader, `values()`, `getDefault`, `getByDbPrefix` |
| `cipher_engine.dfy` | `CipherEngine` | `encrypt`/`decrypt` with the NullCipher and an AES/CBC provider |
| `converter.dfy` | `Converters` | `convertToDatabaseColumn`, `convertToEntityAttribute`, framing, round trips |
| `string_converter.dfy` | `StringConverters` | the UTF-8 codec and worked column examples |
| `projection.dfy` | `Projections` | `getFullName`, `getAccountNumberMasked` |
| `base_entity.dfy` | `Entities` | `hashCode`, `equals` as written, and a null-safe `equals` |

Modelling choices:

- Java `null` is `None`. A thrown exception is the `Err` of a `Result`.
- A Java object with fields that are final after construction (the enum constants, the
  projection, an entity seen at one moment) is a datatype value.
- `getByDbPrefix` scans `values()` with a loop, so it is a method. It is proved equal to the
  recursive function `FormatWithPrefix`, and the lemmas are stated about that function.
- `getAccountNumberMasked` appends to a `StringBuilder` in a loop, so it is a method too. It is
  proved equal to the comprehension `Masked`, and idempotence is proved about `Masked`.
- `getAccountNumber` is the `accountNumber` field of the `AuthorClassProjectionView` datatype.
- The converter's abstract serialiser pair is the `Codec` parameter. The JCE AES/CBC implementation
  is the `AesCbcProvider` parameter; `None` means `Cipher.getInstance` fails.
- Randomness (`SecureRandom.getInstanceStrong()`) is the `StrongRandom` parameter of the default
  loader.
- Java `int` addition in `hashCode` is wrapped explicitly into the signed 32-bit range.
  `Long.hashCode` is the exclusive-or of the two 32-bit halves.

## Model

| member | source | states |
|---|---|---|
| Base64.Encode | src/main/java/com/abhishek/demo/db/converter/EncryptedAttributeConverter.java:234-236 | the encoding of n octets has 4·⌈n/3⌉ characters |
| Base64.Decode | src/main/java/com/abhishek/demo/db/converter/EncryptedAttributeConverter.java:238-240 | accepted text has a length that is a multiple of 4, and yields between 3·(len/4)−2 and 3·(len/4) octets; the empty text yields no octets |
| Base64.DecodeEncode | src/main/java/com/abhishek/demo/db/converter/EncryptedAttributeConverter.java:234-240 | decoding the encoding of any octet sequence gives that sequence back |
| Base64.EncodeAlphabet | src/main/java/com/abhishek/demo/db/converter/EncryptedAttributeConverter.java:234-236 | encoded text holds only alphabet characters and `=`, so never the `:` separator |
| Utf8.Encode | src/main/java/com/abhishek/demo/db/converter/StringEncryptedAttributeConverter.java:19 | a string of n characters encodes to between n and 4n octets |
| Utf8.DecodeEncode | src/main/java/com/abhishek/demo/db/converter/StringEncryptedAttributeConverter.java:13-20 | decoding the UTF-8 encoding of any string of scalar values gives the string back |
| Utf8.EncodeDecode | src/main/java/com/abhishek/demo/db/converter/StringEncryptedAttributeConverter.java:13-20 | octets that decode re-encode to exactly themselves (the decoder accepts only canonical UTF-8) |
| Utf8.AsciiEncoding | src/main/java/com/abhishek/demo/db/converter/StringEncryptedAttributeConverter.java:19 | an ASCII string encodes to one octet per character, carrying the character's code |
| StringConverters.ConvertAttributeToBytes | src/main/java/com/abhishek/demo/db/converter/StringEncryptedAttributeConverter.java:17-20 | the octets decode back to the same string; between n and 4n octets |
| StringConverters.ConvertBytesToAttribute | src/main/java/com/abhishek/demo/db/converter/StringEncryptedAttributeConverter.java:12-15 | a decoded string re-encodes to the given octets; no result exactly when no string encodes to them |
| StringConverters.DecodeComplete | src/main/java/com/abhishek/demo/db/converter/StringEncryptedAttributeConverter.java:12-15 | octets the decoder rejects are the encoding of no string |
| StringConverters.EmptyStringBytes | src/main/java/com/abhishek/demo/db/converter/StringEncryptedAttributeConverter.java:13-20 | the empty string maps to no octets, and no octets map back to the empty string |
| StringConverters.StringRoundTrip | src/main/java/com/abhishek/demo/db/converter/StringEncryptedAttributeConverter.java:10-20 | every string of Unicode scalar values (and null) reads back unchanged from the column written for it |
| StringConverters.HelloBytes | src/main/java/com/abhishek/demo/db/converter/StringEncryptedAttributeConverter.java:19 | "hello" serialises to the octets 104 101 108 108 111 |
| StringConverters.HelloBase64 | src/main/java/com/abhishek/demo/db/converter/EncryptedAttributeConverter.java:234-236 | those octets Base64-encode to "aGVsbG8=" |
| StringConverters.HelloWritten | src/main/java/com/abhishek/demo/db/converter/EncryptedAttributeConverter.java:185-193 | "hello" is stored as "BASE64:aGVsbG8=", whatever the registry's secrets and the AES provider |
| StringConverters.HelloRead | src/main/java/com/abhishek/demo/db/converter/EncryptedAttributeConverter.java:204-212 | "BASE64:aGVsbG8=" reads back as "hello" |
| StringConverters.UnknownColumn | src/main/java/com/abhishek/demo/db/converter/EncryptedAttributeConverter.java:226-231 | "ZZZZ:abcd" is rejected with UnknownFormatConversion("ZZZZ") |
| StringConverters.EmptyColumn | src/main/java/com/abhishek/demo/db/converter/EncryptedAttributeConverter.java:206-209 | "BASE64:" and "BASE64" both read back as the empty string |
| CipherFormats.DbPrefix | src/main/java/com/abhishek/demo/db/converter/EncryptedAttributeConverter.java:83-84 | every format's column tag is non-empty and free of the `:` separator |
| CipherFormats.DbPrefixInjective | src/main/java/com/abhishek/demo/db/converter/EncryptedAttributeConverter.java:83-84 | distinct formats have distinct tags |
| CipherFormats.Draw | src/main/java/com/abhishek/demo/db/converter/EncryptedAttributeConverter.java:65-66 | filling a buffer of n octets takes the first n octets of the random stream, in order |
| CipherFormats.DefaultSecretKey | src/main/java/com/abhishek/demo/db/converter/EncryptedAttributeConverter.java:44-59 | AES_V1 gets an "AES" key of length/8 octets exactly when strong randomness is available (else it throws); BASE_64 gets null; any other alias throws |
| CipherFormats.DefaultIvSpec | src/main/java/com/abhishek/demo/db/converter/EncryptedAttributeConverter.java:61-75 | AES_V1 gets a 16-octet IV exactly when strong randomness is available (else it throws); BASE_64 gets null; any other alias throws |
| CipherFormats.NewCipherFormat | src/main/java/com/abhishek/demo/db/converter/EncryptedAttributeConverter.java:95-109 | the constant keeps what the loader returned under its name and key size; a load that throws leaves that field null and construction goes on |
| CipherFormats.Values | src/main/java/com/abhishek/demo/db/converter/EncryptedAttributeConverter.java:82-84 | every registered constant was built by the enum constructor with the loader |
| CipherFormats.GetDefault | src/main/java/com/abhishek/demo/db/converter/EncryptedAttributeConverter.java:151-153 | the default is the registered BASE_64 constant: no cipher, tag "BASE64" |
| CipherFormats.FormatWithPrefix | src/main/java/com/abhishek/demo/db/converter/EncryptedAttributeConverter.java:161-168 | a found format is registered and carries the tag; none found means no registered format carries it |
| CipherFormats.GetByDbPrefix | src/main/java/com/abhishek/demo/db/converter/EncryptedAttributeConverter.java:161-168 | the scan returns the first format with the tag, or null exactly when no format has it |
| CipherFormats.LookupOwnPrefix | src/main/java/com/abhishek/demo/db/converter/EncryptedAttributeConverter.java:161-168 | every registered format is found again under its own tag |
| CipherFormats.LookupKnownPrefixes | src/main/java/com/abhishek/demo/db/converter/EncryptedAttributeConverter.java:161-168 | a lookup succeeds exactly for "BASE64" and "AES1" |
| CipherFormats.DefaultRegistryLoaded | src/main/java/com/abhishek/demo/db/converter/EncryptedAttributeConverter.java:43-109 | with the default loader BASE_64 has null key and IV; AES_V1 ends with a 32-octet key and 16-octet IV exactly when both random draws were available |
| CipherEngine.InitError | src/main/java/com/abhishek/demo/db/converter/EncryptedAttributeConverter.java:257-261 | initialisation succeeds only with an AES key of 16, 24 or 32 octets and, when an IV is given, a 16-octet IV |
| CipherEngine.Encrypt | src/main/java/com/abhishek/demo/db/converter/EncryptedAttributeConverter.java:252-273 | the null-cipher format returns its input; every failure is an IllegalArgumentException; a missing key fails as NoSuchAlgorithm or InvalidKey |
| CipherEngine.Decrypt | src/main/java/com/abhishek/demo/db/converter/EncryptedAttributeConverter.java:285-305 | the null-cipher format returns its input; IllegalBlockSize escapes exactly for a ciphertext that is not whole blocks; without an IV AES decryption fails |
| CipherEngine.EngineRoundTrip | src/main/java/com/abhishek/demo/db/converter/EncryptedAttributeConverter.java:252-305 | for a format whose key and IV loaded, decrypt undoes encrypt |
| Converters.SplitFirst | src/main/java/com/abhishek/demo/db/converter/EncryptedAttributeConverter.java:206-208 | the head is free of `:`; with a separator the text is head + ":" + rest; without one the rest is "" |
| Converters.SplitFraming | src/main/java/com/abhishek/demo/db/converter/EncryptedAttributeConverter.java:206-208 | a `:`-free tag and any payload are recovered exactly from tag + ":" + payload |
| Converters.GetEncryptionFormat | src/main/java/com/abhishek/demo/db/converter/EncryptedAttributeConverter.java:222-224 | every value is written under the registered BASE_64 format |
| Converters.GetDecryptionFormat | src/main/java/com/abhishek/demo/db/converter/EncryptedAttributeConverter.java:226-232 | the result is the registered format with that tag; otherwise UnknownFormatConversion, never a fallback |
| Converters.EncodeWith | src/main/java/com/abhishek/demo/db/converter/EncryptedAttributeConverter.java:187-192 | writing succeeds exactly when encryption does, and the column splits back into the format's tag and the Base64 of the ciphertext |
| Converters.ConvertToDatabaseColumn | src/main/java/com/abhishek/demo/db/converter/EncryptedAttributeConverter.java:185-193 | null stays null; any value becomes "BASE64:" + Base64 of its serialised octets |
| Converters.ConvertToEntityAttribute | src/main/java/com/abhishek/demo/db/converter/EncryptedAttributeConverter.java:204-212 | null stays null; an unknown tag fails with UnknownFormatConversion; success needs a valid Base64 payload and yields a value |
| Converters.RoundTrip | src/main/java/com/abhishek/demo/db/converter/EncryptedAttributeConverter.java:185-212 | under any registered, loaded format, what is written reads back as the same value, given a codec that rebuilds it and an AES provider that inverts itself |
| Converters.StoredRoundTrip | src/main/java/com/abhishek/demo/db/converter/EncryptedAttributeConverter.java:185-212 | reading back what convertToDatabaseColumn wrote gives the original attribute, null included |
| Converters.UnknownPrefixRejected | src/main/java/com/abhishek/demo/db/converter/EncryptedAttributeConverter.java:226-231 | any tag other than "BASE64" and "AES1" is rejected, whatever the payload |
| Converters.MissingSeparatorMeansEmptyPayload | src/main/java/com/abhishek/demo/db/converter/EncryptedAttributeConverter.java:206-208 | a column without `:` reads like the same column followed by ":" and an empty payload |
| Converters.EmptyBase64Payload | src/main/java/com/abhishek/demo/db/converter/EncryptedAttributeConverter.java:206-209 | "BASE64" reads as whatever the codec makes of no octets |
| Projections.FullName | src/main/java/com/abhishek/demo/db/projections/AuthorClassProjectionView.java:30-32 | the full name is the first name, one space, then the last name (null renders as "null") |
| Projections.FullNameContainsFirstName | src/main/java/com/abhishek/demo/db/projections/AuthorClassProjectionView.java:30-32 | the full name contains the first name |
| Projections.AccountNumberMasked | src/main/java/com/abhishek/demo/db/projections/AuthorClassProjectionView.java:40-51 | same length as the number; positions i < 2 and i ≥ len−2 keep their character, every other one is '*'; a null number throws NullPointerException |
| Projections.ShortNumberUnmasked | src/main/java/com/abhishek/demo/db/projections/AuthorClassProjectionView.java:42-44 | a number of at most four characters is returned unchanged |
| Projections.MaskIdempotent | src/main/java/com/abhishek/demo/db/projections/AuthorClassProjectionView.java:40-51 | masking a masked number changes nothing |
| Projections.MaskedEqual | src/main/java/com/abhishek/demo/db/projections/AuthorClassProjectionView.java:40-51 | two numbers mask alike exactly when they have the same length and the same visible characters |
| Entities.WrapInt32 | src/main/java/com/abhishek/demo/db/model/BaseEntity.java:60-61 | the 32-bit result is congruent to the mathematical sum modulo 2^32 |
| Entities.IdHashCode | src/main/java/com/abhishek/demo/db/model/BaseEntity.java:60 | a null id hashes to 0 |
| Entities.HashCode | src/main/java/com/abhishek/demo/db/model/BaseEntity.java:58-62 | the hash is id hash + class hash modulo 2^32; an unsaved entity hashes to its class's hash |
| Entities.HashCodeIgnoresOtherFields | src/main/java/com/abhishek/demo/db/model/BaseEntity.java:58-62 | changing version, dates or other attributes leaves the hash unchanged |
| Entities.Equals | src/main/java/com/abhishek/demo/db/model/BaseEntity.java:70-78 | null is unequal; the same object is equal; another class is unequal; equality implies the same object or equal hashes |
| Entities.EqualsByIdAndVersion | src/main/java/com/abhishek/demo/db/model/BaseEntity.java:74-77 | distinct same-class objects with id and version are equal exactly when id and version agree |
| Entities.EqualsDereferencesNulls | src/main/java/com/abhishek/demo/db/model/BaseEntity.java:75-77 | once class and hash agree, a null id (or a matching id and a null version) throws NullPointerException |
| Entities.EqualsThrowsOnUnsavedEntities | src/main/java/com/abhishek/demo/db/model/BaseEntity.java:70-78 | two distinct unsaved entities of one class make equals throw |
| Entities.EqualsNotSymmetric | src/main/java/com/abhishek/demo/db/model/BaseEntity.java:70-78 | a saved entity with id 0 is unequal to an unsaved one, but the reverse comparison throws |
| Entities.EqualsNullSafe | src/main/java/com/abhishek/demo/db/model/BaseEntity.java:70-78 | the corrected equality holds only for a non-null object that is the same object or has the same hash |
| Entities.EqualsNullSafeIsEquality | src/main/java/com/abhishek/demo/db/model/BaseEntity.java:70-78 | the corrected equality is reflexive, symmetric, false for null and consistent with hashCode |
| Entities.EqualsNullSafeTransitive | src/main/java/com/abhishek/demo/db/model/BaseEntity.java:70-78 | the corrected equality is transitive, so with the row above it is an equivalence relation |
| Entities.EqualsNullSafeAgrees | src/main/java/com/abhishek/demo/db/model/BaseEntity.java:70-78 | wherever equals as written returns, the corrected equality gives the same answer |

## Left out

- AES itself, `KeyGenerator` and `SecureRandom` are not modelled. AES/CBC is an opaque provider
  whose round trip is the `Inverts` hypothesis. No tamper detection is claimed: CBC with PKCS#5
  padding has no MAC.
- `CipherEngine.Encrypt`: `Cipher.init` draws a fresh random IV per call when none is given. The
  model uses one `generatedIv` per provider.
- `CipherEngine.InitError` checks the key before the IV. The JCE's exact order of checks between
  a wrong key algorithm, a wrong key length and a wrong IV length is simplified to that order.
- `CipherFormats.DefaultSecretKey`: `KeyGenerator.init` with an unsupported length throws
  `InvalidParameterException`, which the loader does not catch. That path is not modelled. The
  registry only asks for 0 (never reaching the generator) and 256.
- `Base64.Decode` is a strict RFC 4648 decoder: padding required, trailing bits unchecked.
  `Base64Utils.decodeFromString` also accepts an unpadded final unit. The model rejects such
  text, which no encoder output contains.
- `StringConverters.StringRoundTrip`: attributes are modelled as strings of Unicode scalar values.
  A Java `String` may hold an unpaired UTF-16 surrogate; `getBytes(UTF_8)` writes it as `?`
  (0x3F), so such a string does not round-trip in the source (`"a\uD800b"` reads back as
  `"a?b"`). Those strings are outside the model.
- `Utf8.Decode` returns None for malformed octets. `new String(bytes, UTF_8)` substitutes U+FFFD
  instead. The encoder's output is always well-formed, so the round trips are unaffected.
- `Projections.AccountNumberMasked` works on Unicode scalar values. Java's `length()` and
  `charAt` count UTF-16 code units, so a number containing supplementary characters is masked
  differently.
- `getAge` reads the clock, and the `dob` field exists only for it.
- Logging (`log.error`, `log.debug`, `log.trace`) is left out.
- `Entities.Equals` takes `that` as a `BaseEntity` or null. Objects of other types are not
  modelled; for them `equals` returns false at the class check.
- `Entities.HashCode` treats `Objects.hashCode(getClass())` as a per-class number fixed for the run.
- Hibernate, the repositories, services, HTTP clients and controllers are not part of this model.
- The `getDefault` doc comment says AES_V1, but the code returns BASE_64. The model follows the
  code, so every stored value is Base64 plain text.

## Findings

| source | as written | input that shows it | evidently intended | confidence | as-written member | corrected member |
|---|---|---|---|---|---|---|
| src/main/java/com/abhishek/demo/db/model/BaseEntity.java:70-78 | after the class and hash checks, `id.equals(...)` and `version.equals(...)` dereference this entity's nullable id and version | two distinct unsaved entities of one class: both ids are null, so both hashes equal the class hash and `id.equals` throws NullPointerException; with a saved entity of id 0, `saved.equals(unsaved)` is false but `unsaved.equals(saved)` throws | equals never throws: the same object, or the same class with equal non-null id and equal version; symmetric and consistent with hashCode | not executed | Entities.EqualsThrowsOnUnsavedEntities | Entities.EqualsNullSafe |
