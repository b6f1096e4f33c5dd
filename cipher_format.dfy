/**
 * The closed registry of cipher formats (`EncryptedAttributeConverter.CipherFormat`) and the
 * secret loader that binds each format to its key and initialisation vector when the
 * registry is built.
 */
module CipherFormats {
  import opened Wrappers
  import opened Bytes

  /** The enum constants, in declaration order. */
  datatype FormatId = Base64Format | AesV1

  /** `name()` of the constant; it is also the alias under which secrets are loaded. */
  function Name(id: FormatId): string {
    match id
    case Base64Format => "BASE_64"
    case AesV1 => "AES_V1"
  }

  /** The literal stored in front of every column value written with this format. */
  function DbPrefix(id: FormatId): (p: string)
    ensures |p| > 0 && ':' !in p
  {
    match id
    case Base64Format => "BASE64"
    case AesV1 => "AES1"
  }

  /** The JCE transformation; None stands for `null`, which selects the pass-through NullCipher. */
  function CipherName(id: FormatId): Option<string> {
    match id
    case Base64Format => None
    case AesV1 => Some("AES/CBC/PKCS5Padding")
  }

  /** Key length in bits requested from the secret loader. */
  function KeySize(id: FormatId): nat {
    match id
    case Base64Format => 0
    case AesV1 => 256
  }

  lemma DbPrefixInjective(a: FormatId, b: FormatId)
    ensures DbPrefix(a) == DbPrefix(b) ==> a == b
  {
    if a != b {
      assert DbPrefix(a)[0] != DbPrefix(b)[0];
    }
  }

  /** A `SecretKey`: its algorithm name and raw encoded octets. */
  datatype SecretKey = SecretKey(algorithm: string, encoded: seq<byte>)

  /**
   * A `SecretLoader`: for an alias, a key (of the given bit length) and an IV. Each call either
   * returns a possibly-null value or throws (KeySelectorException for keys,
   * IllegalArgumentException for IVs), modelled as Err with the exception message.
   */
  datatype SecretLoader = SecretLoader(
    getSecretKey: (string, nat) -> Result<Option<SecretKey>, string>,
    getIvSpec: string -> Result<Option<seq<byte>>, string>)

  /** `SecureRandom.getInstanceStrong()`: absent (NoSuchAlgorithmException) or a stream of octets. */
  datatype StrongRandom = Unavailable | Stream(next: nat -> byte)

  /** The first `n` octets of a random stream. */
  function Draw(next: nat -> byte, n: nat): (r: seq<byte>)
    ensures |r| == n && forall i :: 0 <= i < n ==> r[i] == next(i)
  {
    seq(n, i requires 0 <= i < n => next(i))
  }

  /** The key the default loader hands out for an alias. */
  function DefaultSecretKey(keyRandom: StrongRandom, alias: string, length: nat): (r: Result<Option<SecretKey>, string>)
    ensures alias == "AES_V1" ==>
      (r.Ok? <==> keyRandom.Stream?) &&
      (r.Ok? ==> r.value.Some? && r.value.value.algorithm == "AES" && |r.value.value.encoded| == length / 8)
    ensures alias == "BASE_64" ==> r == Ok(None)
    ensures alias != "AES_V1" && alias != "BASE_64" ==> r.Err?
  {
    if alias == "AES_V1" then
      match keyRandom
      case Unavailable => Err("Error while fetching key : " + alias)
      case Stream(next) => Ok(Some(SecretKey("AES", Draw(next, length / 8))))
    else if alias == "BASE_64" then Ok(None)
    else Err("Unsupported Alias : " + alias)
  }

  /** The IV the default loader hands out for an alias: 16 random octets for AES_V1. */
  function DefaultIvSpec(ivRandom: StrongRandom, alias: string): (r: Result<Option<seq<byte>>, string>)
    ensures alias == "AES_V1" ==>
      (r.Ok? <==> ivRandom.Stream?) && (r.Ok? ==> r.value.Some? && |r.value.value| == 16)
    ensures alias == "BASE_64" ==> r == Ok(None)
    ensures alias != "AES_V1" && alias != "BASE_64" ==> r.Err?
  {
    if alias == "AES_V1" then
      match ivRandom
      case Unavailable => Err("Could not get strong random for generating IV for alias " + alias)
      case Stream(next) => Ok(Some(Draw(next, 16)))
    else if alias == "BASE_64" then Ok(None)
    else Err("Unsupported alias for generating IV for alias " + alias)
  }

  /**
   * The anonymous `defaultSecretLoader`: fresh random key and IV for AES_V1, null for BASE_64,
   * an exception for any other alias. Each run's randomness is a parameter.
   */
  function DefaultSecretLoader(keyRandom: StrongRandom, ivRandom: StrongRandom): SecretLoader {
    SecretLoader(
      (alias: string, length: nat) => DefaultSecretKey(keyRandom, alias, length),
      (alias: string) => DefaultIvSpec(ivRandom, alias))
  }

  /** One enum constant with the key and IV it loaded (either may be null). */
  datatype CipherFormat = CipherFormat(id: FormatId, key: Option<SecretKey>, iv: Option<seq<byte>>)

  /**
   * The enum constructor: asks the loader for a key and an IV under the constant's name.
   * A load that throws is logged and leaves that field null; construction carries on.
   */
  function NewCipherFormat(id: FormatId, loader: SecretLoader): (f: CipherFormat)
    ensures f.id == id
    ensures loader.getSecretKey(Name(id), KeySize(id)).Err? ==> f.key.None?
    ensures loader.getSecretKey(Name(id), KeySize(id)).Ok? ==> f.key == loader.getSecretKey(Name(id), KeySize(id)).value
    ensures loader.getIvSpec(Name(id)).Err? ==> f.iv.None?
    ensures loader.getIvSpec(Name(id)).Ok? ==> f.iv == loader.getIvSpec(Name(id)).value
  {
    var key := match loader.getSecretKey(Name(id), KeySize(id))
      case Ok(k) => k
      case Err(_) => None;
    var iv := match loader.getIvSpec(Name(id))
      case Ok(v) => v
      case Err(_) => None;
    CipherFormat(id, key, iv)
  }

  /** `values()`: every constant, once, in declaration order. */
  type Registry = r: seq<CipherFormat> | |r| == 2 && r[0].id == Base64Format && r[1].id == AesV1
    witness [CipherFormat(Base64Format, None, None), CipherFormat(AesV1, None, None)]

  /** Class initialisation of the enum: both constants are built, whatever the loader throws. */
  function Values(loader: SecretLoader): (r: Registry)
    ensures forall i :: 0 <= i < |r| ==> r[i] == NewCipherFormat(r[i].id, loader)
  {
    [NewCipherFormat(Base64Format, loader), NewCipherFormat(AesV1, loader)]
  }

  /** `getDefault()`: the pass-through BASE_64 format (its comment says AES_V1; the code says BASE_64). */
  function GetDefault(reg: Registry): (f: CipherFormat)
    ensures f in reg && f.id == Base64Format
    ensures CipherName(f.id).None? && DbPrefix(f.id) == "BASE64"
  {
    reg[0]
  }

  /** The first format of `formats` whose prefix is `prefix`; the specification of GetByDbPrefix. */
  function FormatWithPrefix(formats: seq<CipherFormat>, prefix: string): (r: Option<CipherFormat>)
    ensures r.Some? ==> r.value in formats && DbPrefix(r.value.id) == prefix
    ensures r.None? ==> forall f :: f in formats ==> DbPrefix(f.id) != prefix
  {
    if formats == [] then None
    else if DbPrefix(formats[0].id) == prefix then Some(formats[0])
    else FormatWithPrefix(formats[1..], prefix)
  }

  /** `getByDbPrefix`: scans `values()` in order and returns the first format with that prefix, or null. */
  method GetByDbPrefix(reg: Registry, prefix: string) returns (r: Option<CipherFormat>)
    ensures r == FormatWithPrefix(reg, prefix)
    ensures r.Some? ==> r.value in reg && DbPrefix(r.value.id) == prefix
    ensures r.None? ==> forall f :: f in reg ==> DbPrefix(f.id) != prefix
  {
    var i := 0;
    while i < |reg|
      invariant 0 <= i <= |reg|
      invariant FormatWithPrefix(reg[i..], prefix) == FormatWithPrefix(reg, prefix)
    {
      if DbPrefix(reg[i].id) == prefix {
        return Some(reg[i]);
      }
      assert reg[i..][1..] == reg[i + 1..];
      i := i + 1;
    }
    return None;
  }

  /** Every registered format is found again under its own prefix. */
  lemma LookupOwnPrefix(reg: Registry, f: CipherFormat)
    requires f in reg
    ensures FormatWithPrefix(reg, DbPrefix(f.id)) == Some(f)
  {
    var p := DbPrefix(f.id);
    DbPrefixInjective(Base64Format, AesV1);
    if f == reg[1] {
      assert DbPrefix(reg[0].id) != p;
      assert reg[1..][0] == f;
    }
  }

  /** A prefix is found exactly when it is one of the two stored literals. */
  lemma LookupKnownPrefixes(reg: Registry, prefix: string)
    ensures FormatWithPrefix(reg, prefix).Some? <==> prefix == "BASE64" || prefix == "AES1"
  {
    if prefix == "AES1" {
      LookupOwnPrefix(reg, reg[1]);
    }
  }

  /** A format whose key and IV are in place (BASE_64 needs neither). */
  predicate Loaded(f: CipherFormat) {
    CipherName(f.id).None? ||
    (f.key.Some? && f.key.value.algorithm == "AES" && |f.key.value.encoded| == 32 &&
     f.iv.Some? && |f.iv.value| == 16)
  }

  /** With the default loader, AES_V1 is loaded exactly when strong randomness was available for both draws. */
  lemma DefaultRegistryLoaded(keyRandom: StrongRandom, ivRandom: StrongRandom)
    ensures var reg := Values(DefaultSecretLoader(keyRandom, ivRandom));
      reg[0].key.None? && reg[0].iv.None? && Loaded(reg[0]) &&
      (Loaded(reg[1]) <==> keyRandom.Stream? && ivRandom.Stream?)
  {
    var loader := DefaultSecretLoader(keyRandom, ivRandom);
    assert loader.getSecretKey("AES_V1", 256) == DefaultSecretKey(keyRandom, "AES_V1", 256);
    assert loader.getIvSpec("AES_V1") == DefaultIvSpec(ivRandom, "AES_V1");
    assert loader.getSecretKey("BASE_64", 0) == DefaultSecretKey(keyRandom, "BASE_64", 0);
    assert loader.getIvSpec("BASE_64") == DefaultIvSpec(ivRandom, "BASE_64");
  }
}
