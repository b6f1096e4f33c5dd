/**
 * `encrypt` and `decrypt` of the converter: a fresh JCE cipher per call, initialised with the
 * format's key and (when present) IV. The pass-through branch is concrete; AES/CBC itself is an
 * opaque provider.
 */
module CipherEngine {
  import opened Wrappers
  import opened Bytes
  import opened CipherFormats

  /** The checked JCE exceptions the two methods catch. */
  datatype CryptoCause = NoSuchAlgorithm | InvalidKey | BadPadding | InvalidAlgorithmParameter

  /**
   * What escapes `encrypt`/`decrypt`: caught causes are rethrown as IllegalArgumentException;
   * IllegalBlockSizeException is declared, not caught, and escapes unchanged.
   */
  datatype CipherError = IllegalArgument(cause: CryptoCause) | IllegalBlockSize

  /**
   * The runtime's "AES/CBC/PKCS5Padding" provider. The block cipher is opaque: `encrypt` and
   * `decrypt` take key octets, IV and input; `decrypt` yields None when the PKCS#5 padding check
   * fails. `generatedIv` is the IV `Cipher.init` draws by itself when encrypting without one.
   */
  datatype AesCbcProvider = AesCbcProvider(
    encrypt: (seq<byte>, seq<byte>, seq<byte>) -> seq<byte>,
    decrypt: (seq<byte>, seq<byte>, seq<byte>) -> Option<seq<byte>>,
    generatedIv: seq<byte>)

  const BlockSize: nat := 16

  /** Key lengths (in octets) the AES cipher accepts. */
  predicate AesKeyLength(n: nat) {
    n == 16 || n == 24 || n == 32
  }

  /** The round-trip guarantee of CBC with PKCS#5 padding: whole blocks out, plaintext back. */
  ghost predicate Inverts(aes: AesCbcProvider) {
    forall key: seq<byte>, iv: seq<byte>, p: seq<byte> | AesKeyLength(|key|) && |iv| == BlockSize ::
      |aes.encrypt(key, iv, p)| % BlockSize == 0 && aes.decrypt(key, iv, aes.encrypt(key, iv, p)) == Some(p)
  }

  /** `Cipher.init`: None when the key (or IV) does not suit AES/CBC. */
  function InitError(key: Option<SecretKey>, iv: Option<seq<byte>>): (r: Option<CryptoCause>)
    ensures r.None? ==> key.Some? && key.value.algorithm == "AES" && AesKeyLength(|key.value.encoded|)
    ensures r.None? ==> iv.Some? ==> |iv.value| == BlockSize
  {
    if key.None? || key.value.algorithm != "AES" then Some(InvalidKey)
    else if iv.Some? && |iv.value| != BlockSize then Some(InvalidAlgorithmParameter)
    else if !AesKeyLength(|key.value.encoded|) then Some(InvalidKey)
    else None
  }

  /**
   * `encrypt(bytes, format)`. `provider` is None when `Cipher.getInstance` finds no AES/CBC
   * implementation (NoSuchAlgorithmException).
   */
  function Encrypt(plain: seq<byte>, f: CipherFormat, provider: Option<AesCbcProvider>): (r: Result<seq<byte>, CipherError>)
    ensures CipherName(f.id).None? ==> r == Ok(plain)
    ensures r.Err? ==> r.error.IllegalArgument?
    ensures CipherName(f.id).Some? && f.key.None? ==> r == Err(IllegalArgument(if provider.None? then NoSuchAlgorithm else InvalidKey))
  {
    match CipherName(f.id)
    case None => Ok(plain)
    case Some(_) =>
      if provider.None? then Err(IllegalArgument(NoSuchAlgorithm))
      else
        match InitError(f.key, f.iv)
        case Some(cause) => Err(IllegalArgument(cause))
        case None =>
          var iv := if f.iv.Some? then f.iv.value else provider.value.generatedIv;
          Ok(provider.value.encrypt(f.key.value.encoded, iv, plain))
  }

  /** `decrypt(bytes, format)`. CBC decryption cannot start without an IV ("parameters missing"). */
  function Decrypt(cipherText: seq<byte>, f: CipherFormat, provider: Option<AesCbcProvider>): (r: Result<seq<byte>, CipherError>)
    ensures CipherName(f.id).None? ==> r == Ok(cipherText)
    ensures r == Err(IllegalBlockSize) <==>
      CipherName(f.id).Some? && provider.Some? && InitError(f.key, f.iv).None? && f.iv.Some? &&
      |cipherText| % BlockSize != 0
    ensures CipherName(f.id).Some? && f.iv.None? ==> r.Err?
  {
    match CipherName(f.id)
    case None => Ok(cipherText)
    case Some(_) =>
      if provider.None? then Err(IllegalArgument(NoSuchAlgorithm))
      else
        match InitError(f.key, f.iv)
        case Some(cause) => Err(IllegalArgument(cause))
        case None =>
          if f.iv.None? then Err(IllegalArgument(InvalidKey))
          else if |cipherText| % BlockSize != 0 then Err(IllegalBlockSize)
          else
            match provider.value.decrypt(f.key.value.encoded, f.iv.value, cipherText)
            case None => Err(IllegalArgument(BadPadding))
            case Some(p) => Ok(p)
  }

  /** For a loaded format, decryption undoes encryption. */
  lemma EngineRoundTrip(plain: seq<byte>, f: CipherFormat, provider: Option<AesCbcProvider>)
    requires Loaded(f)
    requires CipherName(f.id).Some? ==> provider.Some? && Inverts(provider.value)
    ensures Encrypt(plain, f, provider).Ok?
    ensures Decrypt(Encrypt(plain, f, provider).value, f, provider) == Ok(plain)
  {
    if CipherName(f.id).Some? {
      var aes := provider.value;
      var c := aes.encrypt(f.key.value.encoded, f.iv.value, plain);
      assert Encrypt(plain, f, provider) == Ok(c);
      assert |c| % BlockSize == 0 && aes.decrypt(f.key.value.encoded, f.iv.value, c) == Some(plain);
    }
  }
}
