/** Choosing an envelope by options, and how much fits into a block of a given size. */
module CryptoPrivmx {
  import opened ByteStrings
  import opened Results
  import opened CbcCipher
  import opened ChunkEncryption
  import opened CryptoEnvelope
  import opened Utils

  datatype Algorithm = Aes256Cbc | XteaEcb

  datatype Hmac = NoHmac | Sha256

  datatype Options = Options(algorithm: Algorithm, attachIv: bool, hmac: Hmac, deterministic: bool, taglen: nat)

  datatype PrivmxError =
    | EncryptInvalidKeyLength
    | OnlyHmacSha256WithIv
    | CannotPassIvToDeterministic
    | XteaDoesNotSupport
    | XteaNotImplemented
    | MissingRequiredSignature
    | Envelope(cause: EnvelopeError)

  function Wrapped(r: Result<Bytes, EnvelopeError>): Result<Bytes, PrivmxError> {
    match r
    case Ok(value) => Ok(value)
    case Err(e) => Err(Envelope(e))
  }

  /** Why options are refused, before anything is encrypted. */
  function Refusal(options: Options, key: Bytes, iv: Bytes): Option<PrivmxError> {
    if |key| != 32 then Some(EncryptInvalidKeyLength)
    else if options.algorithm == XteaEcb then
      Some(if options.hmac != NoHmac || iv != [] || options.attachIv then XteaDoesNotSupport else XteaNotImplemented)
    else if options.hmac == NoHmac then None
    else if !options.attachIv then Some(OnlyHmacSha256WithIv)
    else if options.deterministic then Some(CannotPassIvToDeterministic)
    else None
  }

  /** The envelope that the options call for. */
  function Sealed(c: CryptoService, options: Options, data: Bytes, key: Bytes, iv: Bytes): Result<Bytes, EnvelopeError>
    requires c.Lawful()
  {
    if options.hmac == Sha256 then CtWithIvAndHmac(c, data, key, iv, options.taglen)
    else if options.attachIv then CtWithIv(c, data, key, iv)
    else CtNoIv(c, data, key, iv)
  }

  /** Encrypts under a random vector if none is given. */
  method PrivmxEncrypt(c: CryptoService, options: Options, data: Bytes, key: Bytes, iv: Bytes)
    returns (r: Result<Bytes, PrivmxError>, used: Bytes)
    requires c.Lawful()
    ensures Refusal(options, key, iv).Some? ==> r == Err(Refusal(options, key, iv).value)
    ensures Refusal(options, key, iv).None? ==> r == Wrapped(Sealed(c, options, data, key, used))
    ensures iv != [] ==> used == iv
    ensures iv == [] ==> |used| == BLOCK
  {
    used := iv;
    if iv == [] {
      used := RandomBytes(BLOCK);
    }
    if |key| != 32 {
      return Err(EncryptInvalidKeyLength), used;
    }
    match options.algorithm
    case Aes256Cbc =>
      if options.hmac != NoHmac {
        if options.hmac != Sha256 || !options.attachIv {
          return Err(OnlyHmacSha256WithIv), used;
        }
        if options.deterministic {
          if options.attachIv {
            return Err(CannotPassIvToDeterministic), used;
          }
        } else {
          return Wrapped(CtWithIvAndHmac(c, data, key, used, options.taglen)), used;
        }
      }
      if options.attachIv {
        return Wrapped(CtWithIv(c, data, key, used)), used;
      }
      return Wrapped(CtNoIv(c, data, key, used)), used;
    case XteaEcb =>
      if options.hmac != NoHmac || iv != [] || options.attachIv {
        return Err(XteaDoesNotSupport), used;
      }
      return Err(XteaNotImplemented), used;
  }

  function PrivmxDecrypt(c: CryptoService, isSigned: bool, data: Bytes, key: Bytes, iv: Bytes, taglen: nat): Result<Bytes, PrivmxError>
    requires c.Lawful()
  {
    if isSigned && (data == [] || data[0] != AES_256_CBC_PKCS7_WITH_IV_AND_HMAC_SHA256) then Err(MissingRequiredSignature)
    else Wrapped(CtDecrypt(c, data, key, iv, taglen))
  }

  /** What options the caller has to decrypt with: the vector, if it was not attached, and the same tag length.
      Signed data is accepted as signed, and nothing else is. */
  method EncryptAndDecrypt(c: CryptoService, options: Options, data: Bytes, key: Bytes, iv: Bytes, isSigned: bool)
    returns (r: Result<Bytes, PrivmxError>)
    requires c.Lawful() && (iv == [] || |iv| == BLOCK)
    ensures Refusal(options, key, iv).Some? ==> r == Err(Refusal(options, key, iv).value)
    ensures Refusal(options, key, iv).None? && isSigned && options.hmac == NoHmac ==> r == Err(MissingRequiredSignature)
    ensures Refusal(options, key, iv).None? && (isSigned ==> options.hmac != NoHmac) ==>
              (r == Ok(data) <==> if options.hmac != NoHmac then options.taglen <= 32 else options.attachIv || iv != [])
  {
    var encrypted, used := PrivmxEncrypt(c, options, data, key, iv);
    if Refusal(options, key, iv).Some? {
      return Err(encrypted.error);
    }
    HmacRoundTrip(c, data, key, used, iv, options.taglen);
    WithIvRoundTrip(c, data, key, used, iv, options.taglen);
    NoIvRoundTrip(c, data, key, used, options.taglen);
    r := PrivmxDecrypt(c, isSigned, encrypted.value, key, iv, options.taglen);
  }

  // ---- Block sizes ----

  function PrivmxGetBlockSize(options: Options, blockSize: int): int {
    var size := blockSize - 1 - (if options.attachIv then 16 else 0) - (if options.hmac != NoHmac then options.taglen else 0);
    size - Remainder(size, 16) - 1
  }

  /** Encrypted length of `n` bytes under options that are not refused. */
  function SealedLength(options: Options, n: nat): nat {
    1 + (if options.attachIv then 16 else 0) + PaddedLength(n) + (if options.hmac != NoHmac then Min(options.taglen, 32) else 0)
  }

  lemma SealedLengthIs(c: CryptoService, options: Options, data: Bytes, key: Bytes, iv: Bytes)
    requires c.Lawful() && Refusal(options, key, iv).None? && |iv| == BLOCK
    ensures Sealed(c, options, data, key, iv).Ok?
    ensures |Sealed(c, options, data, key, iv).value| == SealedLength(options, |data|)
  {
    HmacRoundTrip(c, data, key, iv, iv, options.taglen);
    WithIvRoundTrip(c, data, key, iv, iv, options.taglen);
    NoIvRoundTrip(c, data, key, iv, options.taglen);
  }

  /** A text that is no longer than the block size computed for it fits into the block. */
  lemma WithinBlockSizeFits(options: Options, blockSize: int, n: nat)
    ensures n <= PrivmxGetBlockSize(options, blockSize) ==> SealedLength(options, n) <= blockSize
    ensures options.hmac == NoHmac || options.taglen <= 32 ==>
              (SealedLength(options, n) <= blockSize <==> n <= PrivmxGetBlockSize(options, blockSize))
  {
    var size := blockSize - 1 - (if options.attachIv then 16 else 0) - (if options.hmac != NoHmac then options.taglen else 0);
    if size >= 0 {
      assert size == 16 * (size / 16) + size % 16 && n == 16 * (n / 16) + n % 16;
    }
  }

  /** A longer tag than there is makes the block size too small: one byte would fit, none is allowed for. */
  lemma LongTagTooSmall(options: Options)
    requires options.hmac != NoHmac && options.taglen > 32
    ensures var blockSize := if options.attachIv then 65 else 49;
            SealedLength(options, 1) <= blockSize && PrivmxGetBlockSize(options, blockSize) < 1
  {
  }

  /** The block size computed is the largest that fits, for every block, exactly for tags no longer than a digest. */
  lemma BlockSizeIsExact(options: Options)
    ensures (forall blockSize: int, n: nat :: SealedLength(options, n) <= blockSize <==> n <= PrivmxGetBlockSize(options, blockSize))
            <==> (options.hmac == NoHmac || options.taglen <= 32)
  {
    if options.hmac == NoHmac || options.taglen <= 32 {
      forall blockSize: int, n: nat
        ensures SealedLength(options, n) <= blockSize <==> n <= PrivmxGetBlockSize(options, blockSize)
      {
        WithinBlockSizeFits(options, blockSize, n);
      }
    } else {
      LongTagTooSmall(options);
    }
  }
}
