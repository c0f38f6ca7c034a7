/** Ciphers with a tag: AES-256-CBC with HMAC-SHA-256, and the one-byte cipher types in front of cipher texts. */
module CryptoEnvelope {
  import opened ByteStrings
  import opened Results
  import opened CbcCipher
  import opened ChunkEncryption

  datatype EnvelopeError =
    | WrongMessageSecurityTag
    | TooShort
    | InvalidKeyLength
    | MissingIv
    | NotImplemented
    | UnknownDecryptionType
    | CipherFailure(cause: CipherError)

  const AES_256_CBC_PKCS7_NO_IV: bv8 := 1
  const AES_256_CBC_PKCS7_WITH_IV: bv8 := 2
  const XTEA_ECB_PKCS7: bv8 := 3
  const AES_256_CBC_PKCS7_WITH_IV_AND_HMAC_SHA256: bv8 := 4

  // ---- Keys ----

  /** What goes into every block of the key stream: what the key is for, a zero, and the length as four bytes. */
  function Seed(purpose: Bytes, length: nat): Bytes {
    purpose + [0] + IndexToBE(length)
  }

  /** Block `i` of the key stream, with the one before. */
  function KeyBlock(c: CryptoService, key: Bytes, before: Bytes, i: nat, seed: Bytes): (r: Bytes)
    requires c.Lawful()
    ensures |r| == 32
  {
    c.hmacSha256(key, before + IndexToBE(i) + seed)
  }

  /** Blocks `i`.. of the key stream, until `need` bytes are there; each block goes into the next one. */
  function KeyStream(c: CryptoService, key: Bytes, k: Bytes, i: nat, seed: Bytes, need: int): (r: Bytes)
    requires c.Lawful()
    ensures |r| >= need
    decreases need
  {
    if need <= 0 then []
    else
      var block := KeyBlock(c, key, k, i, seed);
      block + KeyStream(c, key, block, i + 1, seed, need - 32)
  }

  /** Every block of the stream is made from the block before it and its own number. */
  lemma {:induction false} KeyStreamChained(c: CryptoService, key: Bytes, k: Bytes, i: nat, seed: Bytes, need: int, j: nat)
    requires c.Lawful() && Start(j, 32) < need
    ensures var stream := KeyStream(c, key, k, i, seed, need);
            Slice(stream, 32, j) == KeyBlock(c, key, if j == 0 then k else Slice(stream, 32, j - 1), i + j, seed)
    decreases j
  {
    var block := KeyBlock(c, key, k, i, seed);
    var stream, rest := KeyStream(c, key, k, i, seed, need), KeyStream(c, key, block, i + 1, seed, need - 32);
    if j > 0 {
      KeyStreamChained(c, key, block, i + 1, seed, need - 32, j - 1);
      SliceAfterFirst(block, rest, j);
      if j > 1 { SliceAfterFirst(block, rest, j - 1); }
    }
  }

  lemma SliceAfterFirst(block: Bytes, rest: Bytes, j: nat)
    requires |block| == 32 && j > 0
    ensures Slice(block + rest, 32, j) == Slice(rest, 32, j - 1)
    ensures Slice(block + rest, 32, 0) == block
  {
    AfterFirst(block, rest, 0, Start(j - 1, 32));
  }

  lemma AfterFirst(block: Bytes, rest: Bytes, zero: nat, at: nat)
    requires |block| == 32 && zero == 0
    ensures Window(block + rest, at + 32, at + 64) == Window(rest, at, at + 32)
    ensures Window(block + rest, zero, 32) == block
  {
    assert (block + rest)[..32] == block;
  }

  method Kdf(c: CryptoService, length: nat, key: Bytes, purpose: Bytes) returns (r: Bytes)
    requires c.Lawful()
    ensures r == KeyStream(c, key, [], 1, Seed(purpose, length), length)[..length]
  {
    var seed := Seed(purpose, length);
    var k: Bytes, i: nat, result: Bytes := [], 1, [];
    while |result| < length
      invariant result + KeyStream(c, key, k, i, seed, length - |result|) == KeyStream(c, key, [], 1, seed, length)
      decreases length - |result|
    {
      ghost var before, rest := result, KeyStream(c, key, k, i, seed, length - |result|);
      k := KeyBlock(c, key, k, i, seed);
      i, result := i + 1, result + k;
      assert rest == k + KeyStream(c, key, k, i, seed, length - |result|);
      assert before + (k + KeyStream(c, key, k, i, seed, length - |result|)) == result + KeyStream(c, key, k, i, seed, length - |result|);
    }
    var whole := result;
    r := whole[..length];
  }

  /** "key expansion" */
  const KEY_EXPANSION: Bytes := [107, 101, 121, 32, 101, 120, 112, 97, 110, 115, 105, 111, 110]

  /** The key for encryption and the key for the tag. */
  function GetKem(c: CryptoService, key: Bytes): (r: (Bytes, Bytes))
    requires c.Lawful()
    ensures |r.0| == 32 && |r.1| == 32
  {
    var kem := KeyStream(c, key, [], 1, Seed(KEY_EXPANSION, 64), 64)[..64];
    (kem[..32], kem[32..])
  }

  // ---- AES-256-CBC with HMAC-SHA-256 ----

  /** `substr` from the front. */
  function Front(s: Bytes, n: nat): Bytes {
    s[..Min(n, |s|)]
  }

  function Pkcs7Encrypt(c: CryptoService, data: Bytes, key: Bytes, iv: Bytes): Result<Bytes, EnvelopeError>
    requires c.Lawful()
  {
    if |iv| != BLOCK then Err(CipherFailure(BadIv)) else Ok(Aes256CbcPkcs7Encrypt(c, data, key, iv))
  }

  function Pkcs7Decrypt(c: CryptoService, data: Bytes, key: Bytes, iv: Bytes): Result<Bytes, EnvelopeError>
    requires c.Lawful()
  {
    match Aes256CbcPkcs7Decrypt(c, data, key, iv)
    case Ok(plain) => Ok(plain)
    case Err(e) => Err(CipherFailure(e))
  }

  /** The initialization vector in use: derived from the data if none is given. */
  function IvFor(c: CryptoService, data: Bytes, key: Bytes, iv: Bytes): Bytes {
    Front(if iv == [] then c.hmacSha256(key, data) else iv, BLOCK)
  }

  /** Sixteen zero bytes go before the data. */
  function Aes256CbcHmac256Encrypt(c: CryptoService, data: Bytes, key: Bytes, iv: Bytes, taglen: nat): Result<Bytes, EnvelopeError>
    requires c.Lawful()
  {
    var (kE, kM) := GetKem(c, key);
    match Pkcs7Encrypt(c, Zeros(BLOCK) + data, kE, IvFor(c, data, key, iv))
    case Err(e) => Err(e)
    case Ok(cipher) => Ok(cipher + Front(c.hmacSha256(kM, cipher), taglen))
  }

  /** The first cipher block is taken for the initialization vector of the rest. */
  function Aes256CbcHmac256Decrypt(c: CryptoService, data: Bytes, key: Bytes, taglen: nat): Result<Bytes, EnvelopeError>
    requires c.Lawful()
  {
    if |data| < taglen then Err(TooShort)
    else
      var (kE, kM) := GetKem(c, key);
      var tag, cipher := data[|data| - taglen..], data[..|data| - taglen];
      if tag != Front(c.hmacSha256(kM, cipher), taglen) then Err(WrongMessageSecurityTag)
      else if |cipher| < BLOCK then Err(TooShort)
      else Pkcs7Decrypt(c, cipher[BLOCK..], kE, cipher[..BLOCK])
  }

  /** Whatever is encrypted after one block is encrypted with that block's cipher text for its vector. */
  lemma FirstBlockIsIv(c: CryptoService, first: Bytes, data: Bytes, key: Bytes, iv: Bytes)
    requires c.Lawful() && |first| == BLOCK && |iv| == BLOCK
    ensures var cipher := Aes256CbcPkcs7Encrypt(c, first + data, key, iv);
            |cipher| >= BLOCK && cipher[BLOCK..] == Aes256CbcPkcs7Encrypt(c, data, key, cipher[..BLOCK])
  {
    PadAfterBlock(first, data);
    CbcAfterBlock(c, first, Pad(data), key, iv);
  }

  lemma PadAfterBlock(first: Bytes, data: Bytes)
    requires |first| == BLOCK
    ensures Pad(first + data) == first + Pad(data)
  {
    assert |first + data| % BLOCK == |data| % BLOCK;
  }

  lemma CbcAfterBlock(c: CryptoService, first: Bytes, rest: Bytes, key: Bytes, iv: Bytes)
    requires c.Lawful() && |first| == BLOCK && |iv| == BLOCK && |rest| % BLOCK == 0
    ensures var cipher := CbcEncrypt(c, first + rest, key, iv);
            |cipher| >= BLOCK && cipher[BLOCK..] == CbcEncrypt(c, rest, key, cipher[..BLOCK])
  {
    var all := first + rest;
    assert all[..BLOCK] == first && all[BLOCK..] == rest;
    var block := c.encryptBlock(key, Xor(first, iv));
    var cipher := CbcEncrypt(c, all, key, iv);
    assert cipher == block + CbcEncrypt(c, rest, key, block);
    assert cipher[..BLOCK] == block;
  }

  /** Decryption undoes encryption exactly when the tag is no longer than the digest it is cut from. A vector,
      if given, must fill a block. */
  lemma EnvelopeRoundTrip(c: CryptoService, data: Bytes, key: Bytes, iv: Bytes, taglen: nat)
    requires c.Lawful() && (iv == [] || |iv| >= BLOCK)
    ensures var encrypted := Aes256CbcHmac256Encrypt(c, data, key, iv, taglen);
            && encrypted.Ok?
            && (Aes256CbcHmac256Decrypt(c, encrypted.value, key, taglen) == Ok(data) <==> taglen <= 32)
            && |encrypted.value| == BLOCK + PaddedLength(|data|) + Min(taglen, 32)
  {
    var (kE, kM) := GetKem(c, key);
    var iv' := IvFor(c, data, key, iv);
    var cipher := Aes256CbcPkcs7Encrypt(c, Zeros(BLOCK) + data, kE, iv');
    var tag := Front(c.hmacSha256(kM, cipher), taglen);
    var all := cipher + tag;
    FirstBlockIsIv(c, Zeros(BLOCK), data, kE, iv');
    if taglen <= 32 {
      assert all[|all| - taglen..] == tag && all[..|all| - taglen] == cipher;
      Aes256CbcPkcs7RoundTrip(c, data, kE, cipher[..BLOCK]);
    } else if |all| >= taglen {
      TagTooShort(c, all, key, taglen);
    }
  }

  lemma TagTooShort(c: CryptoService, data: Bytes, key: Bytes, taglen: nat)
    requires c.Lawful() && 32 < taglen <= |data|
    ensures Aes256CbcHmac256Decrypt(c, data, key, taglen) == Err(WrongMessageSecurityTag)
  {
    var (kE, kM) := GetKem(c, key);
    assert |Front(c.hmacSha256(kM, data[..|data| - taglen]), taglen)| == 32;
  }

  /** An encrypted text with any other tag of the same length in place of its own is refused. */
  lemma ChangedTagRefused(c: CryptoService, data: Bytes, key: Bytes, iv: Bytes, taglen: nat, tag: Bytes)
    requires c.Lawful() && (iv == [] || |iv| >= BLOCK) && |tag| == taglen <= 32
    ensures var encrypted := Aes256CbcHmac256Encrypt(c, data, key, iv, taglen).value;
            && taglen <= |encrypted|
            && Aes256CbcHmac256Decrypt(c, encrypted[..|encrypted| - taglen] + tag, key, taglen)
               == if tag == encrypted[|encrypted| - taglen..] then Ok(data) else Err(WrongMessageSecurityTag)
  {
    EnvelopeRoundTrip(c, data, key, iv, taglen);
    var encrypted := Aes256CbcHmac256Encrypt(c, data, key, iv, taglen).value;
    var cipher, own := encrypted[..|encrypted| - taglen], encrypted[|encrypted| - taglen..];
    assert cipher + own == encrypted;
    assert (cipher + tag)[..|cipher|] == cipher && (cipher + tag)[|cipher|..] == tag;
  }

  // ---- Cipher types ----

  function CtNoIv(c: CryptoService, data: Bytes, key: Bytes, iv: Bytes): Result<Bytes, EnvelopeError>
    requires c.Lawful()
  {
    match Pkcs7Encrypt(c, data, key, iv)
    case Ok(cipher) => Ok([AES_256_CBC_PKCS7_NO_IV] + cipher)
    case Err(e) => Err(e)
  }

  function CtWithIv(c: CryptoService, data: Bytes, key: Bytes, iv: Bytes): Result<Bytes, EnvelopeError>
    requires c.Lawful()
  {
    match Pkcs7Encrypt(c, data, key, iv)
    case Ok(cipher) => Ok([AES_256_CBC_PKCS7_WITH_IV] + iv + cipher)
    case Err(e) => Err(e)
  }

  function CtWithIvAndHmac(c: CryptoService, data: Bytes, key: Bytes, iv: Bytes, taglen: nat): Result<Bytes, EnvelopeError>
    requires c.Lawful()
  {
    match Aes256CbcHmac256Encrypt(c, data, key, iv, taglen)
    case Ok(cipher) => Ok([AES_256_CBC_PKCS7_WITH_IV_AND_HMAC_SHA256] + cipher)
    case Err(e) => Err(e)
  }

  function CtDecrypt(c: CryptoService, data: Bytes, key: Bytes, iv: Bytes, taglen: nat): Result<Bytes, EnvelopeError>
    requires c.Lawful()
  {
    if |key| != 32 then Err(InvalidKeyLength)
    else if data == [] then Err(UnknownDecryptionType)
    else if data[0] == AES_256_CBC_PKCS7_NO_IV then
      if iv == [] then Err(MissingIv) else Pkcs7Decrypt(c, data[1..], key, iv)
    else if data[0] == AES_256_CBC_PKCS7_WITH_IV then
      if |data| < 17 then Err(TooShort) else Pkcs7Decrypt(c, data[17..], key, data[1..17])
    else if data[0] == XTEA_ECB_PKCS7 then Err(NotImplemented)
    else if data[0] == AES_256_CBC_PKCS7_WITH_IV_AND_HMAC_SHA256 then Aes256CbcHmac256Decrypt(c, data[1..], key, taglen)
    else Err(UnknownDecryptionType)
  }

  lemma NoIvRoundTrip(c: CryptoService, data: Bytes, key: Bytes, iv: Bytes, taglen: nat)
    requires c.Lawful() && |key| == 32 && |iv| == BLOCK
    ensures var encrypted := CtNoIv(c, data, key, iv);
            && encrypted.Ok? && |encrypted.value| == 1 + PaddedLength(|data|)
            && CtDecrypt(c, encrypted.value, key, iv, taglen) == Ok(data)
            && CtDecrypt(c, encrypted.value, key, [], taglen) == Err(MissingIv)
  {
    var cipher := Aes256CbcPkcs7Encrypt(c, data, key, iv);
    assert ([AES_256_CBC_PKCS7_NO_IV] + cipher)[1..] == cipher;
    Aes256CbcPkcs7RoundTrip(c, data, key, iv);
  }

  lemma WithIvRoundTrip(c: CryptoService, data: Bytes, key: Bytes, iv: Bytes, other: Bytes, taglen: nat)
    requires c.Lawful() && |key| == 32 && |iv| == BLOCK
    ensures var encrypted := CtWithIv(c, data, key, iv);
            && encrypted.Ok? && |encrypted.value| == 17 + PaddedLength(|data|)
            && CtDecrypt(c, encrypted.value, key, other, taglen) == Ok(data)
  {
    var cipher := Aes256CbcPkcs7Encrypt(c, data, key, iv);
    var all := [AES_256_CBC_PKCS7_WITH_IV] + iv + cipher;
    assert all[1..17] == iv && all[17..] == cipher;
    Aes256CbcPkcs7RoundTrip(c, data, key, iv);
  }

  lemma HmacRoundTrip(c: CryptoService, data: Bytes, key: Bytes, iv: Bytes, other: Bytes, taglen: nat)
    requires c.Lawful() && |key| == 32 && (iv == [] || |iv| >= BLOCK)
    ensures var encrypted := CtWithIvAndHmac(c, data, key, iv, taglen);
            && encrypted.Ok? && |encrypted.value| == 17 + PaddedLength(|data|) + Min(taglen, 32)
            && (CtDecrypt(c, encrypted.value, key, other, taglen) == Ok(data) <==> taglen <= 32)
  {
    EnvelopeRoundTrip(c, data, key, iv, taglen);
    var cipher := Aes256CbcHmac256Encrypt(c, data, key, iv, taglen).value;
    assert ([AES_256_CBC_PKCS7_WITH_IV_AND_HMAC_SHA256] + cipher)[1..] == cipher;
  }
}
