/** AES-256-CBC with PKCS#7 padding, over an arbitrary invertible block cipher:
    CBC mode as in section 6.2 of NIST SP 800-38A, padding as in section 6.3 of RFC 5652. */
module CbcCipher {
  import opened ByteStrings
  import opened Results

  const BLOCK := 16

  datatype CipherError = BadLength | BadPadding | BadIv

  /** The primitives that the library below this repository provides. */
  datatype CryptoService = CryptoService(
    sha256: Bytes -> Bytes,
    hmacSha256: (Bytes, Bytes) -> Bytes,
    encryptBlock: (Bytes, Bytes) -> Bytes,
    decryptBlock: (Bytes, Bytes) -> Bytes)
  {
    /** What is relied on: digests are 32 bytes, and block encryption under a key is invertible. */
    ghost predicate Lawful() {
      && (forall data :: |sha256(data)| == 32)
      && (forall key, data :: |hmacSha256(key, data)| == 32)
      && (forall key, block :: |block| == BLOCK ==> |encryptBlock(key, block)| == BLOCK)
      && (forall key, block :: |block| == BLOCK ==> |decryptBlock(key, block)| == BLOCK)
      && (forall key, block :: |block| == BLOCK ==> decryptBlock(key, encryptBlock(key, block)) == block)
    }
  }

  function Xor(a: Bytes, b: Bytes): (r: Bytes)
    requires |a| == |b|
    ensures |r| == |a|
  {
    seq(|a|, i requires 0 <= i < |a| => a[i] ^ b[i])
  }

  lemma XorTwice(a: Bytes, b: Bytes)
    requires |a| == |b|
    ensures Xor(Xor(a, b), b) == a
  {
    forall i | 0 <= i < |a| ensures Xor(Xor(a, b), b)[i] == a[i] {
      XorByteTwice(a[i], b[i]);
    }
  }

  lemma XorByteTwice(x: bv8, y: bv8)
    ensures (x ^ y) ^ y == x
  {
  }

  // ---- CBC mode on whole blocks ----

  function CbcEncrypt(c: CryptoService, data: Bytes, key: Bytes, iv: Bytes): (r: Bytes)
    requires c.Lawful() && |data| % BLOCK == 0 && |iv| == BLOCK
    ensures |r| == |data|
  {
    if data == [] then []
    else
      var block := c.encryptBlock(key, Xor(data[..BLOCK], iv));
      block + CbcEncrypt(c, data[BLOCK..], key, block)
  }

  function CbcDecrypt(c: CryptoService, cipher: Bytes, key: Bytes, iv: Bytes): (r: Bytes)
    requires c.Lawful() && |cipher| % BLOCK == 0 && |iv| == BLOCK
    ensures |r| == |cipher|
  {
    if cipher == [] then []
    else
      Xor(c.decryptBlock(key, cipher[..BLOCK]), iv) + CbcDecrypt(c, cipher[BLOCK..], key, cipher[..BLOCK])
  }

  lemma {:induction false} CbcRoundTrip(c: CryptoService, data: Bytes, key: Bytes, iv: Bytes)
    requires c.Lawful() && |data| % BLOCK == 0 && |iv| == BLOCK
    ensures CbcDecrypt(c, CbcEncrypt(c, data, key, iv), key, iv) == data
  {
    if data != [] {
      var block := c.encryptBlock(key, Xor(data[..BLOCK], iv));
      var rest := CbcEncrypt(c, data[BLOCK..], key, block);
      assert (block + rest)[..BLOCK] == block && (block + rest)[BLOCK..] == rest;
      CbcRoundTrip(c, data[BLOCK..], key, block);
      XorTwice(data[..BLOCK], iv);
      assert data == data[..BLOCK] + data[BLOCK..];
    }
  }

  // ---- Padding ----

  /** Length of the padded text: always at least one byte of padding. */
  function PaddedLength(n: nat): (r: nat)
    ensures r % BLOCK == 0 && n < r <= n + BLOCK
  {
    n + BLOCK - n % BLOCK
  }

  function Pad(data: Bytes): (r: Bytes)
    ensures |r| == PaddedLength(|data|)
  {
    var n := BLOCK - |data| % BLOCK;
    data + seq(n, _ => n as bv8)
  }

  function Unpad(padded: Bytes): Result<Bytes, CipherError> {
    if padded == [] || |padded| % BLOCK != 0 then Err(BadLength)
    else
      var n := padded[|padded| - 1] as int;
      if n < 1 || n > BLOCK then Err(BadPadding)
      else if exists i | |padded| - n <= i < |padded| :: padded[i] != padded[|padded| - 1] then Err(BadPadding)
      else Ok(padded[..|padded| - n])
  }

  lemma PadRoundTrip(data: Bytes)
    ensures Unpad(Pad(data)) == Ok(data)
  {
    var n := BLOCK - |data| % BLOCK;
    var p := Pad(data);
    assert p[|p| - 1] == n as bv8;
    assert (n as bv8) as int == n;
    assert p[..|p| - n] == data;
  }

  function Aes256CbcPkcs7Encrypt(c: CryptoService, data: Bytes, key: Bytes, iv: Bytes): (r: Bytes)
    requires c.Lawful() && |iv| == BLOCK
    ensures |r| == PaddedLength(|data|)
  {
    CbcEncrypt(c, Pad(data), key, iv)
  }

  function Aes256CbcPkcs7Decrypt(c: CryptoService, cipher: Bytes, key: Bytes, iv: Bytes): Result<Bytes, CipherError>
    requires c.Lawful()
  {
    if |iv| != BLOCK then Err(BadIv)
    else if |cipher| % BLOCK != 0 then Err(BadLength)
    else Unpad(CbcDecrypt(c, cipher, key, iv))
  }

  /** Decryption undoes encryption, for every text, key and 16-byte initialization vector. */
  lemma Aes256CbcPkcs7RoundTrip(c: CryptoService, data: Bytes, key: Bytes, iv: Bytes)
    requires c.Lawful() && |iv| == BLOCK
    ensures Aes256CbcPkcs7Decrypt(c, Aes256CbcPkcs7Encrypt(c, data, key, iv), key, iv) == Ok(data)
  {
    CbcRoundTrip(c, Pad(data), key, iv);
    PadRoundTrip(data);
  }
}
