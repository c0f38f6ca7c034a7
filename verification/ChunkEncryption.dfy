/** The chunk encryptor of the Store: a file is cut into chunks of `chunkSize` bytes, and each is
    encrypted under its own key to HMAC + IV + padded cipher text. */
module ChunkEncryption {
  import opened ByteStrings
  import opened Results
  import opened CbcCipher

  const IV_SIZE := 16
  const HMAC_SIZE := 32
  const CHUNK_PADDING := 16

  datatype ChunkError = InvalidChecksum | InvalidCipherChecksum | OutOfRange | Cipher(cause: CipherError)

  datatype Chunk = Chunk(data: Bytes, hmac: Bytes)

  /** The chunk number as four bytes, most significant first; the source casts it to 32 bits. */
  function IndexToBE(index: nat): (r: Bytes)
    ensures |r| == 4
  {
    seq(4, i requires 0 <= i < 4 => (index / [0x100_0000, 0x1_0000, 0x100, 1][i] % 256) as bv8)
  }

  /** Encrypted length of a chunk of `n` plain bytes. */
  function EncryptedLength(n: nat): nat {
    n + (CHUNK_PADDING - n % CHUNK_PADDING) + HMAC_SIZE + IV_SIZE
  }

  datatype ChunkEncryptor = ChunkEncryptor(crypto: CryptoService, key: Bytes, chunkSize: nat) {
    ghost predicate Valid() {
      crypto.Lawful() && chunkSize > 0
    }

    function ChunkKey(index: nat): Bytes {
      crypto.sha256(key + IndexToBE(index))
    }

    function Encrypt(index: nat, data: Bytes, iv: Bytes): (r: Chunk)
      requires Valid() && |iv| == IV_SIZE
      ensures |r.hmac| == HMAC_SIZE && |r.data| == EncryptedLength(|data|)
    {
      var ivWithCipher := iv + Aes256CbcPkcs7Encrypt(crypto, data, ChunkKey(index), iv);
      var hmac := crypto.hmacSha256(ChunkKey(index), ivWithCipher);
      Chunk(hmac + ivWithCipher, hmac)
    }

    function Decrypt(index: nat, chunk: Chunk): Result<Bytes, ChunkError>
      requires Valid()
    {
      var hmac := chunk.data[..Min(HMAC_SIZE, |chunk.data|)];
      if chunk.hmac != hmac then Err(InvalidChecksum)
      else if |chunk.data| < HMAC_SIZE then Err(OutOfRange)
      else if hmac != crypto.hmacSha256(ChunkKey(index), chunk.data[HMAC_SIZE..]) then Err(InvalidCipherChecksum)
      else if |chunk.data| < HMAC_SIZE + IV_SIZE then Err(OutOfRange)
      else
        var iv := chunk.data[HMAC_SIZE..HMAC_SIZE + IV_SIZE];
        match Aes256CbcPkcs7Decrypt(crypto, chunk.data[HMAC_SIZE + IV_SIZE..], ChunkKey(index), iv)
        case Ok(plain) => Ok(plain)
        case Err(e) => Err(Cipher(e))
    }

    function EncryptedChunkSize(): nat {
      EncryptedLength(chunkSize)
    }

    /** The encrypted size that a file of `fileSize` plain bytes is expected to have. */
    function EncryptedFileSize(fileSize: nat): nat
      requires chunkSize > 0
    {
      if fileSize == 0 then 0
      else
        var parts := PieceOf(fileSize + chunkSize - 1, chunkSize);
        var lastChunkSize := if PosInPiece(fileSize, chunkSize) == 0 then chunkSize else PosInPiece(fileSize, chunkSize);
        var fullChunkPadding := CHUNK_PADDING - chunkSize % CHUNK_PADDING;
        var lastChunkPadding := CHUNK_PADDING - lastChunkSize % CHUNK_PADDING;
        Start(parts - 1, chunkSize + HMAC_SIZE + IV_SIZE + fullChunkPadding)
        + lastChunkSize + HMAC_SIZE + IV_SIZE + lastChunkPadding
    }

    /** The size is that of `before` full encrypted chunks and one last non-empty chunk. */
    lemma EncryptedFileSizeIs(fileSize: nat, before: nat)
      requires Valid()
      requires Start(before, chunkSize) < fileSize <= Start(before, chunkSize) + chunkSize
      ensures EncryptedFileSize(fileSize) ==
              Start(before, EncryptedChunkSize()) + EncryptedLength(fileSize - Start(before, chunkSize))
    {
      LastChunkIs(fileSize, chunkSize, before);
    }

    /** Chunk decryption undoes chunk encryption. */
    lemma RoundTrip(index: nat, data: Bytes, iv: Bytes)
      requires Valid() && |iv| == IV_SIZE
      ensures Decrypt(index, Encrypt(index, data, iv)) == Ok(data)
    {
      var chunk := Encrypt(index, data, iv);
      var cipher := Aes256CbcPkcs7Encrypt(crypto, data, ChunkKey(index), iv);
      assert chunk.data[..HMAC_SIZE] == chunk.hmac;
      assert chunk.data[HMAC_SIZE..] == iv + cipher;
      assert chunk.data[HMAC_SIZE..HMAC_SIZE + IV_SIZE] == iv;
      assert chunk.data[HMAC_SIZE + IV_SIZE..] == cipher;
      Aes256CbcPkcs7RoundTrip(crypto, data, ChunkKey(index), iv);
    }
  }

  /** The rounded-up quotient, and the remainder with `size` in place of zero, as the source computes them. */
  lemma LastChunkIs(fileSize: nat, size: nat, before: nat)
    requires size > 0 && Start(before, size) < fileSize <= Start(before, size) + size
    ensures PieceOf(fileSize + size - 1, size) == before + 1
    ensures (if PosInPiece(fileSize, size) == 0 then size else PosInPiece(fileSize, size)) == fileSize - Start(before, size)
  {
    PieceUnique(fileSize + size - 1, size, before + 1);
    if fileSize == Start(before, size) + size {
      PieceUnique(fileSize, size, before + 1);
    } else {
      PieceUnique(fileSize, size, before);
    }
  }

  /** A draw of random bytes: callers rely on the length only. */
  method RandomBytes(length: nat) returns (r: Bytes)
    ensures |r| == length
  {
    var witnessed := Zeros(length);
    r :| |r| == length;
  }
}
