/** A file that is uploaded anew under the same id gets a new key. A handle that is open meanwhile moves to the new
    file, but goes on encrypting chunks under the old key: what becomes of them. */
module KeyChange {
  import opened ByteStrings
  import opened Results
  import opened CbcCipher
  import opened ChunkEncryption
  import opened EncryptedFiles
  import opened StoreServer
  import opened ChunkReader
  import opened ServerRequests
  import opened FileHandler

  /** A chunk encrypted under one key and number is refused under another, exactly if the two chunk keys give it
      different digests. */
  lemma RefusedElsewhere(ce: ChunkEncryptor, index: nat, other: ChunkEncryptor, place: nat, data: Bytes, iv: Bytes)
    requires ce.Valid() && other.Valid() && other.crypto == ce.crypto && |iv| == IV_SIZE
    ensures var chunk := ce.Encrypt(index, data, iv);
            var sealed := chunk.data[HMAC_SIZE..];
            other.Decrypt(place, chunk) == Err(InvalidCipherChecksum) <==>
              ce.crypto.hmacSha256(other.ChunkKey(place), sealed) != ce.crypto.hmacSha256(ce.ChunkKey(index), sealed)
  {
    var chunk := ce.Encrypt(index, data, iv);
    var sealed := iv + Aes256CbcPkcs7Encrypt(ce.crypto, data, ce.ChunkKey(index), iv);
    assert chunk.data[..HMAC_SIZE] == chunk.hmac && chunk.data[HMAC_SIZE..] == sealed;
  }

  /** The server's file with one more chunk at its end. */
  function Appended(s: Snapshot, chunk: Chunk, meta: FileMeta): Snapshot {
    Snapshot(s.file + chunk.data, s.checksums + chunk.hmac, meta)
  }

  /** What follows whole chunks and their checksums is the next chunk. */
  lemma NextChunkIs(size: nat, file: Bytes, hashes: Bytes, chunks: nat, chunk: Chunk)
    requires |file| == Start(chunks, size) && |hashes| == Start(chunks, HMAC_SIZE)
    requires |chunk.data| <= size && |chunk.hmac| == HMAC_SIZE
    ensures ChunkAt(size, file + chunk.data, hashes + chunk.hmac, chunks) == chunk
  {
    assert Slice(file + chunk.data, size, chunks) == chunk.data;
    assert Slice(hashes + chunk.hmac, HMAC_SIZE, chunks) == chunk.hmac;
  }

  /** A file of whole chunks to which a chunk is appended holds plain text only if that chunk opens. */
  lemma AppendedOpens(owner: ChunkEncryptor, s: Snapshot, plain: Bytes, chunks: nat, chunk: Chunk, q: Bytes, m: nat)
    requires owner.Valid() && |plain| == Start(chunks, owner.chunkSize)
    requires Holds(CodecOf(owner), s.file, s.checksums, plain, chunks)
    requires |chunk.hmac| == HMAC_SIZE && |chunk.data| <= owner.EncryptedChunkSize()
    requires Holds(CodecOf(owner), s.file + chunk.data, s.checksums + chunk.hmac, q, m)
    ensures owner.Decrypt(chunks, chunk).Ok?
  {
    var c, file, hashes := CodecOf(owner), s.file + chunk.data, s.checksums + chunk.hmac;
    Unfold(c, s.file, s.checksums, plain, chunks);
    Unfold(c, file, hashes, q, m);
    HashesDetermine(m, chunks + 1);
    ContentsAt(c, file, hashes, q, m, chunks);
    NextChunkIs(c.full(), s.file, s.checksums, chunks, chunk);
    CodecOpens(owner, chunks, chunk, Slice(q, c.size, chunks));
  }

  /** Such a file has lost its contents if the chunk does not open under its key. */
  lemma AppendedUnreadable(crypto: CryptoService, s: Snapshot, plain: Bytes, chunks: nat, chunk: Chunk, meta: FileMeta)
    requires Described(EncryptorOf(crypto, s.meta), s, plain, chunks) && |plain| == Start(chunks, s.meta.chunkSize)
    requires meta.key == s.meta.key && meta.chunkSize == s.meta.chunkSize
    requires |chunk.hmac| == HMAC_SIZE && |chunk.data| <= EncryptorOf(crypto, meta).EncryptedChunkSize()
    requires EncryptorOf(crypto, meta).Decrypt(chunks, chunk).Err?
    ensures forall q, m :: !Described(EncryptorOf(crypto, meta), Appended(s, chunk, meta), q, m)
  {
    var owner, after := EncryptorOf(crypto, meta), Appended(s, chunk, meta);
    forall q, m ensures !Described(owner, after, q, m) {
      if Holds(CodecOf(owner), after.file, after.checksums, q, m) {
        AppendedOpens(owner, s, plain, chunks, chunk, q, m);
      }
    }
  }

  /** An emptied file holds no bytes under any key. */
  lemma EmptyDescribed(ce: ChunkEncryptor, s: Snapshot)
    requires ce.Valid() && s.file == [] && s.checksums == [] && MetaFits(ce.crypto, s.meta, [], 0)
    ensures Described(ce, s, [], 0)
  {
    Unfold(CodecOf(ce), [], [], [], 0);
  }

  /** The only chunk of a file, and what follows if another encryptor does not open it. */
  lemma OneChunk(ce: ChunkEncryptor, owner: ChunkEncryptor, s: Snapshot, data: Bytes)
    requires ce.Valid() && owner.Valid() && owner.chunkSize == ce.chunkSize && |data| <= ce.chunkSize
    requires Holds(CodecOf(ce), s.file, s.checksums, data, 1)
    ensures owner.Decrypt(0, Chunk(s.file, s.checksums)).Err? ==> forall q, m :: !Described(owner, s, q, m)
  {
    Unfold(CodecOf(ce), s.file, s.checksums, data, 1);
    LengthGrows(CodecOf(ce), |data|, ce.chunkSize);
    var none := Snapshot([], [], s.meta);
    Unfold(CodecOf(owner), [], [], [], 0);
    assert [] + s.file == s.file && [] + s.checksums == s.checksums;
    forall q, m ensures owner.Decrypt(0, Chunk(s.file, s.checksums)).Err? ==> !Described(owner, s, q, m) {
      if Holds(CodecOf(owner), s.file, s.checksums, q, m) {
        AppendedOpens(owner, none, [], 0, Chunk(s.file, s.checksums), q, m);
      }
    }
  }

  /** A handle syncs to a file that has been emptied, possibly under another key, and writes one chunk. Nothing but a
      request fails, and the handle itself goes on as if all was well: it reads what it has written. But unless
      the chunk opens under the file's key, the server is left with a file that nobody else can read. */
  method SyncAndWrite(handler: Handler, meta: FileMeta, data: Bytes) returns (r: Result<(), FileError>)
    requires handler.Valid() && handler.server.current == Snapshot([], [], meta)
    requires MetaFits(handler.chunkEncryptor.crypto, meta, [], 0) && meta.chunkSize == handler.chunkEncryptor.chunkSize
    requires 0 < |data| <= meta.chunkSize
    modifies handler, handler.server, handler.chunkDataProvider, handler.hashList
    modifies handler.chunkReader`version, handler.chunkReader`lastChunk
    ensures r.Err? ==> RequestFailure(r.error)
    ensures r.Ok? ==>
              && handler.Valid() && handler.plain == data
              && (handler.Owner() <==> meta.key == handler.chunkEncryptor.key)
              && var s, owner := handler.server.current, EncryptorOf(handler.chunkEncryptor.crypto, meta);
                 && s.meta.key == meta.key && s.meta.chunkSize == meta.chunkSize
                 && MetaFits(owner.crypto, s.meta, s.checksums, |data|)
                 && (owner.Decrypt(0, Chunk(s.file, s.checksums)).Err? ==> forall q, m :: !Described(owner, s, q, m))
  {
    var ce, server := handler.chunkEncryptor, handler.server;
    EmptyDescribed(ce, server.current);
    var params := GetFileDecryptionParams(meta, 0, server.version);
    r := handler.Sync(meta, params, [], 0);
    if r.Err? {
      return;
    }
    PieceUnique(|data| - 1, ce.chunkSize, 0);
    r := handler.Write(0, data, true);
    if r.Ok? {
      assert handler.plain == data;
      OneChunk(ce, EncryptorOf(ce.crypto, meta), server.current, data);
    }
  }

  // ---- An instance ----

  /** The metadata of a file of `size` bytes that is kept under this encryptor. */
  function MetaOf(ce: ChunkEncryptor, checksums: Bytes, size: nat): FileMeta {
    FileMeta(ce.crypto.hmacSha256(ce.key, checksums), size, ce.key, ce.chunkSize)
  }

  function Fit(s: Bytes): (r: Bytes)
    ensures |r| == 32
  {
    s[..Min(|s|, 32)] + Zeros(32 - Min(|s|, 32))
  }

  /** Digests that tell keys apart, and a block cipher that does nothing: enough for the laws. */
  function PlainService(): CryptoService {
    CryptoService(data => Fit(data), (key, data) => Fit(key), (key, block) => block, (key, block) => block)
  }

  const OLD_KEY: Bytes := seq(32, _ => 1)
  const NEW_KEY: Bytes := seq(32, _ => 2)

  /** A file has been replaced by an empty one under a new key. A handle that was open under the old key syncs to
      it, and appends a chunk. Everyone can open the file, for checksums and sizes fit; nobody can read it. */
  lemma KeyChangeExample(data: Bytes, iv: Bytes)
    requires 0 < |data| <= 0x2_0000 && |iv| == IV_SIZE
    ensures var crypto := PlainService();
            var stale, owner := ChunkEncryptor(crypto, OLD_KEY, 0x2_0000), ChunkEncryptor(crypto, NEW_KEY, 0x2_0000);
            && stale.Valid() && owner.Valid()
            && var emptied := Snapshot([], [], MetaOf(owner, [], 0));
               var chunk := stale.Encrypt(0, data, iv);
               var after := Appended(emptied, chunk, MetaOf(owner, chunk.hmac, |data|));
               && Described(owner, emptied, [], 0)
               && owner.Decrypt(0, chunk) == Err(InvalidCipherChecksum)
               && Matches(crypto, NEW_KEY, after.meta.hmac, after.checksums)
               && SizesAgree(owner, GetFileDecryptionParams(after.meta, |after.file|, 1))
               && forall q, m :: !Described(owner, after, q, m)
  {
    var crypto := PlainService();
    var stale, owner := ChunkEncryptor(crypto, OLD_KEY, 0x2_0000), ChunkEncryptor(crypto, NEW_KEY, 0x2_0000);
    var emptied := Snapshot([], [], MetaOf(owner, [], 0));
    EmptyDescribed(owner, emptied);
    var chunk := stale.Encrypt(0, data, iv);
    ChunkKeysDiffer(crypto, stale, owner);
    RefusedElsewhere(stale, 0, owner, 0, data, iv);
    var after := Appended(emptied, chunk, MetaOf(owner, chunk.hmac, |data|));
    assert after.checksums == chunk.hmac && after.file == chunk.data;
    OneChunkSize(owner, |data|);
    assert EncryptorOf(crypto, emptied.meta) == owner;
    AppendedUnreadable(crypto, emptied, [], 0, chunk, after.meta);
  }

  lemma OneChunkSize(ce: ChunkEncryptor, size: nat)
    requires ce.Valid() && 0 < size <= ce.chunkSize
    ensures ce.EncryptedFileSize(size) == EncryptedLength(size) <= ce.EncryptedChunkSize()
  {
    ce.EncryptedFileSizeIs(size, 0);
  }

  lemma ChunkKeysDiffer(crypto: CryptoService, stale: ChunkEncryptor, owner: ChunkEncryptor)
    requires crypto == PlainService() && stale.crypto == crypto && owner.crypto == crypto
    requires stale.key == OLD_KEY && owner.key == NEW_KEY
    ensures forall a, b :: crypto.hmacSha256(owner.ChunkKey(0), a) != crypto.hmacSha256(stale.ChunkKey(0), b)
  {
    forall a, b ensures crypto.hmacSha256(owner.ChunkKey(0), a) != crypto.hmacSha256(stale.ChunkKey(0), b) {
      assert crypto.hmacSha256(owner.ChunkKey(0), a)[0] == 2;
      assert crypto.hmacSha256(stale.ChunkKey(0), b)[0] == 1;
    }
  }
}
