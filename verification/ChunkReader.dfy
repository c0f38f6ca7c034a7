/** Decrypts chunks fetched by the data provider, and keeps the last decrypted one. */
module ChunkReader {
  import opened ByteStrings
  import opened Results
  import opened StoreServer
  import opened ChunkEncryption
  import opened EncryptedFiles
  import opened HashList
  import opened ChunkDataProvider

  datatype FileError =
    | FileCorrupted
    | FileVersionMismatch
    | ServerFailure
    | HashFailure(cause: HashError)
    | ChunkFailure(error: ChunkError)
    | FileRandomWriteInternal
    | PosOutOfBounds

  function ServerException(e: ServerError): FileError {
    match e
    case VersionMismatch => FileVersionMismatch
    case Unavailable => ServerFailure
  }

  /** Decryption of a fetched chunk under its entry in the hash list. */
  function OpenChunk(ce: ChunkEncryptor, index: nat, data: Bytes, hash: Result<Bytes, HashError>): Result<Bytes, FileError>
    requires ce.Valid()
  {
    match hash
    case Err(e) => Err(HashFailure(e))
    case Ok(hmac) =>
      match ce.Decrypt(index, Chunk(data, hmac))
      case Err(e) => Err(ChunkFailure(e))
      case Ok(plain) => Ok(plain)
  }

  datatype FileDecryptionParams = FileDecryptionParams(sizeOnServer: nat, originalSize: nat, chunkSize: nat, key: Bytes, hmac: Bytes,
                                                       version: int)

  /** What a client is told about a file: its metadata, its size on the server and its version. */
  function GetFileDecryptionParams(meta: FileMeta, sizeOnServer: nat, version: int): FileDecryptionParams {
    FileDecryptionParams(sizeOnServer, meta.size, meta.chunkSize, meta.key, meta.hmac, version)
  }

  datatype DecryptedChunk = DecryptedChunk(decryptedData: Bytes, index: nat)

  /** A cached chunk is that of the plain file, or lies wholly past its end: there it may be left
      over from before a truncation, and is replaced before the file can grow over it again. */
  ghost predicate Fresh(cached: Option<DecryptedChunk>, size: nat, plain: Bytes) {
    cached.Some? ==>
      || cached.value.decryptedData == Slice(plain, size, cached.value.index)
      || |plain| <= Start(cached.value.index, size)
  }

  class Reader {
    const chunkDataProvider: Provider
    var chunkEncryptor: ChunkEncryptor
    const hashList: HmacList
    var version: int
    var lastChunk: Option<DecryptedChunk>

    /** The provider serves the file whose plain text at this reader's version is `plain`. */
    ghost predicate Valid(plain: Bytes, chunks: nat)
      reads this, chunkDataProvider, chunkDataProvider.server, hashList
    {
      && chunkEncryptor.Valid()
      && chunkDataProvider.Valid() && hashList.Valid()
      && chunkDataProvider.encryptedChunkSize == chunkEncryptor.EncryptedChunkSize()
      && version in chunkDataProvider.server.history
      && hashList.hashes == chunkDataProvider.server.history[version].checksums
      && Holds(CodecOf(chunkEncryptor), chunkDataProvider.server.history[version].file, hashList.hashes, plain, chunks)
      && Fresh(lastChunk, chunkEncryptor.chunkSize, plain)
    }

    constructor (provider: Provider, encryptor: ChunkEncryptor, hashList: HmacList, version: int)
      ensures chunkDataProvider == provider && chunkEncryptor == encryptor && this.hashList == hashList
      ensures this.version == version && lastChunk == None
    {
      chunkDataProvider, chunkEncryptor, this.hashList := provider, encryptor, hashList;
      this.version, lastChunk := version, None;
    }

    /** The plain text of one chunk of the file at the reader's version. The only failures are those
        of the server: no checksum is ever found wrong. */
    method GetDecryptedChunk(index: nat, ghost plain: Bytes, ghost chunks: nat) returns (r: Result<Bytes, FileError>)
      requires Valid(plain, chunks) && Start(index, chunkEncryptor.chunkSize) < |plain| && index < NO_SERVER_CHUNK
      modifies this`lastChunk, chunkDataProvider
      ensures Valid(plain, chunks)
      ensures old(chunkDataProvider.fileVersion) <= version ==> chunkDataProvider.fileVersion <= version
      ensures r.Ok? ==> r.value == Slice(plain, chunkEncryptor.chunkSize, index)
      ensures r.Err? ==> r.error.ServerFailure? || (r.error.FileVersionMismatch? && version != chunkDataProvider.server.version)
    {
      if lastChunk.None? || lastChunk.value.index != index {
        ghost var file := chunkDataProvider.server.history[version].file;
        var chunk := chunkDataProvider.GetChunk(index, version);
        if chunk.Err? {
          return Err(ServerException(chunk.error));
        }
        Unfold(CodecOf(chunkEncryptor), file, hashList.hashes, plain, chunks);
        SealedInside(CodecOf(chunkEncryptor), file, hashList.hashes, plain, chunks, index);
        HashInside(hashList.size, chunks);
        var hash := hashList.GetHash(index);
        CodecOpens(chunkEncryptor, index, ChunkAt(chunkEncryptor.EncryptedChunkSize(), file, hashList.hashes, index),
                   Slice(plain, chunkEncryptor.chunkSize, index));
        var decrypted := OpenChunk(chunkEncryptor, index, chunk.value, hash);
        if decrypted.Err? {
          return decrypted;
        }
        lastChunk := Some(DecryptedChunk(decrypted.value, index));
      }
      r := Ok(lastChunk.value.decryptedData);
    }

    /** The shared part of both file readers: `length` bytes from `pos`, which lie within the file. */
    method ReadRange(pos: nat, length: nat, ghost plain: Bytes, ghost chunks: nat) returns (r: Result<Bytes, FileError>)
      requires Valid(plain, chunks) && length > 0 && pos + length <= |plain|
      requires PieceOf(pos + length - 1, chunkEncryptor.chunkSize) < NO_SERVER_CHUNK
      modifies this`lastChunk, chunkDataProvider
      ensures Valid(plain, chunks)
      ensures old(chunkDataProvider.fileVersion) <= version ==> chunkDataProvider.fileVersion <= version
      ensures r.Ok? ==> r.value == plain[pos..pos + length]
      ensures r.Err? ==> r.error.ServerFailure? || (r.error.FileVersionMismatch? && version != chunkDataProvider.server.version)
    {
      var size := chunkEncryptor.chunkSize;
      var startIndex, stopIndex := PieceOf(pos, size), PieceOf(pos + length - 1, size);
      PieceBounds(pos, size);
      PieceBounds(pos + length - 1, size);
      PieceMono(pos, pos + length - 1, size);
      var data := ReadChunks(startIndex, stopIndex, plain, chunks);
      if data.Err? {
        return data;
      }
      WindowRange(plain, Start(startIndex, size), Start(stopIndex + 1, size), pos, length);
      var at := PosInPiece(pos, size);
      r := Ok(data.value[at..at + length]);
    }

    method ReadChunks(startIndex: nat, stopIndex: nat, ghost plain: Bytes, ghost chunks: nat) returns (r: Result<Bytes, FileError>)
      requires Valid(plain, chunks) && startIndex <= stopIndex < NO_SERVER_CHUNK
      requires Start(stopIndex, chunkEncryptor.chunkSize) < |plain|
      modifies this`lastChunk, chunkDataProvider
      ensures Valid(plain, chunks)
      ensures old(chunkDataProvider.fileVersion) <= version ==> chunkDataProvider.fileVersion <= version
      ensures Start(startIndex, chunkEncryptor.chunkSize) <= Start(stopIndex + 1, chunkEncryptor.chunkSize)
      ensures r.Ok? ==> r.value == Window(plain, Start(startIndex, chunkEncryptor.chunkSize),
                                          Start(stopIndex + 1, chunkEncryptor.chunkSize))
      ensures r.Err? ==> r.error.ServerFailure? || (r.error.FileVersionMismatch? && version != chunkDataProvider.server.version)
    {
      ghost var size := chunkEncryptor.chunkSize;
      StartMono(startIndex, stopIndex, size);
      var data: Bytes := [];
      for i := startIndex to stopIndex + 1
        invariant Valid(plain, chunks)
        invariant old(chunkDataProvider.fileVersion) <= version ==> chunkDataProvider.fileVersion <= version
        invariant ReadSoFar(plain, size, startIndex, i, data)
      {
        StartMono(i, stopIndex, size);
        var chunk := GetDecryptedChunk(i, plain, chunks);
        if chunk.Err? {
          return chunk;
        }
        ReadOneMore(plain, size, startIndex, i, data);
        data := data + chunk.value;
      }
      r := Ok(data);
    }

    /** The chunk encryptor moves to another key and chunk size. */
    method SyncEncryptor(key: Bytes, chunkSize: nat)
      modifies this`chunkEncryptor
      ensures chunkEncryptor == ChunkEncryptor(old(chunkEncryptor).crypto, key, chunkSize)
    {
      chunkEncryptor := chunkEncryptor.(key := key, chunkSize := chunkSize);
    }

    method Sync(version: int)
      modifies this`version, this`lastChunk
      ensures this.version == version && lastChunk == None
    {
      this.version, lastChunk := version, None;
    }

    method Update(newFileVersion: int, index: nat)
      modifies this`version, this`lastChunk
      ensures version == newFileVersion
      ensures lastChunk == if old(lastChunk).Some? && old(lastChunk).value.index == index then None else old(lastChunk)
    {
      version := newFileVersion;
      if lastChunk.Some? && lastChunk.value.index == index {
        lastChunk := None;
      }
    }
  }

  /** `data` is what chunks `startIndex`.. up to chunk `i` hold. */
  ghost predicate ReadSoFar(plain: Bytes, size: nat, startIndex: nat, i: nat, data: Bytes) {
    Start(startIndex, size) <= Start(i, size) && data == Window(plain, Start(startIndex, size), Start(i, size))
  }

  lemma ReadOneMore(plain: Bytes, size: nat, startIndex: nat, i: nat, data: Bytes)
    requires ReadSoFar(plain, size, startIndex, i, data)
    ensures ReadSoFar(plain, size, startIndex, i + 1, data + Slice(plain, size, i))
  {
    WindowAppend(plain, Start(startIndex, size), Start(i, size), Start(i + 1, size));
  }

  /** Opening checks that the size on the server is the one expected for the plain size. */
  predicate SizesAgree(encryptor: ChunkEncryptor, params: FileDecryptionParams)
    requires encryptor.chunkSize > 0
  {
    params.sizeOnServer == encryptor.EncryptedFileSize(params.originalSize) || params.originalSize == 0
  }

  /** A position inside the file lies in one of its chunks. */
  lemma ChunkInside(c: Codec, file: Bytes, hashes: Bytes, plain: Bytes, chunks: nat, pos: nat)
    requires c.Valid() && Holds(c, file, hashes, plain, chunks) && pos < |plain|
    ensures PieceOf(pos, c.size) < chunks
  {
    Unfold(c, file, hashes, plain, chunks);
    PieceBounds(pos, c.size);
    SealedInside(c, file, hashes, plain, chunks, PieceOf(pos, c.size));
  }

  lemma SealedInside(c: Codec, file: Bytes, hashes: Bytes, plain: Bytes, chunks: nat, index: nat)
    requires Represents(c, file, hashes, plain, chunks) && Start(index, c.size) < |plain|
    ensures index < chunks
    ensures Sealed(c, index, ChunkAt(c.full(), file, hashes, index), Slice(plain, c.size, index))
  {
    if index >= chunks {
      LayoutBound(c, |file|, |plain|, chunks);
      StartMono(chunks, index, c.size);
    }
    ContentsAt(c, file, hashes, plain, chunks, index);
  }

  lemma HashInside(m: nat, n: nat)
    requires Start(m, HMAC_SIZE) == Start(n, HMAC_SIZE)
    ensures m == n
  {
    HashesDetermine(m, n);
  }
}
