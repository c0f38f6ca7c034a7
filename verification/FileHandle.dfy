/** Handles of files that are uploaded in one go, and of files opened for reading. */
module FileHandle {
  import opened ByteStrings
  import opened Results
  import opened CbcCipher
  import opened ChunkEncryption
  import opened EncryptedFiles
  import opened StoreServer
  import opened HashList
  import opened ChunkDataProvider
  import opened ChunkReader
  import opened FileReader
  import opened ChunkBufferedStream
  import opened ChunkStreamer
  import opened FileHandler

  /** What the metadata of an uploaded file is built from. */
  datatype ChunksSentInfo = ChunksSentInfo(key: Bytes, hmac: Bytes, chunkSize: nat)

  /** A committed request holds the file `data`: numbered pieces of `pieceSize` bytes, but for a shorter,
      non-empty last one, which together are `file`; the sizes declared up front; an encryption of `data`. */
  ghost predicate Uploaded(pieces: seq<Piece>, commit: Option<Commit>, declared: (nat, nat), pieceSize: nat,
                           ce: ChunkEncryptor, file: Bytes, checksums: Bytes, data: Bytes, chunks: nat)
  {
    && ce.Valid()
    && SentAll(pieces, file, pieceSize)
    && commit == Some(Commit(|pieces|, checksums))
    && declared == (|file|, |checksums|)
    && |file| == ce.EncryptedFileSize(|data|)
    && Holds(CodecOf(ce), file, checksums, data, chunks)
    && (chunks > 0 ==> Start(chunks - 1, ce.chunkSize) < |data|)
  }

  /** The bytes counted are those processed, and those processed or buffered. Looked into only on demand. */
  ghost predicate Counted(uploaded: nat, total: nat, plain: Bytes, buf: Bytes, declared: nat) {
    forall o: Occasion {:trigger Unfolding(o, plain, declared)} ::
      Unfolding(o, plain, declared) ==> uploaded == |plain| && total == |plain| + |buf| <= declared
  }

  lemma Count(uploaded: nat, total: nat, plain: Bytes, buf: Bytes, declared: nat)
    ensures Counted(uploaded, total, plain, buf, declared) <==> uploaded == |plain| && total == |plain| + |buf| <= declared
  {
    assert Unfolding(Occasion, plain, declared);
  }

  class FileWriteHandle {
    const stream: Stream
    const streamer: Streamer
    var size: nat

    /** What has been written to the handle, processed or still buffered. */
    ghost function Written(): Bytes
      reads streamer, stream
    {
      streamer.plain + stream.buf
    }

    /** What is true at any time, also after failed requests. */
    ghost predicate Basic()
      reads this, stream, streamer, streamer.stream
    {
      && stream != streamer.stream
      && stream.Valid() && stream.sizeControl && stream.maxTotalDataSize == streamer.fileSize
      && stream.chunkSize == streamer.chunkSize
      && streamer.Basic()
    }

    /** A chunk has been listed under a number that is not its own; or the next one will be, because the buffer
        still has a chunk that was listed already. */
    ghost predicate Spoiled()
      reads this, stream, streamer
    {
      streamer.Misnumbered() ||
      (streamer.Behind() && stream.chunkSize <= |stream.buf| && streamer.dataProcessed + streamer.chunkSize <= streamer.fileSize)
    }

    /** Everything but the request. */
    ghost predicate Opened()
      reads this, stream, streamer, streamer.stream, streamer.requestApi
    {
      && Basic() && |stream.buf| < stream.chunkSize
      && streamer.Ready()
      && Counted(streamer.uploadedFileSize, stream.totalDataSize, streamer.plain, stream.buf, streamer.fileSize)
    }

    ghost predicate Valid()
      reads this, stream, streamer, streamer.stream, streamer.requestApi
    {
      Opened() && streamer.Declared()
    }

    constructor (stream: Stream, streamer: Streamer, size: nat)
      ensures this.stream == stream && this.streamer == streamer && this.size == size
    {
      this.stream, this.streamer, this.size := stream, streamer, size;
    }

    /** Requests the upload, before anything is written. */
    method CreateRequestData() returns (r: Result<(), UploadError>)
      requires Opened() && streamer.plain == [] && streamer.out == [] && streamer.stream.buf == []
      modifies streamer`key, streamer.requestApi
      ensures r.Err? ==> r.error.RequestFailed?
      ensures r.Ok? ==> Valid()
      ensures streamer.plain == []
    {
      r := streamer.CreateRequest();
      if r.Ok? {
        assert streamer.Ready();
        assert Basic();
        assert Opened();
      }
    }

    /** Takes any number of bytes, and sends on every chunk that they complete. After a failed request the buffer still
        holds the chunks that were sent on, and the handle can never complete a right upload any more. */
    method Write(data: Bytes) returns (r: Result<(), UploadError>)
      requires Basic()
      modifies stream, streamer, streamer.stream, streamer.requestApi
      ensures Basic() && streamer.key == old(streamer.key)
      ensures old(Valid()) && |old(Written())| + |data| > streamer.fileSize ==>
                r.Err? && r.error.Stream? && Valid() && Written() == old(Written()) && unchanged(streamer.requestApi)
      ensures old(Valid()) && |old(Written())| + |data| <= streamer.fileSize && r.Err? ==>
                r.error.RequestFailed? && stream.buf == old(stream.buf) + data && Spoiled()
      ensures old(Valid()) && r.Ok? ==> Valid() && Written() == old(Written()) + data
      ensures old(Spoiled()) ==> Spoiled()
      ensures old(streamer.Misnumbered()) ==> streamer.Misnumbered()
    {
      ghost var valid := Valid();
      Count(streamer.uploadedFileSize, stream.totalDataSize, streamer.plain, stream.buf, streamer.fileSize);
      var written := stream.Write(data);
      if written.Err? {
        return Err(UploadError.Stream(written.error));
      }
      r := SendFullChunks();
      if r.Err? {
        return;
      }
      ghost var sent := Start(stream.GetNumberOfFullChunks(), stream.chunkSize);
      PieceBounds(|stream.buf|, stream.chunkSize);
      Regroup(old(streamer.plain), old(stream.buf), data, sent);
      stream.FreeFullChunks();
      if valid { assert streamer.Ready(); }
      Count(streamer.uploadedFileSize, stream.totalDataSize, streamer.plain, stream.buf, streamer.fileSize);
    }

    /** The buffer goes on from what has been processed. */
    ghost predicate InStep()
      reads this, stream, streamer, streamer.stream, streamer.requestApi
    {
      && streamer.Ready() && streamer.uploadedFileSize == |streamer.plain|
      && |streamer.plain| + |stream.buf| <= streamer.fileSize
    }

    /** Sends every full chunk of the buffer, which is left as it is. */
    method SendFullChunks() returns (r: Result<(), UploadError>)
      requires Basic()
      modifies streamer, streamer.stream, streamer.requestApi
      ensures Basic() && streamer.key == old(streamer.key)
      ensures streamer.requestApi.declaredSize == old(streamer.requestApi.declaredSize)
      ensures streamer.requestApi.declaredChecksumSize == old(streamer.requestApi.declaredChecksumSize)
      ensures old(InStep()) && r.Err? ==> r.error.RequestFailed? && Spoiled()
      ensures old(InStep()) && r.Ok? ==>
                && streamer.Ready() && streamer.uploadedFileSize == |streamer.plain|
                && Start(stream.GetNumberOfFullChunks(), stream.chunkSize) <= |stream.buf|
                && streamer.plain == old(streamer.plain) + stream.buf[..Start(stream.GetNumberOfFullChunks(), stream.chunkSize)]
      ensures old(Spoiled()) ==> Spoiled() && (r.Ok? ==> streamer.Misnumbered())
      ensures old(streamer.Misnumbered()) ==> streamer.Misnumbered()
    {
      ghost var all, n, api, inStep, spoiled := stream.buf, stream.GetNumberOfFullChunks(), streamer.requestApi, InStep(), Spoiled();
      PieceBounds(|all|, stream.chunkSize);
      var i := 0;
      while i < stream.GetNumberOfFullChunks()
        invariant 0 <= i <= n && Basic() && streamer.key == old(streamer.key)
        invariant api.declaredSize == old(api.declaredSize) && api.declaredChecksumSize == old(api.declaredChecksumSize)
        invariant Start(i, stream.chunkSize) <= |all|
        invariant inStep ==>
                    && streamer.Ready() && streamer.uploadedFileSize == |streamer.plain|
                    && streamer.plain == old(streamer.plain) + all[..Start(i, stream.chunkSize)]
        invariant spoiled ==> Spoiled() && (i > 0 ==> streamer.Misnumbered())
        invariant old(streamer.Misnumbered()) ==> streamer.Misnumbered()
      {
        FullChunkInside(|all|, stream.chunkSize, i);
        var chunk := stream.GetFullChunk(i);
        OneChunkOn(old(streamer.plain), all, stream.chunkSize, i);
        OneMoreNumber(streamer.numbers, streamer.sequence);
        r := streamer.SendChunk(chunk);
        if r.Err? {
          return;
        }
        i := i + 1;
      }
      r := Ok(());
    }

    /** Completes the upload if all declared bytes have been written. A handle that a failed request has spoiled may
        still complete one, but then commits a list with a chunk under a wrong number. */
    method Finalize() returns (r: Result<ChunksSentInfo, UploadError>, ghost file: Bytes, ghost chunks: nat)
      requires Basic()
      modifies this, stream, streamer, streamer.stream, streamer.requestApi
      ensures Basic() && streamer.key == old(streamer.key)
      ensures old(Valid()) && |old(Written())| != streamer.fileSize ==>
                r == Err(DataDifferentThanDeclared) && Valid() && Written() == old(Written()) && unchanged(streamer.requestApi)
      ensures old(Valid()) && |old(Written())| == streamer.fileSize && r.Err? ==> r.error.RequestFailed?
      ensures old(Valid()) && r.Ok? ==>
                && size == |old(Written())|
                && Uploaded(streamer.requestApi.pieces, streamer.requestApi.commit,
                            (streamer.requestApi.declaredSize, streamer.requestApi.declaredChecksumSize),
                            streamer.stream.chunkSize, streamer.Encryptor(), file, streamer.checksums, old(Written()), chunks)
                && r.value == ChunksSentInfo(streamer.key, streamer.crypto.hmacSha256(streamer.key, streamer.checksums),
                                             streamer.chunkSize)
      ensures old(Spoiled()) ==> Spoiled()
      ensures old(streamer.Misnumbered()) ==> streamer.Misnumbered()
      ensures r.Ok? ==>
                && streamer.requestApi.commit.Some? && streamer.requestApi.commit.value.checksum == streamer.checksums
                && (old(Spoiled()) ==> streamer.Misnumbered())
    {
      ghost var valid, written := Valid(), Written();
      Count(streamer.uploadedFileSize, stream.totalDataSize, streamer.plain, stream.buf, streamer.fileSize);
      file, chunks := [], 0;
      if !stream.IsFullyFilled() {
        return Err(DataDifferentThanDeclared), file, chunks;
      }
      ghost var rest, wholeChunks := stream.buf, streamer.sequence;
      var last := stream.ReadChunk();
      if valid {
        OpenWhole(streamer.plain, wholeChunks, streamer.chunkSize);
        LastPiece(rest, last, stream.buf, stream.chunkSize);
      }
      OneMoreNumber(streamer.numbers, streamer.sequence);
      var result := streamer.Finalize(last);
      if result.Err? {
        return Err(result.error), file, chunks;
      }
      file, chunks := streamer.out, streamer.sequence;
      if valid {
        Complete(written, last, wholeChunks, file, chunks);
      }
      size := streamer.uploadedFileSize;
      r := Ok(ChunksSentInfo(streamer.key, result.value, streamer.chunkSize));
    }

    /** The sizes that were declared are those of the completed upload. */
    lemma Complete(written: Bytes, last: Bytes, wholeChunks: nat, file: Bytes, chunks: nat)
      requires Basic() && streamer.Declared() && |last| < streamer.chunkSize && |written| == streamer.fileSize
      requires |written| == Start(wholeChunks, streamer.chunkSize) + |last| && chunks == wholeChunks + (if last == [] then 0 else 1)
      requires Holds(CodecOf(streamer.Encryptor()), file, streamer.checksums, written, chunks)
      ensures (streamer.requestApi.declaredSize, streamer.requestApi.declaredChecksumSize) == (|file|, |streamer.checksums|)
      ensures |file| == streamer.Encryptor().EncryptedFileSize(|written|)
      ensures chunks > 0 ==> Start(chunks - 1, streamer.chunkSize) < |written|
    {
      streamer.OpenDeclared();
      LastChunkNotEmpty(streamer.chunkSize, wholeChunks, last, |written|);
      DeclaredSizes(streamer, streamer.Encryptor(), file, streamer.checksums, written, chunks);
    }
  }

  /** Whatever is done with a handle after a failed request, it completes no upload with every chunk under its number. */
  method UseAfterFailure(handle: FileWriteHandle, steps: seq<Option<Bytes>>) returns (completed: bool)
    requires handle.Basic() && handle.Spoiled()
    modifies handle, handle.stream, handle.streamer, handle.streamer.stream, handle.streamer.requestApi
    ensures handle.Basic() && handle.Spoiled()
    ensures completed ==> handle.streamer.Misnumbered()
  {
    completed := false;
    for i := 0 to |steps|
      invariant handle.Basic() && handle.Spoiled()
      invariant completed ==> handle.streamer.Misnumbered()
    {
      match steps[i]
      case Some(data) =>
        var written := handle.Write(data);
      case None =>
        var finalized, file, chunks := handle.Finalize();
        completed := completed || finalized.Ok?;
    }
  }

  lemma Regroup(plain: Bytes, buf: Bytes, data: Bytes, sent: nat)
    requires sent <= |buf + data|
    ensures plain + (buf + data)[..sent] + (buf + data)[sent..] == plain + buf + data
  {
  }

  lemma OneChunkOn(before: Bytes, all: Bytes, size: nat, i: nat)
    requires Start(i, size) + size <= |all|
    ensures before + all[..Start(i, size)] + Slice(all, size, i) == before + all[..Start(i + 1, size)]
  {
  }

  lemma LastChunkNotEmpty(size: nat, wholeChunks: nat, last: Bytes, total: nat)
    requires size > 0 && total == Start(wholeChunks, size) + |last| && |last| < size
    ensures var chunks := wholeChunks + if last == [] then 0 else 1;
            chunks > 0 ==> Start(chunks - 1, size) < total
  {
  }

  /** Opens a handle for uploading `size` bytes. */
  method OpenHandle(requestApi: RequestApi, crypto: CryptoService, size: nat, chunkSize: nat, serverRequestChunkSize: nat)
    returns (handle: FileWriteHandle)
    requires crypto.Lawful() && chunkSize > 0 && serverRequestChunkSize > 0
    requires requestApi.pieces == [] && requestApi.commit == None
    ensures fresh(handle) && fresh(handle.stream) && fresh(handle.streamer) && fresh(handle.streamer.stream)
    ensures handle.streamer.requestApi == requestApi && handle.streamer.crypto == crypto
    ensures handle.streamer.fileSize == size && handle.streamer.chunkSize == chunkSize
    ensures handle.streamer.stream.chunkSize == serverRequestChunkSize
    ensures handle.Opened()
    ensures handle.streamer.plain == [] && handle.stream.buf == [] && handle.streamer.out == [] && handle.streamer.stream.buf == []
  {
    Count(0, 0, [], [], size);
    var stream := new Stream(chunkSize, Some(size));
    var streamer := new Streamer(requestApi, crypto, chunkSize, size, serverRequestChunkSize);
    streamer.StartedReady();
    handle := new FileWriteHandle(stream, streamer, size);
  }

  method WriteAll(handle: FileWriteHandle, segments: seq<Bytes>) returns (r: Result<(), UploadError>)
    requires handle.Valid() && handle.streamer.plain == [] && handle.stream.buf == []
    modifies handle.stream, handle.streamer, handle.streamer.stream, handle.streamer.requestApi
    ensures handle.streamer.key == old(handle.streamer.key)
    ensures |Join(segments)| > handle.streamer.fileSize ==> r.Err? && (r.error.Stream? || r.error.RequestFailed?)
    ensures |Join(segments)| <= handle.streamer.fileSize && r.Err? ==> r.error.RequestFailed?
    ensures r.Ok? ==> handle.Valid() && handle.Written() == Join(segments)
  {
    for i := 0 to |segments|
      invariant handle.Valid() && handle.Written() == Join(segments[..i])
      invariant handle.streamer.key == old(handle.streamer.key)
    {
      JoinPrefixLength(segments, i + 1);
      assert segments[..i + 1][..i] == segments[..i];
      r := handle.Write(segments[i]);
      if r.Err? {
        return;
      }
    }
    assert segments[..|segments|] == segments;
    Count(handle.streamer.uploadedFileSize, handle.stream.totalDataSize, handle.streamer.plain, handle.stream.buf, handle.streamer.fileSize);
    r := Ok(());
  }

  /** Uploads data handed over in any segments. Whatever the segmentation: unless a request fails, the
      upload succeeds exactly when all declared bytes are there, and then the request holds them. */
  method Upload(requestApi: RequestApi, crypto: CryptoService, size: nat, chunkSize: nat, serverRequestChunkSize: nat,
                segments: seq<Bytes>)
    returns (r: Result<ChunksSentInfo, UploadError>, ghost file: Bytes, ghost checksums: Bytes, ghost chunks: nat)
    requires crypto.Lawful() && chunkSize > 0 && serverRequestChunkSize > 0
    requires requestApi.pieces == [] && requestApi.commit == None
    modifies requestApi
    ensures |Join(segments)| > size ==> r.Err? && (r.error.Stream? || r.error.RequestFailed?)
    ensures |Join(segments)| < size ==> r.Err? && (r.error.DataDifferentThanDeclared? || r.error.RequestFailed?)
    ensures |Join(segments)| == size && r.Err? ==> r.error.RequestFailed?
    ensures r.Ok? ==>
              && r.value.chunkSize == chunkSize && r.value.hmac == crypto.hmacSha256(r.value.key, checksums)
              && Uploaded(requestApi.pieces, requestApi.commit, (requestApi.declaredSize, requestApi.declaredChecksumSize),
                          serverRequestChunkSize, ChunkEncryptor(crypto, r.value.key, chunkSize), file, checksums,
                          Join(segments), chunks)
  {
    file, checksums, chunks := [], [], 0;
    var handle := OpenHandle(requestApi, crypto, size, chunkSize, serverRequestChunkSize);
    var created := handle.CreateRequestData();
    if created.Err? {
      return Err(created.error), file, checksums, chunks;
    }
    var written := WriteAll(handle, segments);
    if written.Err? {
      return Err(written.error), file, checksums, chunks;
    }
    r, file, chunks := handle.Finalize();
    checksums := handle.streamer.checksums;
  }

  lemma {:induction false} JoinPrefixLength(parts: seq<Bytes>, n: nat)
    requires n <= |parts|
    ensures |Join(parts[..n])| <= |Join(parts)|
    decreases |parts|
  {
    if n < |parts| {
      JoinPrefixLength(parts[..|parts| - 1], n);
      assert parts[..|parts| - 1][..n] == parts[..n];
    } else {
      assert parts[..n] == parts;
    }
  }

  class FileReadHandle {
    const fileReader: RangeReader
    var pos: nat
    var size: nat

    ghost predicate Valid(plain: Bytes, chunks: nat)
      reads this, fileReader, fileReader.chunkReader, fileReader.chunkReader.chunkDataProvider,
            fileReader.chunkReader.chunkDataProvider.server, fileReader.chunkReader.hashList
    {
      fileReader.Valid(plain, chunks) && size == |plain|
    }

    constructor (fileReader: RangeReader, size: nat)
      ensures this.fileReader == fileReader && pos == 0 && this.size == size
    {
      this.fileReader, pos, this.size := fileReader, 0, size;
    }

    /** Reads on from the current position, which moves by `length` even past the end of the file. */
    method Read(length: nat, ghost plain: Bytes, ghost chunks: nat) returns (r: Result<Bytes, FileError>)
      requires Valid(plain, chunks)
      modifies this`pos, fileReader.chunkReader`lastChunk, fileReader.chunkReader.chunkDataProvider
      ensures Valid(plain, chunks)
      ensures r.Ok? ==> r.value == Window(plain, old(pos), old(pos) + length) && pos == old(pos) + length
      ensures r.Err? ==> pos == old(pos) && RequestFailure(r.error)
    {
      r := fileReader.Read(pos, length, plain, chunks);
      if r.Ok? {
        pos := pos + length;
      }
    }

    /** Moves to the version described by `params`. Unlike a handle for writing it takes the new key to the chunk
        encryptor as well, and before the checksums are there: if these do not match, it keeps the new key with
        the old file. The chunk size of the data provider stays. */
    method Sync(params: FileDecryptionParams, ghost plain: Bytes, ghost chunks: nat, ghost newPlain: Bytes, ghost newChunks: nat)
      returns (r: Result<(), FileError>)
      requires Valid(plain, chunks)
      modifies this`size, fileReader, fileReader.chunkReader, fileReader.chunkReader.chunkDataProvider, fileReader.chunkReader.hashList
      ensures r == Err(FileCorrupted) <==> params.sizeOnServer != old(Encryptor()).EncryptedFileSize(params.originalSize)
      ensures r == Err(FileCorrupted) ==> Encryptor() == old(Encryptor()) && Valid(plain, chunks)
      ensures r != Err(FileCorrupted) ==> Encryptor() == ChunkEncryptor(old(Encryptor()).crypto, params.key, params.chunkSize)
      ensures r.Err? && Encryptor() == old(Encryptor()) ==> Valid(plain, chunks)
      ensures r.Ok? && old(Version()) <= params.version
              && DescribesFile(params, Encryptor(), fileReader.chunkReader.chunkDataProvider.server, newPlain, newChunks) ==>
                (Valid(newPlain, newChunks) <==>
                   && EncryptedLength(params.chunkSize) == old(Encryptor()).EncryptedChunkSize()
                   && fileReader.chunkReader.hashList.hashes
                      == fileReader.chunkReader.chunkDataProvider.server.history[params.version].checksums)
    {
      var reader := fileReader.chunkReader;
      if params.sizeOnServer != reader.chunkEncryptor.EncryptedFileSize(params.originalSize) {
        return Err(FileCorrupted);
      }
      reader.SyncEncryptor(params.key, params.chunkSize);
      var checksums := reader.chunkDataProvider.GetCurrentChecksumsFromBridge();
      if checksums.Err? {
        return Err(ServerException(checksums.error));
      }
      var matched := reader.hashList.Sync(params.key, params.hmac, checksums.value);
      if matched.Err? {
        return Err(HashFailure(matched.error));
      }
      reader.chunkDataProvider.Sync(params.version, params.sizeOnServer);
      reader.Sync(params.version);
      fileReader.Sync(params);
      size := params.originalSize;
      r := Ok(());
    }

    function Encryptor(): ChunkEncryptor
      reads this, fileReader.chunkReader
    {
      fileReader.chunkReader.chunkEncryptor
    }

    /** The version that the data provider works on. */
    function Version(): int
      reads this, fileReader.chunkReader.chunkDataProvider
    {
      fileReader.chunkReader.chunkDataProvider.fileVersion
    }

    method Seek(pos: nat) returns (r: Result<(), FileError>)
      modifies this`pos
      ensures if size <= pos then r == Err(PosOutOfBounds) && this.pos == old(this.pos)
              else r == Ok(()) && this.pos == pos
    {
      if size <= pos {
        return Err(PosOutOfBounds);
      }
      this.pos := pos;
      r := Ok(());
    }
  }

  /** `params` are those of a version of the server's file, which holds `plain`. */
  ghost predicate DescribesFile(params: FileDecryptionParams, ce: ChunkEncryptor, server: Server, plain: Bytes, chunks: nat)
    reads server
  {
    params.version in server.history && Describes(params, server.history[params.version].meta, ce, server, plain, chunks)
  }

  /** Opens the server's current version for reading; refused only if a request fails or the sizes disagree. */
  method OpenForReading(server: Server, ce: ChunkEncryptor, params: FileDecryptionParams, serverChunkSize: nat,
                        ghost plain: Bytes, ghost chunks: nat) returns (r: Result<FileReadHandle, FileError>)
    requires server.Valid() && serverChunkSize > 0 && params.version == server.version
    requires Describes(params, server.current.meta, ce, server, plain, chunks)
    ensures r.Err? ==> r.error.ServerFailure? || (r.error.FileCorrupted? && !SizesAgree(ce, params))
    ensures r.Ok? ==> SizesAgree(ce, params) && fresh(r.value) && fresh(r.value.fileReader)
                      && fresh(r.value.fileReader.chunkReader) && fresh(r.value.fileReader.chunkReader.chunkDataProvider)
                      && fresh(r.value.fileReader.chunkReader.hashList)
                      && r.value.Valid(plain, chunks) && r.value.pos == 0
  {
    var provider := new Provider(server, ce.EncryptedChunkSize(), serverChunkSize, params.sizeOnServer, params.version);
    var checksums := provider.GetCurrentChecksumsFromBridge();
    if checksums.Err? {
      return Err(ServerException(checksums.error));
    }
    Unfold(CodecOf(ce), server.current.file, server.current.checksums, plain, chunks);
    WholeEntries(server.current.checksums, chunks);
    var hashList := new HmacList(ce.crypto);
    var matched := hashList.Sync(params.key, params.hmac, checksums.value);
    assert matched.Ok?;
    if !SizesAgree(ce, params) {
      return Err(FileCorrupted);
    }
    var reader := new Reader(provider, ce, hashList, params.version);
    var fileReader := new RangeReader(reader, params);
    var handle := new FileReadHandle(fileReader, params.originalSize);
    r := Ok(handle);
  }

  /** Two uploads of equally long data, however segmented, look alike to the server: as many pieces with the
      same numbers and sizes, and the same declared sizes. */
  lemma SegmentationInvisible(p: seq<Piece>, q: seq<Piece>, m: Option<Commit>, n: Option<Commit>, declaredP: (nat, nat),
                              declaredQ: (nat, nat), pieceSize: nat, ce: ChunkEncryptor, fileP: Bytes, fileQ: Bytes,
                              checksumsP: Bytes, checksumsQ: Bytes, dataP: Bytes, dataQ: Bytes, chunksP: nat, chunksQ: nat)
    requires pieceSize > 0 && |dataP| == |dataQ|
    requires Uploaded(p, m, declaredP, pieceSize, ce, fileP, checksumsP, dataP, chunksP)
    requires Uploaded(q, n, declaredQ, pieceSize, ce, fileQ, checksumsQ, dataQ, chunksQ)
    ensures |p| == |q| && declaredP == declaredQ && chunksP == chunksQ
    ensures forall j | 0 <= j < |p| :: p[j].seqNumber == q[j].seqNumber == j && |p[j].data| == |q[j].data|
  {
    Unfold(CodecOf(ce), fileP, checksumsP, dataP, chunksP);
    Unfold(CodecOf(ce), fileQ, checksumsQ, dataQ, chunksQ);
    LayoutBound(CodecOf(ce), |fileP|, |dataP|, chunksP);
    LayoutBound(CodecOf(ce), |fileQ|, |dataQ|, chunksQ);
    SameChunkCount(ce.chunkSize, |dataP|, chunksP, chunksQ);
    SamePieceCount(p, q, fileP, fileQ, pieceSize);
    forall j: nat | j < |p| ensures p[j].seqNumber == q[j].seqNumber == j && |p[j].data| == |q[j].data| {
      var holdsP, holdsQ := NumberedPiece(p, fileP, pieceSize, j), NumberedPiece(q, fileQ, pieceSize, j);
      assert holdsP && holdsQ;
    }
  }

  lemma SamePieceCount(p: seq<Piece>, q: seq<Piece>, out: Bytes, out': Bytes, size: nat)
    requires size > 0 && SentAll(p, out, size) && SentAll(q, out', size) && |out| == |out'|
    ensures |p| == |q|
  {
    SameChunkCount(size, |out|, |p|, |q|);
  }

  /** The number of pieces of a string that has no empty last piece. */
  lemma SameChunkCount(size: nat, total: nat, m: nat, n: nat)
    requires size > 0 && total <= Start(m, size) && total <= Start(n, size)
    requires m > 0 ==> Start(m - 1, size) < total
    requires n > 0 ==> Start(n - 1, size) < total
    ensures m == n
  {
    if m < n {
      StartMono(m, n - 1, size);
    } else if n < m {
      StartMono(n, m - 1, size);
    }
  }

  lemma ChunkCount(size: nat, total: nat, chunks: nat)
    requires size > 0 && (chunks > 0 ==> Start(chunks - 1, size) < total)
    ensures chunks <= PieceOf(total, size) + 1
  {
    if chunks > 0 {
      PieceUnique(Start(chunks - 1, size), size, chunks - 1);
      PieceMono(Start(chunks - 1, size), total, size);
    }
  }

  /** Opens a file, seeks and reads. */
  method OpenAndRead(server: Server, ce: ChunkEncryptor, params: FileDecryptionParams, serverChunkSize: nat, pos: nat, length: nat,
                     ghost plain: Bytes, ghost chunks: nat) returns (r: Result<Bytes, FileError>)
    requires server.Valid() && serverChunkSize > 0 && params.version == server.version
    requires Describes(params, server.current.meta, ce, server, plain, chunks)
    requires SizesAgree(ce, params)
    ensures r.Ok? ==> pos < |plain| && r.value == Window(plain, pos, pos + length)
    ensures r.Err? && !RequestFailure(r.error) ==> r.error == PosOutOfBounds && pos >= |plain|
  {
    var handle := OpenForReading(server, ce, params, serverChunkSize, plain, chunks);
    if handle.Err? {
      return Err(handle.error);
    }
    var sought := handle.value.Seek(pos);
    if sought.Err? {
      return Err(sought.error);
    }
    r := handle.value.Read(length, plain, chunks);
  }

  /** Uploading data in any segments and reading it back, from any position and at any length, gives the
      data from there on. Nothing fails unless a request does, or the position is past the end. */
  method UploadAndRead(requestApi: RequestApi, crypto: CryptoService, chunkSize: nat, serverRequestChunkSize: nat,
                       serverChunkSize: nat, segments: seq<Bytes>, pos: nat, length: nat)
    returns (r: Result<Bytes, FileError>)
    requires crypto.Lawful() && chunkSize > 0 && serverRequestChunkSize > 0 && serverChunkSize > 0
    requires requestApi.pieces == [] && requestApi.commit == None
    requires PieceOf(|Join(segments)|, chunkSize) < NO_SERVER_CHUNK
    modifies requestApi
    ensures r.Ok? ==> pos < |Join(segments)| && r.value == Window(Join(segments), pos, pos + length)
    ensures r.Err? && !RequestFailure(r.error) ==> r.error == PosOutOfBounds && pos >= |Join(segments)|
  {
    var size := |Join(segments)|;
    var uploaded, file, checksums, chunks := Upload(requestApi, crypto, size, chunkSize, serverRequestChunkSize, segments);
    if uploaded.Err? {
      return Err(ServerFailure);
    }
    var info := uploaded.value;
    var ce := ChunkEncryptor(crypto, info.key, chunkSize);
    ghost var data := Join(segments);
    PiecesConserve(requestApi.pieces, file, serverRequestChunkSize);
    var stored := Snapshot(Join(PieceDatas(requestApi.pieces)), requestApi.commit.value.checksum, FileMeta(info.hmac, size, info.key, chunkSize));
    var server := new Server(stored, 1);
    ChunkCount(chunkSize, |data|, chunks);
    var params := GetFileDecryptionParams(stored.meta, |stored.file|, 1);
    r := OpenAndRead(server, ce, params, serverChunkSize, pos, length, data, chunks);
  }
}
