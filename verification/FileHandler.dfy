/** Random-access reads and writes on an encrypted file kept by the server. */
module FileHandler {
  import opened ByteStrings
  import opened Results
  import opened StoreServer
  import opened CbcCipher
  import opened ChunkEncryption
  import opened EncryptedFiles
  import opened Squashing
  import opened HashList
  import opened ChunkDataProvider
  import opened ChunkReader
  import opened FileWrites
  import opened ServerRequests

  /** A failed request says nothing about the file's contents. */
  predicate RequestFailure(e: FileError) {
    e.ServerFailure? || e.FileVersionMismatch?
  }

  /** No request has been applied. */
  ghost predicate Untouched(oldVersion: int, before: Snapshot, newVersion: int, after: Snapshot) {
    newVersion == oldVersion && after == before
  }

  lemma WholeEntries(hashes: Bytes, chunks: nat)
    requires |hashes| == Start(chunks, HMAC_SIZE)
    ensures |hashes| % HMAC_SIZE == 0
  {
    StartIsProduct(chunks, HMAC_SIZE);
  }

  lemma EntriesWhole(c: Codec, file: Bytes, hashes: Bytes, plain: Bytes, chunks: nat)
    requires Holds(c, file, hashes, plain, chunks)
    ensures |hashes| % HMAC_SIZE == 0
  {
    Unfold(c, file, hashes, plain, chunks);
    WholeEntries(hashes, chunks);
  }

  class Handler {
    const server: Server
    const chunkDataProvider: Provider
    const chunkEncryptor: ChunkEncryptor
    const hashList: HmacList
    const chunkReader: Reader
    var plainFileSize: nat
    var encryptedFileSize: nat
    var version: int
    var fileMeta: FileMeta
    ghost var plain: Bytes
    ghost var chunks: nat

    /** The file as the server had it at the version this handler works on. */
    ghost function Snap(): Snapshot
      requires version in server.history
      reads this, server
    {
      server.history[version]
    }

    ghost predicate Linked()
      reads chunkReader
    {
      && chunkEncryptor.Valid()
      && chunkDataProvider.server == server
      && chunkReader.chunkDataProvider == chunkDataProvider
      && chunkReader.chunkEncryptor == chunkEncryptor
      && chunkReader.hashList == hashList
      && hashList.crypto == chunkEncryptor.crypto
    }

    /** The handler's sizes, hashes, metadata and both caches describe one version of the server's file, and that
        version is an encryption of `plain` under the handler's own key. The server may be ahead. */
    ghost predicate Valid()
      reads this, server, chunkDataProvider, chunkReader, hashList
    {
      && Linked()
      && chunkReader.Valid(plain, chunks)
      && chunks <= NO_SERVER_CHUNK
      && chunkReader.version == version
      && chunkDataProvider.fileVersion <= version
      && plainFileSize == |plain| && encryptedFileSize == |Snap().file|
      && fileMeta == Snap().meta
      && hashList.topHashKey == fileMeta.key
      && MetaFits(chunkEncryptor.crypto, fileMeta, hashList.hashes, plainFileSize)
    }

    /** The chunks are encrypted as the file's metadata say. */
    predicate Owner()
      reads this
    {
      fileMeta.key == chunkEncryptor.key && fileMeta.chunkSize == chunkEncryptor.chunkSize
    }

    constructor (server: Server, provider: Provider, encryptor: ChunkEncryptor, hashList: HmacList, reader: Reader,
                 plainFileSize: nat, encryptedFileSize: nat, version: int, fileMeta: FileMeta,
                 ghost plain: Bytes, ghost chunks: nat)
      ensures this.server == server && chunkDataProvider == provider && chunkEncryptor == encryptor
      ensures this.hashList == hashList && chunkReader == reader
      ensures this.plainFileSize == plainFileSize && this.encryptedFileSize == encryptedFileSize
      ensures this.version == version && this.fileMeta == fileMeta && this.plain == plain && this.chunks == chunks
    {
      this.server, chunkDataProvider, chunkEncryptor := server, provider, encryptor;
      this.hashList, chunkReader := hashList, reader;
      this.plainFileSize, this.encryptedFileSize := plainFileSize, encryptedFileSize;
      this.version, this.fileMeta, this.plain, this.chunks := version, fileMeta, plain, chunks;
    }

    /** `size` bytes from `offset`, or what the file has of them. */
    method Read(offset: nat, size: nat) returns (r: Result<Bytes, FileError>)
      requires Valid()
      modifies chunkReader`lastChunk, chunkDataProvider
      ensures Valid()
      ensures r.Ok? ==> r.value == Window(plain, offset, offset + size)
      ensures r.Err? ==> r.error.ServerFailure? || (r.error.FileVersionMismatch? && version != server.version)
    {
      var length := size;
      if offset >= plainFileSize {
        return Ok([]);
      }
      if offset + length > plainFileSize {
        length := plainFileSize - offset;
      }
      if length == 0 {
        return Ok([]);
      }
      ChunkInside(CodecOf(chunkEncryptor), Snap().file, hashList.hashes, plain, chunks, offset + length - 1);
      r := chunkReader.ReadRange(offset, length, plain, chunks);
    }

    function GetFileSize(): nat
      reads this
    {
      plainFileSize
    }

    /** The server chunk that holds chunk `index` is the cached one. */
    ghost predicate CachedFor(index: nat)
      requires chunkDataProvider.serverChunkSize > 0
      reads this, chunkDataProvider
    {
      chunkDataProvider.fileVersion == version &&
      chunkDataProvider.lastServerChunkNumber
      == Some(ServerChunkOf(index, chunkDataProvider.encryptedChunkSize, chunkDataProvider.serverChunkSize))
    }

    /** Re-encrypts one chunk with `data` put at `chunkOffset` of it, which makes its text `text`. */
    method CreateUpdateChunk(index: nat, chunkOffset: nat, data: Bytes, truncate: bool, ghost text: Bytes)
      returns (r: Result<UpdateChunkData, FileError>)
      requires Valid() && index < NO_SERVER_CHUNK
      requires text == NewChunk(Slice(plain, chunkEncryptor.chunkSize, index), chunkOffset, data, truncate)
      modifies chunkDataProvider
      ensures Valid()
      ensures chunkOffset + |data| > chunkEncryptor.chunkSize ==> r == Err(FileRandomWriteInternal)
      ensures r.Ok? ==>
                && UpdateOf(CodecOf(chunkEncryptor), encryptedFileSize, plainFileSize, index, text, truncate, r.value)
                && CachedFor(index)
      ensures r.Err? && chunkOffset + |data| <= chunkEncryptor.chunkSize ==> RequestFailure(r.error)
    {
      if chunkOffset + |data| > chunkEncryptor.chunkSize {
        return Err(FileRandomWriteInternal);
      }
      var fetched := chunkDataProvider.GetChunk(index, version);
      if fetched.Err? {
        return Err(ServerException(fetched.error));
      }
      var prev := OpenPrevious(index, fetched.value);
      var newChunk := NewChunk(prev, chunkOffset, data, truncate);
      var chunk := SealChunk(index, newChunk);
      SliceLengthIs(plain, chunkEncryptor.chunkSize, index);
      SliceLengthIs(Snap().file, chunkEncryptor.EncryptedChunkSize(), index);
      var at, encryptedAt := Start(index, chunkEncryptor.chunkSize), Start(index, chunkEncryptor.EncryptedChunkSize());
      r := Ok(UpdateChunkData(
                chunk, index,
                if truncate then at + |newChunk| - Max(plainFileSize, at) else |newChunk| - |prev|,
                if truncate then encryptedAt + |chunk.data| - Max(encryptedFileSize, encryptedAt)
                else |chunk.data| - |fetched.value|));
    }

    /** Encrypts under a random vector. */
    method SealChunk(index: nat, text: Bytes) returns (chunk: Chunk)
      requires chunkEncryptor.Valid() && |text| <= chunkEncryptor.chunkSize
      ensures Sealed(CodecOf(chunkEncryptor), index, chunk, text)
    {
      var iv := RandomBytes(IV_SIZE);
      chunk := chunkEncryptor.Encrypt(index, text, iv);
      chunkEncryptor.RoundTrip(index, text, iv);
      CodecOpens(chunkEncryptor, index, chunk, text);
    }

    /** The old text of a fetched chunk; a chunk past the end of the file is empty. */
    method OpenPrevious(index: nat, fetched: Bytes) returns (prev: Bytes)
      requires Valid()
      requires fetched == Slice(Snap().file, chunkEncryptor.EncryptedChunkSize(), index)
      ensures prev == Slice(plain, chunkEncryptor.chunkSize, index)
    {
      Unfold(CodecOf(chunkEncryptor), Snap().file, hashList.hashes, plain, chunks);
      PreviousChunk(CodecOf(chunkEncryptor), Snap().file, hashList.hashes, plain, chunks, index);
      prev := [];
      if |fetched| != 0 {
        HashInside(hashList.size, chunks);
        var hash := hashList.GetHash(index);
        CodecOpens(chunkEncryptor, index, Chunk(fetched, hash.value), Slice(plain, chunkEncryptor.chunkSize, index));
        prev := chunkEncryptor.Decrypt(index, Chunk(fetched, hash.value)).value;
      }
    }

    /** Re-encrypts touched chunk `i` of the file after the write; `dataSend` bytes went to earlier ones. */
    method PrepareChunk(offset: nat, toSend: Bytes, startIndex: nat, stopIndex: nat, truncate: bool, i: nat, dataSend: nat,
                        ghost after: Bytes)
      returns (r: Result<UpdateChunkData, FileError>, sent: nat)
      requires Valid() && startIndex <= i <= stopIndex < NO_SERVER_CHUNK
      requires Touches(chunkEncryptor.chunkSize, |plain|, offset, |toSend|, startIndex, stopIndex)
      requires after == Patch(plain, offset, toSend, truncate)
      requires startIndex < i ==> offset <= Start(i, chunkEncryptor.chunkSize)
      requires dataSend == Taken(chunkEncryptor.chunkSize, offset, toSend, startIndex, i)
      modifies chunkDataProvider
      ensures Valid()
      ensures r.Ok? ==>
                && PreparedUpdate(CodecOf(chunkEncryptor), encryptedFileSize, plainFileSize, after, i, truncate && i == stopIndex, r.value)
                && CachedFor(i)
      ensures r.Err? ==> RequestFailure(r.error)
      ensures offset <= Start(i + 1, chunkEncryptor.chunkSize)
      ensures sent == Taken(chunkEncryptor.chunkSize, offset, toSend, startIndex, i + 1)
    {
      var chunkOffset, chunkData := ChunkInput(chunkEncryptor.chunkSize, offset, toSend, startIndex, i, dataSend);
      ghost var text := ChunkText(chunkEncryptor.chunkSize, plain, offset, toSend, truncate, startIndex, stopIndex, i,
                                  dataSend, chunkOffset, chunkData);
      r := CreateUpdateChunk(i, chunkOffset, chunkData, if i == stopIndex then truncate else false, text);
      sent := dataSend + |chunkData|;
    }

    /** Re-encrypts every touched chunk of the file after the write. */
    method PrepareChunks(offset: nat, toSend: Bytes, startIndex: nat, stopIndex: nat, truncate: bool,
                         ghost after: Bytes)
      returns (r: Result<seq<UpdateChunkData>, FileError>)
      requires Valid() && stopIndex < NO_SERVER_CHUNK
      requires Touches(chunkEncryptor.chunkSize, |plain|, offset, |toSend|, startIndex, stopIndex)
      requires after == Patch(plain, offset, toSend, truncate)
      modifies chunkDataProvider
      ensures Valid()
      ensures r.Ok? ==>
                && Prepared(CodecOf(chunkEncryptor), encryptedFileSize, plainFileSize, after, startIndex, stopIndex, truncate, r.value)
                && CachedFor(stopIndex)
      ensures r.Err? ==> RequestFailure(r.error)
    {
      ghost var c, fileSize, plainSize := CodecOf(chunkEncryptor), encryptedFileSize, plainFileSize;
      var updates: seq<UpdateChunkData> := [];
      var dataSend := 0;
      var i := startIndex;
      while i <= stopIndex
        invariant startIndex <= i <= stopIndex + 1 && |updates| == i - startIndex
        invariant Valid() && encryptedFileSize == fileSize && plainFileSize == plainSize
        invariant startIndex < i ==> offset <= Start(i, chunkEncryptor.chunkSize)
        invariant dataSend == Taken(chunkEncryptor.chunkSize, offset, toSend, startIndex, i)
        invariant PreparedUpTo(c, fileSize, plainSize, after, startIndex, stopIndex, truncate, updates)
        invariant startIndex < i ==> CachedFor(i - 1)
      {
        var update, sent := PrepareChunk(offset, toSend, startIndex, stopIndex, truncate, i, dataSend, after);
        if update.Err? {
          return Err(update.error);
        }
        PreparedOneMore(c, fileSize, plainSize, after, startIndex, stopIndex, truncate, updates, update.value);
        updates, dataSend, i := updates + [update.value], sent, i + 1;
      }
      PreparedAll(c, fileSize, plainSize, after, startIndex, stopIndex, truncate, updates);
      r := Ok(updates);
    }

    /** Puts the new checksums in the hash list and sums up the size changes. */
    method RecordHashes(updates: seq<UpdateChunkData>, truncate: bool, ghost size: nat, ghost start: nat)
      returns (newPlainFileSize: int, newEncryptedFileSize: int)
      requires hashList.Valid() && Consecutive(updates, size, start) && updates != []
      requires start <= hashList.size && Start(start, HMAC_SIZE) <= |hashList.hashes|
      modifies hashList
      ensures hashList.Valid() && hashList.topHashKey == old(hashList.topHashKey)
      ensures hashList.hashes == HashesWith(old(hashList.hashes), start, Chunks(updates), truncate)
      ensures newPlainFileSize == plainFileSize + SumOf(PlainChanges(updates))
      ensures newEncryptedFileSize == encryptedFileSize + SumOf(EncryptedChanges(updates))
    {
      newPlainFileSize, newEncryptedFileSize := plainFileSize, encryptedFileSize;
      ghost var before := hashList.hashes;
      for i := 0 to |updates|
        invariant hashList.Valid() && hashList.topHashKey == old(hashList.topHashKey)
        invariant hashList.size >= start + i
        invariant hashList.hashes == Recorded(before, start, updates, i, truncate)
        invariant newPlainFileSize == plainFileSize + SumOf(PlainChanges(updates)[..i])
        invariant newEncryptedFileSize == encryptedFileSize + SumOf(EncryptedChanges(updates)[..i])
      {
        var update := updates[i];
        RecordHash(update, if i == |updates| - 1 then truncate else false, updates, truncate, before, size, start, i);
        newPlainFileSize := newPlainFileSize + update.plainSizeChange;
        newEncryptedFileSize := newEncryptedFileSize + update.encryptedSizeChange;
        SumOneMore(PlainChanges(updates), i);
        SumOneMore(EncryptedChanges(updates), i);
      }
      assert PlainChanges(updates)[..|updates|] == PlainChanges(updates);
      assert EncryptedChanges(updates)[..|updates|] == EncryptedChanges(updates);
      AllRecorded(before, start, updates, truncate);
    }

    method RecordHash(update: UpdateChunkData, cut: bool, ghost updates: seq<UpdateChunkData>, ghost truncate: bool,
                      ghost before: Bytes, ghost size: nat, ghost start: nat, ghost i: nat)
      requires hashList.Valid() && Consecutive(updates, size, start) && i < |updates| && update == updates[i]
      requires cut == (truncate && i == |updates| - 1)
      requires hashList.size >= start + i && Start(start, HMAC_SIZE) <= |before|
      requires hashList.hashes == Recorded(before, start, updates, i, truncate)
      modifies hashList
      ensures hashList.Valid() && hashList.topHashKey == old(hashList.topHashKey)
      ensures hashList.size >= start + i + 1
      ensures hashList.hashes == Recorded(before, start, updates, i + 1, truncate)
    {
      WrittenStep(before, start, Hmacs(Chunks(updates)), HMAC_SIZE, i, false, cut);
      HmacSized(updates, size, start, i);
      var done := hashList.Set(update.chunkIndex, update.chunk.hmac, cut);
      assert done.Ok?;
    }

    /** Sends the squashed changes, two operations for each and at most `SERVER_OPERATIONS_LIMIT` in one
        request. Every request names the version before the write, so a second one is never accepted. */
    method UpdateOnServer(changes: seq<UpdateChanges>, meta: FileMeta, truncate: bool) returns (r: Result<(), FileError>)
      requires server.Valid() && changes != []
      modifies server
      ensures server.Valid() && Extends(server.history, old(server.history))
      ensures r.Ok? ==>
                && |changes| <= SERVER_OPERATIONS_LIMIT / 2
                && FirstRequest(changes, truncate, version, meta, old(server.version), old(server.current), server.version, server.current)
      ensures r.Err? ==>
                && RequestFailure(r.error)
                && (Untouched(old(server.version), old(server.current), server.version, server.current)
                    || FirstRequest(changes, truncate, version, meta, old(server.version), old(server.current), server.version, server.current))
    {
      var i := 0;
      while i < |changes|
        invariant 0 <= i <= |changes| && (i < |changes| ==> i % 2 == 0)
        invariant server.Valid() && Extends(server.history, old(server.history))
        invariant i == 0 ==> Untouched(old(server.version), old(server.current), server.version, server.current)
        invariant i > 0 ==>
                    && i == Min(|changes|, SERVER_OPERATIONS_LIMIT / 2)
                    && FirstRequest(changes, truncate, version, meta, old(server.version), old(server.current), server.version, server.current)
      {
        ghost var from := i;
        var operations: seq<Operation> := [];
        var j := 0;
        while j < SERVER_OPERATIONS_LIMIT / 2 && i < |changes|
          invariant 0 <= j <= SERVER_OPERATIONS_LIMIT / 2 && i == from + j <= |changes|
          invariant from == 0 ==> operations == OperationsFor(changes, i, truncate)
          decreases |changes| - i
        {
          var flag := if i == |changes| - 1 then truncate else true;
          operations := operations + [Operation(FileData, changes[i].dataPos, changes[i].data, flag),
                                      Operation(Checksum, changes[i].checksumPos, changes[i].checksum, flag)];
          i, j := i + 1, j + 1;
        }
        var sent := server.StoreFileWrite(operations, meta, version);
        if from == 0 && ApplyAll(old(server.current), operations).Some? {
          OperationsOutcome(old(server.current), changes, i, truncate);
        }
        if sent.Err? {
          return Err(ServerException(sent.error));
        }
        assert from == 0;
      }
      r := Ok(());
    }

    /** Reports every rewritten chunk to both caches. The raw cache, which held the server chunk of the
        last touched chunk before the write, holds it after the write as well. */
    method RefreshCaches(updates: seq<UpdateChunkData>, truncate: bool,
                         ghost file: Bytes, ghost start: nat, ghost stop: nat, ghost E: nat, ghost S: nat)
      requires Cut(file, updates, start, stop, E, S, chunkDataProvider)
      requires chunkDataProvider.lastServerChunk == Slice(file, S, ServerChunkOf(stop, E, S))
      modifies chunkDataProvider, chunkReader`version, chunkReader`lastChunk
      ensures chunkDataProvider.fileVersion == version && chunkReader.version == version
      ensures chunkDataProvider.lastServerChunkNumber == old(chunkDataProvider.lastServerChunkNumber)
      ensures chunkDataProvider.lastServerChunk
              == Slice(Patch(file, Start(start, E), Join(Datas(Chunks(updates))), truncate), S, ServerChunkOf(stop, E, S))
      ensures Dropped(old(chunkReader.lastChunk), chunkReader.lastChunk, start, |updates|)
    {
      ghost var parts := Datas(Chunks(updates));
      InStepAtStart(file, parts, E, S, start, stop, chunkDataProvider.lastServerChunk, truncate);
      for i := 0 to |updates|
        invariant InStep(file, parts, E, S, start, stop, i, chunkDataProvider.lastServerChunk, truncate)
        invariant chunkDataProvider.lastServerChunkNumber == old(chunkDataProvider.lastServerChunkNumber)
        invariant i > 0 ==> chunkDataProvider.fileVersion == version && chunkReader.version == version
        invariant Dropped(old(chunkReader.lastChunk), chunkReader.lastChunk, start, i)
      {
        ReportUpdate(updates[i], updates, truncate, file, start, stop, E, S, i);
      }
      InStepAtEnd(file, parts, E, S, chunkDataProvider.perServerChunk, start, stop, chunkDataProvider.lastServerChunk, truncate);
    }

    /** Reports one of the rewritten chunks. */
    method ReportUpdate(update: UpdateChunkData, ghost updates: seq<UpdateChunkData>, truncate: bool,
                        ghost file: Bytes, ghost start: nat, ghost stop: nat, ghost E: nat, ghost S: nat, ghost i: nat)
      requires Cut(file, updates, start, stop, E, S, chunkDataProvider) && i < |updates| && update == updates[i]
      requires InStep(file, Datas(Chunks(updates)), E, S, start, stop, i, chunkDataProvider.lastServerChunk, truncate)
      modifies chunkDataProvider, chunkReader`version, chunkReader`lastChunk
      ensures chunkDataProvider.fileVersion == version && chunkReader.version == version
      ensures chunkDataProvider.lastServerChunkNumber == old(chunkDataProvider.lastServerChunkNumber)
      ensures InStep(file, Datas(Chunks(updates)), E, S, start, stop, i + 1, chunkDataProvider.lastServerChunk, truncate)
      ensures chunkReader.lastChunk
              == if old(chunkReader.lastChunk).Some? && old(chunkReader.lastChunk).value.index == start + i then None
                 else old(chunkReader.lastChunk)
    {
      InStepOnUpdate(file, Datas(Chunks(updates)), E, S, chunkDataProvider.perServerChunk, start, stop, i,
                     chunkDataProvider.lastServerChunk, truncate);
      chunkDataProvider.Update(version, update.chunkIndex, update.chunk.data, encryptedFileSize, truncate);
      chunkReader.Update(version, update.chunkIndex);
    }

    /** Reports a whole write to the caches, which then fit the file as it is after the write. */
    method ReportWrite(updates: seq<UpdateChunkData>, truncate: bool, ghost file: Bytes, ghost oldPlain: Bytes,
                       ghost pos: nat, ghost toSend: Bytes, ghost start: nat, ghost stop: nat)
      requires Cut(file, updates, start, stop, chunkDataProvider.encryptedChunkSize, chunkDataProvider.serverChunkSize, chunkDataProvider)
      requires chunkDataProvider.lastServerChunk == CachedSlice(file, stop)
      requires Fresh(chunkReader.lastChunk, chunkEncryptor.chunkSize, oldPlain) && chunkEncryptor.chunkSize > 0
      requires Touches(chunkEncryptor.chunkSize, |oldPlain|, pos, |toSend|, start, stop)
      modifies chunkDataProvider, chunkReader`version, chunkReader`lastChunk
      ensures chunkDataProvider.fileVersion == version && chunkReader.version == version
      ensures chunkDataProvider.lastServerChunkNumber == old(chunkDataProvider.lastServerChunkNumber)
      ensures chunkDataProvider.lastServerChunk
              == CachedSlice(Patch(file, Start(start, chunkDataProvider.encryptedChunkSize), Join(Datas(Chunks(updates))), truncate), stop)
      ensures Fresh(chunkReader.lastChunk, chunkEncryptor.chunkSize, Patch(oldPlain, pos, toSend, truncate))
    {
      RefreshCaches(updates, truncate, file, start, stop, chunkDataProvider.encryptedChunkSize, chunkDataProvider.serverChunkSize);
      FreshAfterWrite(chunkReader.lastChunk, chunkEncryptor.chunkSize, oldPlain, pos, toSend, truncate, start, stop);
    }

    /** The metadata that a write of these updates comes with. */
    ghost function MetaAfter(updates: seq<UpdateChunkData>, truncate: bool, start: nat): FileMeta
      requires Start(start, HMAC_SIZE) <= |hashList.hashes| && plainFileSize + SumOf(PlainChanges(updates)) >= 0
      reads this, hashList
    {
      fileMeta.(hmac := chunkEncryptor.crypto.hmacSha256(fileMeta.key, HashesWith(hashList.hashes, start, Chunks(updates), truncate)),
                size := plainFileSize + SumOf(PlainChanges(updates)))
    }

    /** Records the new checksums, sends the squashed changes, and takes the checksums back if that fails. */
    method SendUpdates(updates: seq<UpdateChunkData>, truncate: bool, ghost start: nat)
      returns (r: Result<FileMeta, FileError>, newPlainFileSize: int, newEncryptedFileSize: int)
      requires Valid() && Consecutive(updates, chunkEncryptor.EncryptedChunkSize(), start) && updates != []
      requires start <= chunks && Start(start, HMAC_SIZE) <= |hashList.hashes|
      requires plainFileSize + SumOf(PlainChanges(updates)) >= 0
      modifies hashList, server
      ensures server.Valid() && Extends(server.history, old(server.history))
      ensures hashList.Valid() && hashList.topHashKey == old(hashList.topHashKey)
      ensures r.Err? ==>
                && RequestFailure(r.error) && hashList.hashes == old(hashList.hashes)
                && (Untouched(old(server.version), old(server.current), server.version, server.current)
                    || FirstRequest(Squash(updates, chunkEncryptor.EncryptedChunkSize()), truncate, version, MetaAfter(updates, truncate, start),
                                    old(server.version), old(server.current), server.version, server.current))
      ensures r.Ok? ==>
                && hashList.hashes == HashesWith(old(hashList.hashes), start, Chunks(updates), truncate)
                && newPlainFileSize == plainFileSize + SumOf(PlainChanges(updates))
                && newEncryptedFileSize == encryptedFileSize + SumOf(EncryptedChanges(updates))
                && MetaFits(chunkEncryptor.crypto, r.value, hashList.hashes, newPlainFileSize)
                && r.value.key == fileMeta.key && r.value.chunkSize == fileMeta.chunkSize
                && |Squash(updates, chunkEncryptor.EncryptedChunkSize())| <= SERVER_OPERATIONS_LIMIT / 2
                && FirstRequest(Squash(updates, chunkEncryptor.EncryptedChunkSize()), truncate, version, r.value,
                                old(server.version), old(server.current), server.version, server.current)
    {
      Unfold(CodecOf(chunkEncryptor), Snap().file, hashList.hashes, plain, chunks);
      HashInside(hashList.size, chunks);
      var oldHashList := hashList.hashes;
      newPlainFileSize, newEncryptedFileSize := RecordHashes(updates, truncate, chunkEncryptor.EncryptedChunkSize(), start);
      var squashed := CreateListOfUpdateChanges(updates, chunkEncryptor.EncryptedChunkSize());
      var topHash := hashList.GetTopHash();
      var newMeta := fileMeta.(hmac := topHash, size := newPlainFileSize);
      var sent := UpdateOnServer(squashed, newMeta, truncate);
      if sent.Err? {
        WholeEntries(oldHashList, chunks);
        var rolledBack := hashList.SetAll(oldHashList);
        return Err(sent.error), newPlainFileSize, newEncryptedFileSize;
      }
      r := Ok(newMeta);
    }

    /** Sends the updates of a whole write, which are pending for the version the handler works on. */
    method SendWrite(updates: seq<UpdateChunkData>, truncate: bool, ghost offset: nat, ghost data: Bytes, ghost start: nat, ghost stop: nat)
      returns (r: Result<FileMeta, FileError>, newPlainFileSize: int, newEncryptedFileSize: int)
      requires Valid() && Consecutive(updates, chunkEncryptor.EncryptedChunkSize(), start) && updates != []
      requires start == StartIndex(chunkEncryptor.chunkSize, plainFileSize, offset)
      requires stop == StopIndex(chunkEncryptor.chunkSize, offset + |data|, data == [])
      requires start <= chunks && Start(start, HMAC_SIZE) <= |hashList.hashes|
      requires PendingWrite(CodecOf(chunkEncryptor), Snap(), plain, chunks, WriteOffset(plainFileSize, offset),
                            ToSend(plainFileSize, offset, data), start, stop, truncate, updates)
      requires plainFileSize + SumOf(PlainChanges(updates)) == |WriteAt(plain, offset, data, truncate)|
      modifies hashList, server
      ensures server.Valid() && Extends(server.history, old(server.history))
      ensures hashList.Valid() && hashList.topHashKey == old(hashList.topHashKey)
      ensures r.Err? ==> RequestFailure(r.error) && hashList.hashes == old(hashList.hashes)
      ensures || Untouched(old(server.version), old(server.current), server.version, server.current)
              || (&& old(server.version) == version && server.version == version + 1
                  && server.current.meta.key == fileMeta.key && server.current.meta.chunkSize == fileMeta.chunkSize
                  && LeftBehind(chunkEncryptor, plain, chunks, encryptedFileSize, offset, data, truncate, server.current))
      ensures r.Ok? ==>
                && !Untouched(old(server.version), old(server.current), server.version, server.current)
                && hashList.hashes == HashesWith(old(hashList.hashes), start, Chunks(updates), truncate)
                && newPlainFileSize == plainFileSize + SumOf(PlainChanges(updates))
                && newEncryptedFileSize == encryptedFileSize + SumOf(EncryptedChanges(updates))
                && MetaFits(chunkEncryptor.crypto, r.value, hashList.hashes, newPlainFileSize)
                && r.value.key == fileMeta.key && r.value.chunkSize == fileMeta.chunkSize
                && |Squash(updates, chunkEncryptor.EncryptedChunkSize())| <= SERVER_OPERATIONS_LIMIT / 2
                && FirstRequest(Squash(updates, chunkEncryptor.EncryptedChunkSize()), truncate, version, r.value,
                                old(server.version), old(server.current), server.version, server.current)
    {
      ghost var before, meta := Snap(), MetaAfter(updates, truncate, start);
      r, newPlainFileSize, newEncryptedFileSize := SendUpdates(updates, truncate, start);
      if !Untouched(old(server.version), old(server.current), server.version, server.current) {
        FirstRequestLeaves(chunkEncryptor, before, plain, chunks, offset, data, truncate, start, stop, updates,
                           meta, version, old(server.version), server.version, server.current);
      }
    }

    /** Writes `data` at `offset`; zeros fill a gap, and what follows is dropped if `truncate`. */
    method Write(offset: nat, data: Bytes, truncate: bool) returns (r: Result<(), FileError>)
      requires Valid() && StopIndex(chunkEncryptor.chunkSize, offset + |data|, data == []) < NO_SERVER_CHUNK
      modifies this, server, chunkDataProvider, chunkReader`version, chunkReader`lastChunk, hashList
      ensures server.Valid() && Extends(server.history, old(server.history))
      // Either no request has been applied, or the first one, to the version that the handler worked on.
      ensures || Untouched(old(server.version), old(server.current), server.version, server.current)
              || (&& old(server.version) == old(version) && server.version == old(version) + 1
                  && server.current.meta.key == old(fileMeta.key) && server.current.meta.chunkSize == old(fileMeta.chunkSize)
                  && LeftBehind(chunkEncryptor, old(plain), old(chunks), old(encryptedFileSize), offset, data, truncate, server.current))
      // A failed write leaves the handler as it was, at the version it was at.
      ensures r.Err? ==>
                && RequestFailure(r.error) && Valid()
                && unchanged(this) && hashList.hashes == old(hashList.hashes)
      // An accepted one was made on the current version, in one request.
      ensures r.Ok? ==> !Untouched(old(server.version), old(server.current), server.version, server.current)
      ensures r.Ok? ==>
                && old(server.version) == old(version) && version == server.version == old(version) + 1
                && OperationCount(chunkEncryptor, old(plainFileSize), offset, data, truncate) <= SERVER_OPERATIONS_LIMIT / 2
                && plain == WriteAt(old(plain), offset, data, truncate) && plainFileSize == |plain|
      ensures fileMeta.key == old(fileMeta.key) && fileMeta.chunkSize == old(fileMeta.chunkSize)
      // It is right exactly when it keeps what follows the written range.
      ensures r.Ok? && KeepsTail(chunkEncryptor, old(plainFileSize), old(encryptedFileSize), offset, data, truncate) ==>
                && Valid()
                && chunks == ChunksAfter(old(chunks), StopIndex(chunkEncryptor.chunkSize, offset + |data|, data == []), truncate)
      ensures r.Ok? && !KeepsTail(chunkEncryptor, old(plainFileSize), old(encryptedFileSize), offset, data, truncate) ==>
                |server.current.file| < encryptedFileSize && !Valid()
    {
      var toSend, pos := ToSend(plainFileSize, offset, data), WriteOffset(plainFileSize, offset);
      var startIndex := StartIndex(chunkEncryptor.chunkSize, plainFileSize, offset);
      var stopIndex := StopIndex(chunkEncryptor.chunkSize, offset + |data|, data == []);
      ghost var before := Snap();
      WriteTouches(chunkEncryptor.chunkSize, plainFileSize, offset, data);
      WriteAtIsPatch(plain, offset, data, truncate);
      var prepared := Prepare(pos, toSend, startIndex, stopIndex, truncate);
      if prepared.Err? {
        return Err(prepared.error);
      }
      var chunksToUpdate := prepared.value;
      var sent, newPlainFileSize, newEncryptedFileSize := SendWrite(chunksToUpdate, truncate, offset, data, startIndex, stopIndex);
      if sent.Err? {
        return Err(sent.error);
      }
      AdoptWrite(chunksToUpdate, truncate, sent.value, newPlainFileSize, newEncryptedFileSize, before, offset, data, startIndex, stopIndex);
      r := Ok(());
    }

    /** Moves the handler on after an accepted write; whether it is then right depends on what was written. */
    method AdoptWrite(updates: seq<UpdateChunkData>, truncate: bool, meta: FileMeta, newPlainFileSize: nat, newEncryptedFileSize: int,
                      ghost before: Snapshot, ghost offset: nat, ghost data: Bytes, ghost start: nat, ghost stop: nat)
      requires Midway(updates, truncate, meta, newPlainFileSize, newEncryptedFileSize, before, WriteOffset(|plain|, offset),
                      ToSend(|plain|, offset, data), start, stop)
      requires start == StartIndex(chunkEncryptor.chunkSize, |plain|, offset)
      requires stop == StopIndex(chunkEncryptor.chunkSize, offset + |data|, data == [])
      modifies this, chunkDataProvider, chunkReader`version, chunkReader`lastChunk
      ensures version == old(version) + 1 == server.version && fileMeta == meta
      ensures plain == WriteAt(old(plain), offset, data, truncate) && plainFileSize == |plain|
      ensures chunks == ChunksAfter(old(chunks), stop, truncate)
      ensures OperationCount(chunkEncryptor, old(|plain|), offset, data, truncate) <= SERVER_OPERATIONS_LIMIT / 2
      ensures if KeepsTail(chunkEncryptor, old(|plain|), |before.file|, offset, data, truncate)
              then Valid() else |server.current.file| < encryptedFileSize
    {
      WriteAtIsPatch(plain, offset, data, truncate);
      WriteConditions(chunkEncryptor, before, plain, chunks, offset, data, truncate, start, stop, updates);
      Adopt(updates, truncate, meta, newPlainFileSize, newEncryptedFileSize, before, WriteOffset(|plain|, offset),
            ToSend(|plain|, offset, data), start, stop);
    }

    /** Re-encrypts the touched chunks; what the server is to do with them is then pending. */
    method Prepare(pos: nat, toSend: Bytes, startIndex: nat, stopIndex: nat, truncate: bool)
      returns (r: Result<seq<UpdateChunkData>, FileError>)
      requires Valid() && stopIndex < NO_SERVER_CHUNK
      requires Touches(chunkEncryptor.chunkSize, |plain|, pos, |toSend|, startIndex, stopIndex)
      modifies chunkDataProvider
      ensures Valid()
      ensures r.Ok? ==>
                && CachedFor(stopIndex) && chunkDataProvider.lastServerChunk == CachedSlice(Snap().file, stopIndex)
                && PendingWrite(CodecOf(chunkEncryptor), Snap(), plain, chunks, pos, toSend, startIndex, stopIndex, truncate, r.value)
                && Consecutive(r.value, chunkEncryptor.EncryptedChunkSize(), startIndex) && r.value != []
                && startIndex <= chunks && Start(startIndex, HMAC_SIZE) <= |hashList.hashes|
                && plainFileSize + SumOf(PlainChanges(r.value)) == |Patch(plain, pos, toSend, truncate)|
      ensures r.Err? ==> RequestFailure(r.error)
    {
      ghost var c, before := CodecOf(chunkEncryptor), Snap();
      r := PrepareChunks(pos, toSend, startIndex, stopIndex, truncate, Patch(plain, pos, toSend, truncate));
      if r.Err? {
        return;
      }
      ChunkInServerChunk(stopIndex, chunkDataProvider.encryptedChunkSize, chunkDataProvider.serverChunkSize,
                         chunkDataProvider.perServerChunk);
      Unfold(c, before.file, hashList.hashes, plain, chunks);
      PendingFacts(c, before, plain, chunks, pos, toSend, startIndex, stopIndex, truncate, r.value);
    }

    ghost function CachedSlice(file: Bytes, stop: nat): Bytes
      requires chunkDataProvider.serverChunkSize > 0
    {
      Slice(file, chunkDataProvider.serverChunkSize,
            ServerChunkOf(stop, chunkDataProvider.encryptedChunkSize, chunkDataProvider.serverChunkSize))
    }

    /** Between the server's acceptance of a write and the handler's own update. */
    ghost predicate Midway(updates: seq<UpdateChunkData>, truncate: bool, meta: FileMeta, newPlainFileSize: nat,
                           newEncryptedFileSize: int, before: Snapshot, pos: nat, toSend: Bytes, start: nat, stop: nat)
      reads this, server, chunkDataProvider, chunkReader, hashList
    {
      && Linked() && chunkEncryptor.Valid() && server.Valid() && hashList.Valid()
      && hashList.topHashKey == meta.key && meta.key == fileMeta.key && meta.chunkSize == fileMeta.chunkSize
      && chunkDataProvider.encryptedChunkSize == chunkEncryptor.EncryptedChunkSize() && chunkDataProvider.perServerChunk > 0
      && chunkDataProvider.serverChunkSize == Start(chunkDataProvider.perServerChunk, chunkDataProvider.encryptedChunkSize)
      && chunkDataProvider.serverChunkSize > 0
      && CachedFor(stop) && chunkDataProvider.lastServerChunk == CachedSlice(before.file, stop)
      && start <= stop < NO_SERVER_CHUNK && chunks <= NO_SERVER_CHUNK
      && Touches(chunkEncryptor.chunkSize, |plain|, pos, |toSend|, start, stop)
      && PendingWrite(CodecOf(chunkEncryptor), before, plain, chunks, pos, toSend, start, stop, truncate, updates)
      && |Squash(updates, chunkEncryptor.EncryptedChunkSize())| <= SERVER_OPERATIONS_LIMIT / 2
      && FirstRequest(Squash(updates, chunkEncryptor.EncryptedChunkSize()), truncate, version, meta, version, before,
                      server.version, server.current)
      && Start(start, HMAC_SIZE) <= |before.checksums|
      && hashList.hashes == HashesWith(before.checksums, start, Chunks(updates), truncate)
      && MetaFits(chunkEncryptor.crypto, meta, hashList.hashes, newPlainFileSize)
      && newPlainFileSize == |Patch(plain, pos, toSend, truncate)|
      && newEncryptedFileSize == |before.file| + SumOf(EncryptedChanges(updates))
      && Fresh(chunkReader.lastChunk, chunkEncryptor.chunkSize, plain)
    }

    /** Moves the handler on to the version that the server has accepted. */
    method Adopt(updates: seq<UpdateChunkData>, truncate: bool, meta: FileMeta, newPlainFileSize: nat, newEncryptedFileSize: int,
                 ghost before: Snapshot, ghost pos: nat, ghost toSend: Bytes, ghost start: nat, ghost stop: nat)
      requires Midway(updates, truncate, meta, newPlainFileSize, newEncryptedFileSize, before, pos, toSend, start, stop)
      modifies this, chunkDataProvider, chunkReader`version, chunkReader`lastChunk
      ensures version == old(version) + 1 == server.version && fileMeta == meta
      ensures plain == Patch(old(plain), pos, toSend, truncate) && plainFileSize == |plain|
      ensures chunks == ChunksAfter(old(chunks), stop, truncate)
      ensures if truncate || |before.file| <= Start(stop + 1, chunkEncryptor.EncryptedChunkSize())
                 || |Squash(updates, chunkEncryptor.EncryptedChunkSize())| == 1
              then Valid() else |server.current.file| < encryptedFileSize
    {
      OpenPending(CodecOf(chunkEncryptor), before, plain, chunks, pos, toSend, start, stop, truncate, updates, server.current);
      ChunkInServerChunk(stop, chunkDataProvider.encryptedChunkSize, chunkDataProvider.serverChunkSize,
                         chunkDataProvider.perServerChunk);
      MoveOn(updates, truncate, meta, newPlainFileSize, newEncryptedFileSize, before.file, pos, toSend, start, stop);
    }

    /** The assignments of an accepted write, and its report to the caches. */
    method MoveOn(updates: seq<UpdateChunkData>, truncate: bool, meta: FileMeta, newPlainFileSize: nat, newEncryptedFileSize: nat,
                  ghost file: Bytes, ghost pos: nat, ghost toSend: Bytes, ghost start: nat, ghost stop: nat)
      requires chunkReader.chunkDataProvider == chunkDataProvider && chunkEncryptor.chunkSize > 0
      requires Cut(file, updates, start, stop, chunkDataProvider.encryptedChunkSize, chunkDataProvider.serverChunkSize, chunkDataProvider)
      requires chunkDataProvider.lastServerChunk == CachedSlice(file, stop)
      requires Fresh(chunkReader.lastChunk, chunkEncryptor.chunkSize, plain)
      requires Touches(chunkEncryptor.chunkSize, |plain|, pos, |toSend|, start, stop)
      modifies this, chunkDataProvider, chunkReader`version, chunkReader`lastChunk
      ensures version == old(version) + 1 && fileMeta == meta
      ensures plainFileSize == newPlainFileSize && encryptedFileSize == newEncryptedFileSize
      ensures plain == Patch(old(plain), pos, toSend, truncate) && chunks == ChunksAfter(old(chunks), stop, truncate)
      ensures chunkDataProvider.fileVersion == version && chunkReader.version == version
      ensures chunkDataProvider.lastServerChunkNumber == old(chunkDataProvider.lastServerChunkNumber)
      ensures chunkDataProvider.lastServerChunk
              == CachedSlice(Patch(file, Start(start, chunkDataProvider.encryptedChunkSize), Join(Datas(Chunks(updates))), truncate), stop)
      ensures Fresh(chunkReader.lastChunk, chunkEncryptor.chunkSize, plain)
    {
      ghost var oldPlain := plain;
      version := version + 1;
      fileMeta := meta;
      plainFileSize, encryptedFileSize := newPlainFileSize, newEncryptedFileSize;
      plain, chunks := Patch(plain, pos, toSend, truncate), ChunksAfter(chunks, stop, truncate);
      ReportWrite(updates, truncate, file, oldPlain, pos, toSend, start, stop);
    }

    /** Moves the handler to another version, described by `params`. The checksums come from the server as
        it is now; if they do not match the given top hash, nothing changes. The new key goes to the hash list
        only: the chunk encryptor keeps the old one, and the handler is right exactly if they are the same (and if
        the checksums are still those of the version described). */
    method Sync(newMeta: FileMeta, params: FileDecryptionParams, ghost newPlain: Bytes, ghost newChunks: nat)
      returns (r: Result<(), FileError>)
      requires Valid()
      modifies this, chunkDataProvider, chunkReader`version, chunkReader`lastChunk, hashList
      ensures r.Err? ==> Valid() && unchanged(this) && unchanged(hashList)
      ensures r.Err? ==> r.error.ServerFailure?
                         || (r.error.HashFailure? && !Matches(chunkEncryptor.crypto, params.key, params.hmac, server.current.checksums))
      ensures r.Ok? ==> Matches(chunkEncryptor.crypto, params.key, params.hmac, server.current.checksums)
      ensures r.Ok? ==> plain == newPlain && chunks == newChunks && version == params.version && fileMeta == newMeta
      // The handler goes on with a file that it can read itself ...
      ensures r.Ok? && old(version) <= version && Describes(params, newMeta, chunkEncryptor, server, newPlain, newChunks) ==>
                (Valid() <==> server.current.checksums == server.history[version].checksums)
      // ... and is all right exactly if that file is under its own key.
      ensures r.Ok? && old(version) <= version
              && Describes(params, newMeta, EncryptorOf(chunkEncryptor.crypto, newMeta), server, newPlain, newChunks) ==>
                (Valid() && Owner() <==>
                   && newMeta.key == chunkEncryptor.key && newMeta.chunkSize == chunkEncryptor.chunkSize
                   && server.current.checksums == server.history[version].checksums)
    {
      var checksums := chunkDataProvider.GetCurrentChecksumsFromBridge();
      if checksums.Err? {
        return Err(ServerException(checksums.error));
      }
      var matched := hashList.Sync(params.key, params.hmac, checksums.value);
      if matched.Err? {
        return Err(HashFailure(matched.error));
      }
      MoveTo(newMeta, params, newPlain, newChunks);
      if Owner() {
        assert EncryptorOf(chunkEncryptor.crypto, newMeta) == chunkEncryptor;
      }
      if Describes(params, newMeta, chunkEncryptor, server, newPlain, newChunks) {
        if server.current.checksums == server.history[version].checksums {
          assert chunkReader.Valid(plain, chunks);
        }
      }
      r := Ok(());
    }

    /** The assignments of a sync. The data provider is told the old version. */
    method MoveTo(newMeta: FileMeta, params: FileDecryptionParams, ghost newPlain: Bytes, ghost newChunks: nat)
      requires chunkDataProvider.Valid() && chunkDataProvider.fileVersion <= version
      modifies this, chunkDataProvider, chunkReader`version, chunkReader`lastChunk
      ensures chunkDataProvider.Valid() && chunkDataProvider.fileVersion == old(version)
      ensures chunkReader.version == params.version && chunkReader.lastChunk == None
      ensures fileMeta == newMeta && version == params.version
      ensures plainFileSize == params.originalSize && encryptedFileSize == params.sizeOnServer
      ensures plain == newPlain && chunks == newChunks
    {
      chunkDataProvider.Sync(version, encryptedFileSize);
      chunkReader.Sync(params.version);
      fileMeta, version := newMeta, params.version;
      plainFileSize, encryptedFileSize := params.originalSize, params.sizeOnServer;
      plain, chunks := newPlain, newChunks;
    }
  }

  /** A list of checksums that the hash list accepts. */
  predicate Matches(crypto: CryptoService, key: Bytes, topHash: Bytes, hashes: Bytes) {
    crypto.hmacSha256(key, hashes) == topHash && |hashes| % HMAC_SIZE == 0
  }

  /** `params` and `meta` are those of a version of the server's file, which holds `plain`. */
  ghost predicate Describes(params: FileDecryptionParams, meta: FileMeta, ce: ChunkEncryptor, server: Server, plain: Bytes, chunks: nat)
    reads server
  {
    && params.version in server.history
    && var s := server.history[params.version];
       && meta == s.meta && params == GetFileDecryptionParams(meta, |s.file|, params.version)
       && chunks <= NO_SERVER_CHUNK
       && Described(ce, s, plain, chunks)
  }

  /** Opens the file that `params` describe. Besides a failed request, opening is refused exactly when
      the sizes disagree. */
  method Open(server: Server, ce: ChunkEncryptor, params: FileDecryptionParams, meta: FileMeta, serverChunkSize: nat,
              ghost plain: Bytes, ghost chunks: nat) returns (r: Result<Handler, FileError>)
    requires server.Valid() && serverChunkSize > 0 && params.version == server.version
    requires ce == EncryptorOf(ce.crypto, meta) && Describes(params, meta, ce, server, plain, chunks)
    ensures r.Err? ==> r.error.ServerFailure? || (r.error.FileCorrupted? && !SizesAgree(ce, params))
    ensures r.Ok? ==> SizesAgree(ce, params) && fresh(r.value) && r.value.Valid() && r.value.Owner()
                      && fresh(r.value.chunkReader) && fresh(r.value.hashList) && fresh(r.value.chunkDataProvider)
                      && r.value.server == server && r.value.chunkEncryptor == ce
                      && r.value.plain == plain && r.value.chunks == chunks && r.value.version == server.version
  {
    var provider := new Provider(server, ce.EncryptedChunkSize(), serverChunkSize, params.sizeOnServer, params.version);
    var checksums := provider.GetCurrentChecksumsFromBridge();
    if checksums.Err? {
      return Err(ServerException(checksums.error));
    }
    Unfold(CodecOf(ce), server.current.file, server.current.checksums, plain, chunks);
    WholeEntries(server.current.checksums, chunks);
    var hashList := new HmacList(ce.crypto);
    var matched := hashList.Sync(params.key, params.hmac, checksums.value);
    assert matched.Ok?;
    if !SizesAgree(ce, params) {
      return Err(FileCorrupted);
    }
    var reader := new Reader(provider, ce, hashList, params.version);
    var handler := new Handler(server, provider, ce, hashList, reader, params.originalSize, params.sizeOnServer,
                               params.version, meta, plain, chunks);
    r := Ok(handler);
  }

  /** The sizes agree, and a file can be opened again, exactly when its last chunk is not an empty one that
      a write of no bytes left behind a whole number of chunks. */
  lemma Reopens(ce: ChunkEncryptor, params: FileDecryptionParams, file: Bytes, hashes: Bytes, plain: Bytes, chunks: nat)
    requires ce.Valid() && Represents(CodecOf(ce), file, hashes, plain, chunks)
    requires params.sizeOnServer == |file| && params.originalSize == |plain|
    ensures SizesAgree(ce, params) <==> plain == [] || |plain| != Start(chunks - 1, ce.chunkSize)
  {
    if plain != [] {
      var before := chunks - 1;
      if |plain| > Start(before, ce.chunkSize) {
        ce.EncryptedFileSizeIs(|plain|, before);
      } else {
        ce.EncryptedFileSizeIs(|plain|, before - 1);
        assert Start(before, ce.EncryptedChunkSize()) == Start(before - 1, ce.EncryptedChunkSize()) + ce.EncryptedChunkSize();
      }
    }
  }

  /** Which writes leave such a chunk: those of no bytes that end on a chunk boundary where the file ends. Other
      writes that reach the end of the file remove it. */
  lemma TrailingChunkAfterWrite(c: Codec, fileSize: nat, plain: Bytes, chunks: nat, offset: nat, data: Bytes, truncate: bool)
    requires c.Valid() && Layout(c, fileSize, |plain|, chunks)
    ensures var stop := StopIndex(c.size, offset + |data|, data == []);
            var after := WriteAt(plain, offset, data, truncate);
            var chunksAfter := ChunksAfter(chunks, stop, truncate);
            |after| == Start(chunksAfter - 1, c.size) <==>
              if data == [] && PosInPiece(offset, c.size) == 0 && (truncate || offset >= |plain|) then true
              else if truncate || offset + |data| > |plain| then false
              else |plain| == Start(chunks - 1, c.size)
  {
    var end := offset + |data|;
    var stop := StopIndex(c.size, end, data == []);
    LastTouched(c.size, offset, |data|, stop);
    if !truncate {
      LayoutBound(c, fileSize, |plain|, chunks);
      if chunks > stop + 1 { StartMono(stop + 1, chunks - 1, c.size); }
      if end <= |plain| { InsideKeepsChunks(c.size, |plain|, chunks, end, stop, data == []); }
    }
  }

  /** A write that ends inside the file touches none but its chunks, unless it is one of no bytes at a last
      chunk boundary. */
  lemma InsideKeepsChunks(size: nat, plainSize: nat, chunks: nat, end: nat, stop: nat, empty: bool)
    requires size > 0 && end <= plainSize <= Start(chunks, size)
    requires Start(stop, size) <= end && (!empty ==> Start(stop, size) < end)
    ensures stop < chunks || (stop == chunks && empty && end == plainSize == Start(stop, size))
  {
    if chunks <= stop { StartMono(chunks, stop, size); }
  }

  /** A write of no bytes at the end of a file of one full chunk adds an empty chunk, which makes the
      file impossible to open. */
  lemma TrailingChunkExample(ce: ChunkEncryptor, params: FileDecryptionParams)
    requires ce.Valid() && ce.chunkSize == 0x2_0000
    requires params.originalSize == 0x2_0000 && params.sizeOnServer == ce.EncryptedChunkSize() + EncryptedLength(0)
    ensures Layout(CodecOf(ce), params.sizeOnServer, params.originalSize,
                   ChunksAfter(1, StopIndex(ce.chunkSize, 0x2_0000, true), true))
    ensures !SizesAgree(ce, params)
  {
    PieceUnique(0x2_0000, ce.chunkSize, 1);
    assert Start(1, ce.chunkSize) == 0x2_0000 && Start(1, ce.EncryptedChunkSize()) == ce.EncryptedChunkSize();
    ce.EncryptedFileSizeIs(0x2_0000, 0);
  }

  /** A cached plain chunk that the write did not touch is still right, or still past the end. */
  lemma FreshAfterWrite(cached: Option<DecryptedChunk>, size: nat, plain: Bytes, pos: nat, more: Bytes, truncate: bool,
                        start: nat, stop: nat)
    requires size > 0 && Touches(size, |plain|, pos, |more|, start, stop)
    requires Fresh(cached, size, plain)
    requires cached.Some? ==> !(start <= cached.value.index <= stop)
    ensures Fresh(cached, size, Patch(plain, pos, more, truncate))
  {
    if cached.Some? {
      var i := cached.value.index;
      if i < start {
        StartMono(i, start, size);
        SliceBefore(plain, pos, more, truncate, size, start, i);
      } else {
        StartMono(stop, i, size);
        if !truncate { SliceAfter(plain, pos, more, size, stop, i); }
      }
    }
  }

  /** The updates of chunks `start`..`stop` of `file`; the provider caches the server chunk of the last. */
  ghost predicate Cut(file: Bytes, updates: seq<UpdateChunkData>, start: nat, stop: nat, E: nat, S: nat, provider: Provider)
    reads provider
  {
    && E > 0 && S > 0 && provider.encryptedChunkSize == E && provider.serverChunkSize == S
    && provider.perServerChunk > 0 && S == Start(provider.perServerChunk, E)
    && start <= stop && |updates| == stop - start + 1
    && (forall k | 0 <= k < |updates| :: updates[k].chunkIndex == start + k)
    && Pieces(Datas(Chunks(updates)), E)
    && Start(start, E) <= |file|
    && provider.lastServerChunkNumber == Some(ServerChunkOf(stop, E, S))
  }

  /** What is left of a cached plain chunk when chunks `start`.. have been reported as rewritten. */
  ghost predicate Dropped(before: Option<DecryptedChunk>, after: Option<DecryptedChunk>, start: nat, count: nat) {
    after == if before.Some? && start <= before.value.index < start + count then None else before
  }

  /** After `i` of the chunks have been reported, the cached server chunk is in step with them. */
  ghost predicate InStep(file: Bytes, parts: seq<Bytes>, E: nat, S: nat, start: nat, stop: nat, i: nat, cached: Bytes, truncate: bool)
    requires S > 0 && i <= |parts| && Start(start, E) <= |file|
  {
    forall o: Occasion {:trigger Unfolding(o, cached, i)} :: Unfolding(o, cached, i) ==>
      Reached(Written(file, start, parts, E, i, truncate), cached, start + i, E, S, ServerChunkOf(stop, E, S), truncate)
  }

  lemma InStepAtStart(file: Bytes, parts: seq<Bytes>, E: nat, S: nat, start: nat, stop: nat, cached: Bytes, truncate: bool)
    requires S > 0 && Start(start, E) <= |file| && cached == Slice(file, S, ServerChunkOf(stop, E, S))
    ensures InStep(file, parts, E, S, start, stop, 0, cached, truncate)
  {
  }

  lemma InStepOnUpdate(file: Bytes, parts: seq<Bytes>, E: nat, S: nat, per: nat, start: nat, stop: nat, i: nat,
                       cached: Bytes, truncate: bool)
    requires E > 0 && S > 0 && per > 0 && S == Start(per, E) && Start(start, E) <= |file|
    requires Pieces(parts, E) && start + i <= stop && i < |parts|
    requires InStep(file, parts, E, S, start, stop, i, cached, truncate)
    ensures InStep(file, parts, E, S, start, stop, i + 1,
                   if ServerChunkOf(start + i, E, S) == ServerChunkOf(stop, E, S)
                   then Overlay(cached, PosInServerChunk(start + i, E, S), parts[i], truncate) else cached, truncate)
  {
    assert Unfolding(Occasion, cached, i);
    PartFits(parts, E, i);
    ServerChunkMono(start + i, stop, E, S);
    NextReached(file, parts, E, S, per, start, ServerChunkOf(stop, E, S), i, cached, truncate);
  }

  lemma NextReached(file: Bytes, parts: seq<Bytes>, E: nat, S: nat, per: nat, start: nat, N: nat, i: nat, cached: Bytes, truncate: bool)
    requires E > 0 && S > 0 && per > 0 && S == Start(per, E) && Start(start, E) <= |file|
    requires Pieces(parts, E) && i < |parts| && |parts[i]| <= E && ServerChunkOf(start + i, E, S) <= N
    requires Reached(Written(file, start, parts, E, i, truncate), cached, start + i, E, S, N, truncate)
    ensures Reached(Written(file, start, parts, E, i + 1, truncate),
                    if ServerChunkOf(start + i, E, S) == N
                    then Overlay(cached, PosInServerChunk(start + i, E, S), parts[i], truncate) else cached,
                    start + i + 1, E, S, N, truncate)
  {
    var chunk, written := start + i, Written(file, start, parts, E, i, truncate);
    WrittenStep(file, start, parts, E, i, truncate, truncate);
    UpdateKeepsReached(written, cached, chunk, parts[i], truncate, E, S, per, N);
  }

  lemma PartFits(parts: seq<Bytes>, size: nat, k: nat)
    requires Pieces(parts, size) && k < |parts|
    ensures |parts[k]| <= size
  {
    if k < |parts| - 1 { assert |parts[k]| == size; }
  }

  lemma InStepAtEnd(file: Bytes, parts: seq<Bytes>, E: nat, S: nat, per: nat, start: nat, stop: nat, cached: Bytes, truncate: bool)
    requires E > 0 && S > 0 && per > 0 && S == Start(per, E) && Start(start, E) <= |file|
    requires start <= stop && |parts| == stop - start + 1
    requires InStep(file, parts, E, S, start, stop, |parts|, cached, truncate)
    ensures cached == Slice(Patch(file, Start(start, E), Join(parts), truncate), S, ServerChunkOf(stop, E, S))
  {
    assert Unfolding(Occasion, cached, |parts|);
    assert parts[..|parts|] == parts;
    ReachedAtEnd(Written(file, start, parts, E, |parts|, truncate), cached, stop, E, S, per, truncate);
  }

  /** The hash list when the first `n` updates have been recorded. */
  ghost function Recorded(before: Bytes, start: nat, updates: seq<UpdateChunkData>, n: nat, truncate: bool): Bytes
    requires n <= |updates| && Start(start, HMAC_SIZE) <= |before|
  {
    Written(before, start, Hmacs(Chunks(updates)), HMAC_SIZE, n, truncate && n == |updates|)
  }

  lemma AllRecorded(before: Bytes, start: nat, updates: seq<UpdateChunkData>, truncate: bool)
    requires updates != [] && Start(start, HMAC_SIZE) <= |before|
    ensures Recorded(before, start, updates, |updates|, truncate) == HashesWith(before, start, Chunks(updates), truncate)
  {
    var parts := Hmacs(Chunks(updates));
    assert parts[..|updates|] == parts;
  }

  lemma SumOneMore(changes: seq<int>, i: nat)
    requires i < |changes|
    ensures SumOf(changes[..i + 1]) == SumOf(changes[..i]) + changes[i]
  {
    assert changes[..i + 1][..i] == changes[..i];
  }

  lemma HmacSized(updates: seq<UpdateChunkData>, size: nat, start: nat, k: nat)
    requires Consecutive(updates, size, start) && k < |updates|
    ensures updates[k].chunkIndex == start + k && |updates[k].chunk.hmac| == HMAC_SIZE
    ensures Hmacs(Chunks(updates))[k] == updates[k].chunk.hmac
  {
    if k < |updates| - 1 { assert |Hmacs(Chunks(updates))[k]| == HMAC_SIZE; }
  }

  /** A chunk is fetched empty exactly when it lies past the last chunk of the file. */
  lemma PreviousChunk(c: Codec, file: Bytes, hashes: Bytes, plain: Bytes, chunks: nat, index: nat)
    requires Represents(c, file, hashes, plain, chunks)
    ensures index < chunks ==> Sealed(c, index, ChunkAt(c.full(), file, hashes, index), Slice(plain, c.size, index))
    ensures index < chunks ==> Slice(file, c.full(), index) != []
    ensures index >= chunks ==> Slice(file, c.full(), index) == [] && Slice(plain, c.size, index) == []
  {
    if index < chunks {
      ContentsAt(c, file, hashes, plain, chunks, index);
      LengthGrows(c, 0, |Slice(plain, c.size, index)|);
    } else {
      LayoutEnd(c, |file|, |plain|, chunks, index);
    }
  }
}
