/** The requests of one write: what the server makes of them, whether they are all accepted or only the first. */
module ServerRequests {
  import opened ByteStrings
  import opened Results
  import opened StoreServer
  import opened CbcCipher
  import opened ChunkEncryption
  import opened EncryptedFiles
  import opened Squashing
  import opened FileWrites

  /** The two server operations for one squashed change. */
  function OperationPair(change: UpdateChanges, truncate: bool): seq<Operation> {
    [Operation(FileData, change.dataPos, change.data, truncate),
     Operation(Checksum, change.checksumPos, change.checksum, truncate)]
  }

  /** The operations for the first `n` changes. */
  function OperationsFor(changes: seq<UpdateChanges>, n: nat, truncate: bool): (r: seq<Operation>)
    requires n <= |changes|
  {
    if n == 0 then []
    else OperationsFor(changes, n - 1, truncate) + OperationPair(changes[n - 1], if n == |changes| then truncate else true)
  }

  lemma {:induction false} ApplyAllAppend(s: Snapshot, a: seq<Operation>, b: seq<Operation>)
    ensures ApplyAll(s, a + b) == match ApplyAll(s, a) case None => None case Some(t) => ApplyAll(t, b)
    decreases |a|
  {
    if a == [] {
      assert a + b == b;
    } else {
      assert (a + b)[0] == a[0] && (a + b)[1..] == a[1..] + b;
      if Apply(s, a[0]).Some? { ApplyAllAppend(Apply(s, a[0]).value, a[1..], b); }
    }
  }

  /** The first `n` changes applied to the file and to the checksums separately. */
  function PatchFile(s: Snapshot, changes: seq<UpdateChanges>, n: nat, truncate: bool): Option<Bytes>
    requires n <= |changes|
  {
    PatchAll(s.file, ChangeDatas(changes)[..n], DataPositions(changes)[..n], if n == |changes| then truncate else true)
  }

  function PatchChecksums(s: Snapshot, changes: seq<UpdateChanges>, n: nat, truncate: bool): Option<Bytes>
    requires n <= |changes|
  {
    PatchAll(s.checksums, ChangeChecksums(changes)[..n], ChecksumPositions(changes)[..n],
             if n == |changes| then truncate else true)
  }

  /** A request that the server can apply patches both of its strings as the squashed changes say. */
  lemma {:induction false} OperationsOutcome(s: Snapshot, changes: seq<UpdateChanges>, n: nat, truncate: bool)
    requires n <= |changes| && ApplyAll(s, OperationsFor(changes, n, truncate)).Some?
    ensures var t := ApplyAll(s, OperationsFor(changes, n, truncate)).value;
            PatchFile(s, changes, n, truncate) == Some(t.file) && PatchChecksums(s, changes, n, truncate) == Some(t.checksums)
  {
    if n > 0 {
      var flag := if n == |changes| then truncate else true;
      var before, pair := OperationsFor(changes, n - 1, truncate), OperationPair(changes[n - 1], flag);
      ApplyAllAppend(s, before, pair);
      OperationsOutcome(s, changes, n - 1, truncate);
      PairOutcome(ApplyAll(s, before).value, changes[n - 1], flag);
      PatchAllStep(s.file, ChangeDatas(changes), DataPositions(changes), n, flag);
      PatchAllStep(s.checksums, ChangeChecksums(changes), ChecksumPositions(changes), n, flag);
    }
  }

  lemma PairOutcome(s: Snapshot, change: UpdateChanges, flag: bool)
    requires ApplyAll(s, OperationPair(change, flag)).Some?
    ensures change.dataPos <= |s.file| && change.checksumPos <= |s.checksums|
    ensures var t := ApplyAll(s, OperationPair(change, flag)).value;
            t.file == Patch(s.file, change.dataPos, change.data, flag)
            && t.checksums == Patch(s.checksums, change.checksumPos, change.checksum, flag)
  {
    var pair := OperationPair(change, flag);
    ApplyTwo(s, pair[0], pair[1]);
  }

  lemma ApplyTwo(s: Snapshot, a: Operation, b: Operation)
    ensures ApplyAll(s, [a, b]) == match Apply(s, a) case None => None case Some(t) => Apply(t, b)
  {
    assert [a, b][1..] == [b];
    if Apply(s, a).Some? {
      assert [b][1..] == [];
      assert ApplyAll(Apply(s, a).value, [b]) == Apply(Apply(s, a).value, b);
    }
  }

  lemma PatchAllStep(s: Bytes, parts: seq<Bytes>, positions: seq<nat>, n: nat, flag: bool)
    requires |parts| == |positions| && 0 < n <= |parts|
    ensures PatchAll(s, parts[..n], positions[..n], flag) ==
            match PatchAll(s, parts[..n - 1], positions[..n - 1], true)
            case None => None
            case Some(t) => if positions[n - 1] <= |t| then Some(Patch(t, positions[n - 1], parts[n - 1], flag)) else None
  {
    assert parts[..n][..n - 1] == parts[..n - 1] && positions[..n][..n - 1] == positions[..n - 1];
  }

  /** The server has applied the first request of a write, which is all of it unless there are more changes
      than one request takes. */
  ghost predicate FirstRequest(changes: seq<UpdateChanges>, truncate: bool, version: int, meta: FileMeta,
                               oldVersion: int, before: Snapshot, newVersion: int, after: Snapshot)
  {
    var n := Min(|changes|, SERVER_OPERATIONS_LIMIT / 2);
    && oldVersion == version && newVersion == version + 1 && after.meta == meta
    && PatchFile(before, changes, n, truncate) == Some(after.file)
    && PatchChecksums(before, changes, n, truncate) == Some(after.checksums)
  }

  // ---- The outcome of a write, seen from the server's strings ----

  /** `Pending`, looked into only on demand. */
  ghost predicate PendingWrite(c: Codec, before: Snapshot, plain: Bytes, chunks: nat, pos: nat, more: Bytes,
                               start: nat, stop: nat, truncate: bool, updates: seq<UpdateChunkData>)
  {
    forall o: Occasion {:trigger Unfolding(o, more, start)} :: Unfolding(o, more, start) ==>
      Pending(c, before.file, before.checksums, plain, chunks, pos, more, start, stop, truncate, updates)
  }

  /** `KeepsTail`, in terms of the squashed operations. */
  lemma KeepsTailMeans(ce: ChunkEncryptor, fileSize: nat, plain: Bytes, offset: nat, data: Bytes, truncate: bool,
                       start: nat, stop: nat, updates: seq<UpdateChunkData>)
    requires ce.Valid()
    requires start == StartIndex(ce.chunkSize, |plain|, offset) && stop == StopIndex(ce.chunkSize, offset + |data|, data == [])
    requires Prepared(CodecOf(ce), fileSize, |plain|,
                      Patch(plain, WriteOffset(|plain|, offset), ToSend(|plain|, offset, data), truncate),
                      start, stop, truncate, updates)
    ensures KeepsTail(ce, |plain|, fileSize, offset, data, truncate) <==>
              truncate || fileSize <= Start(stop + 1, ce.EncryptedChunkSize())
              || |Squash(updates, ce.EncryptedChunkSize())| == 1
  {
    var after := Patch(plain, WriteOffset(|plain|, offset), ToSend(|plain|, offset, data), truncate);
    SpanIs(ce, |plain|, offset, data, truncate, |after|);
    OneOperation(CodecOf(ce), fileSize, |plain|, after, start, stop, truncate, updates);
  }

  lemma SpanIs(ce: ChunkEncryptor, plainSize: nat, offset: nat, data: Bytes, truncate: bool, sizeAfter: nat)
    requires ce.Valid() && sizeAfter == SizeAfter(plainSize, offset + |data|, truncate)
    ensures var start, stop := StartIndex(ce.chunkSize, plainSize, offset), StopIndex(ce.chunkSize, offset + |data|, data == []);
            && start <= stop && Start(stop, ce.chunkSize) <= sizeAfter
            && Span(ce, plainSize, offset, data, truncate)
               == Start(stop - start, ce.EncryptedChunkSize()) + LastLength(CodecOf(ce), sizeAfter, stop)
  {
    WriteTouches(ce.chunkSize, plainSize, offset, data);
  }

  /** The number of squashed operations, in terms of what a caller knows. */
  lemma OperationCountIs(ce: ChunkEncryptor, fileSize: nat, plain: Bytes, offset: nat, data: Bytes, truncate: bool,
                         start: nat, stop: nat, updates: seq<UpdateChunkData>)
    requires ce.Valid()
    requires start == StartIndex(ce.chunkSize, |plain|, offset) && stop == StopIndex(ce.chunkSize, offset + |data|, data == [])
    requires Prepared(CodecOf(ce), fileSize, |plain|,
                      Patch(plain, WriteOffset(|plain|, offset), ToSend(|plain|, offset, data), truncate),
                      start, stop, truncate, updates)
    ensures |Squash(updates, ce.EncryptedChunkSize())| == OperationCount(ce, |plain|, offset, data, truncate)
  {
    var after := Patch(plain, WriteOffset(|plain|, offset), ToSend(|plain|, offset, data), truncate);
    CountIs(ce, |plain|, offset, data, truncate, |after|);
    SquashCount(CodecOf(ce), fileSize, |plain|, after, start, stop, truncate, updates);
  }

  lemma CountIs(ce: ChunkEncryptor, plainSize: nat, offset: nat, data: Bytes, truncate: bool, sizeAfter: nat)
    requires ce.Valid() && sizeAfter == SizeAfter(plainSize, offset + |data|, truncate)
    ensures var start, stop := StartIndex(ce.chunkSize, plainSize, offset), StopIndex(ce.chunkSize, offset + |data|, data == []);
            && start <= stop && Start(stop, ce.chunkSize) <= sizeAfter
            && OperationCount(ce, plainSize, offset, data, truncate)
               == |Groups(RunLengths(stop - start, ce.EncryptedChunkSize(), LastLength(CodecOf(ce), sizeAfter, stop)))|
  {
    WriteTouches(ce.chunkSize, plainSize, offset, data);
  }

  lemma SquashCount(c: Codec, fileSize: nat, plainSize: nat, after: Bytes, start: nat, stop: nat, truncate: bool,
                    updates: seq<UpdateChunkData>)
    requires c.Valid() && Prepared(c, fileSize, plainSize, after, start, stop, truncate, updates)
    requires Start(stop, c.size) <= |after|
    ensures |Squash(updates, c.full())| == |Groups(RunLengths(stop - start, c.full(), LastLength(c, |after|, stop)))|
  {
    PreparedRun(c, fileSize, plainSize, after, start, stop, truncate, updates);
    SquashGroups(updates, c.full(), start);
    LengthsOfRun(c, fileSize, plainSize, after, start, stop, truncate, updates);
  }

  lemma LengthsOfRun(c: Codec, fileSize: nat, plainSize: nat, after: Bytes, start: nat, stop: nat, truncate: bool,
                     updates: seq<UpdateChunkData>)
    requires c.Valid() && Prepared(c, fileSize, plainSize, after, start, stop, truncate, updates)
    requires Start(stop, c.size) <= |after|
    ensures ChunkLengths(updates) == RunLengths(stop - start, c.full(), LastLength(c, |after|, stop))
  {
    EncryptedChangesAre(c, fileSize, plainSize, after, start, stop, truncate, updates);
  }

  /** The changes accepted by the server, as patches of its whole strings. */
  lemma AcceptedOutcome(c: Codec, before: Snapshot, plain: Bytes, chunks: nat, pos: nat, more: Bytes, start: nat, stop: nat,
                        truncate: bool, updates: seq<UpdateChunkData>, after: Snapshot)
    requires Pending(c, before.file, before.checksums, plain, chunks, pos, more, start, stop, truncate, updates)
    requires var changes := Squash(updates, c.full());
             && PatchFile(before, changes, |changes|, truncate) == Some(after.file)
             && PatchChecksums(before, changes, |changes|, truncate) == Some(after.checksums)
    ensures Start(start, c.full()) <= |before.file| && Start(start, HMAC_SIZE) <= |before.checksums|
    ensures var all := truncate || |Squash(updates, c.full())| > 1;
            && after.file == FileAfter(c, before.file, start, Chunks(updates), all)
            && after.checksums == HashesWith(before.checksums, start, Chunks(updates), all)
  {
    var changes := Squash(updates, c.full());
    assert ChangeDatas(changes)[..|changes|] == ChangeDatas(changes);
    assert DataPositions(changes)[..|changes|] == DataPositions(changes);
    assert ChangeChecksums(changes)[..|changes|] == ChangeChecksums(changes);
    assert ChecksumPositions(changes)[..|changes|] == ChecksumPositions(changes);
    SquashedOutcome(c, before.file, before.checksums, plain, chunks, pos, more, start, stop, truncate, updates);
  }

  /** A write that keeps the tail leaves the server with an encryption of the new plain file; any other
      leaves it with less than the handler then believes. */
  lemma WriteOutcome(c: Codec, before: Snapshot, plain: Bytes, chunks: nat, pos: nat, more: Bytes, start: nat, stop: nat,
                     truncate: bool, updates: seq<UpdateChunkData>, after: Snapshot)
    requires Pending(c, before.file, before.checksums, plain, chunks, pos, more, start, stop, truncate, updates)
    requires var changes := Squash(updates, c.full());
             && PatchFile(before, changes, |changes|, truncate) == Some(after.file)
             && PatchChecksums(before, changes, |changes|, truncate) == Some(after.checksums)
    ensures Start(start, c.full()) <= |before.file| && Start(start, HMAC_SIZE) <= |before.checksums|
    ensures |before.file| + SumOf(EncryptedChanges(updates)) == |FileAfter(c, before.file, start, Chunks(updates), truncate)|
    ensures if truncate || |before.file| <= Start(stop + 1, c.full()) || |Squash(updates, c.full())| == 1 then
              && after.file == FileAfter(c, before.file, start, Chunks(updates), truncate)
              && after.checksums == HashesWith(before.checksums, start, Chunks(updates), truncate)
              && Represents(c, after.file, after.checksums, Patch(plain, pos, more, truncate), ChunksAfter(chunks, stop, truncate))
            else |after.file| < |FileAfter(c, before.file, start, Chunks(updates), truncate)|
  {
    AcceptedOutcome(c, before, plain, chunks, pos, more, start, stop, truncate, updates, after);
    EncryptedTotal(c, before.file, plain, chunks, pos, more, start, stop, truncate, updates);
    if !truncate {
      TruncationOutcome(c, before.file, before.checksums, plain, chunks, pos, more, start, stop, updates);
    }
    PendingRewrite(c, before.file, before.checksums, plain, chunks, pos, more, start, stop, truncate, updates);
    RewriteRun(c, before.file, before.checksums, plain, chunks, pos, more, truncate, start, stop, Chunks(updates));
  }

  /** What a handler needs to know of the updates it is about to send. */
  lemma PendingFacts(c: Codec, before: Snapshot, plain: Bytes, chunks: nat, pos: nat, more: Bytes, start: nat, stop: nat,
                     truncate: bool, updates: seq<UpdateChunkData>)
    requires Represents(c, before.file, before.checksums, plain, chunks)
    requires Touches(c.size, |plain|, pos, |more|, start, stop)
    requires Prepared(c, |before.file|, |plain|, Patch(plain, pos, more, truncate), start, stop, truncate, updates)
    ensures PendingWrite(c, before, plain, chunks, pos, more, start, stop, truncate, updates)
    ensures Consecutive(updates, c.full(), start) && updates != []
    ensures start <= chunks && Start(start, HMAC_SIZE) <= |before.checksums|
    ensures |plain| + SumOf(PlainChanges(updates)) == |Patch(plain, pos, more, truncate)|
  {
    PendingRewrite(c, before.file, before.checksums, plain, chunks, pos, more, start, stop, truncate, updates);
    ChunkStarts(c, |before.file|, |plain|, chunks, start);
    PlainTotal(c, |before.file|, plain, pos, more, start, stop, truncate, updates);
  }

  /** What it needs to know once they have been accepted. */
  lemma OpenPending(c: Codec, before: Snapshot, plain: Bytes, chunks: nat, pos: nat, more: Bytes, start: nat, stop: nat,
                    truncate: bool, updates: seq<UpdateChunkData>, after: Snapshot)
    requires PendingWrite(c, before, plain, chunks, pos, more, start, stop, truncate, updates)
    requires var changes := Squash(updates, c.full());
             && PatchFile(before, changes, |changes|, truncate) == Some(after.file)
             && PatchChecksums(before, changes, |changes|, truncate) == Some(after.checksums)
    ensures pos <= |plain| && start <= stop && |updates| == stop - start + 1 && Consecutive(updates, c.full(), start)
    ensures Start(start, c.full()) <= |before.file| && Start(start, HMAC_SIZE) <= |before.checksums|
    ensures |before.file| + SumOf(EncryptedChanges(updates)) == |FileAfter(c, before.file, start, Chunks(updates), truncate)|
    ensures if truncate || |before.file| <= Start(stop + 1, c.full()) || |Squash(updates, c.full())| == 1 then
              && after.file == FileAfter(c, before.file, start, Chunks(updates), truncate)
              && after.checksums == HashesWith(before.checksums, start, Chunks(updates), truncate)
              && Holds(c, after.file, after.checksums, Patch(plain, pos, more, truncate), ChunksAfter(chunks, stop, truncate))
            else |after.file| < |FileAfter(c, before.file, start, Chunks(updates), truncate)|
  {
    assert Unfolding(Occasion, more, start);
    WriteOutcome(c, before, plain, chunks, pos, more, start, stop, truncate, updates, after);
    PendingRewrite(c, before.file, before.checksums, plain, chunks, pos, more, start, stop, truncate, updates);
    Unfold(c, after.file, after.checksums, Patch(plain, pos, more, truncate), ChunksAfter(chunks, stop, truncate));
  }

  /** The caller's conditions on the write, in terms of its squashed operations. */
  lemma WriteConditions(ce: ChunkEncryptor, before: Snapshot, plain: Bytes, chunks: nat, offset: nat, data: Bytes, truncate: bool,
                        start: nat, stop: nat, updates: seq<UpdateChunkData>)
    requires ce.Valid()
    requires start == StartIndex(ce.chunkSize, |plain|, offset) && stop == StopIndex(ce.chunkSize, offset + |data|, data == [])
    requires PendingWrite(CodecOf(ce), before, plain, chunks, WriteOffset(|plain|, offset), ToSend(|plain|, offset, data),
                          start, stop, truncate, updates)
    ensures |Squash(updates, ce.EncryptedChunkSize())| == OperationCount(ce, |plain|, offset, data, truncate)
    ensures KeepsTail(ce, |plain|, |before.file|, offset, data, truncate) <==>
              truncate || |before.file| <= Start(stop + 1, ce.EncryptedChunkSize())
              || |Squash(updates, ce.EncryptedChunkSize())| == 1
  {
    assert Unfolding(Occasion, ToSend(|plain|, offset, data), start);
    KeepsTailMeans(ce, |before.file|, plain, offset, data, truncate, start, stop, updates);
    OperationCountIs(ce, |before.file|, plain, offset, data, truncate, start, stop, updates);
  }

  // ---- What the first of several requests leaves behind ----

  /** The first `k` of several contiguous parts end where the next one starts. */
  lemma PrefixOutcome(s: Bytes, parts: seq<Bytes>, positions: seq<nat>, k: nat)
    requires Contiguous(parts, positions) && 0 < k < |parts| && positions[0] <= |s|
    ensures PatchAll(s, parts[..k], positions[..k], true).Some?
    ensures |PatchAll(s, parts[..k], positions[..k], true).value| == positions[k]
  {
    PatchAllOutcome(s, parts[..k], positions[..k], true);
    ContiguousEnd(parts[..k], positions[..k]);
    assert positions[k] == positions[k - 1] + |parts[k - 1]|;
  }

  lemma CutAtThird(before: Snapshot, changes: seq<UpdateChanges>, truncate: bool, after: Snapshot)
    requires |changes| > 2
    requires Contiguous(ChangeDatas(changes), DataPositions(changes)) && changes[0].dataPos <= |before.file|
    requires Contiguous(ChangeChecksums(changes), ChecksumPositions(changes)) && changes[0].checksumPos <= |before.checksums|
    requires PatchFile(before, changes, 2, truncate) == Some(after.file)
    requires PatchChecksums(before, changes, 2, truncate) == Some(after.checksums)
    ensures |after.file| == changes[2].dataPos && |after.checksums| == changes[2].checksumPos
  {
    PrefixOutcome(before.file, ChangeDatas(changes), DataPositions(changes), 2);
    PrefixOutcome(before.checksums, ChangeChecksums(changes), ChecksumPositions(changes), 2);
  }

  /** Where the change after the first two starts: at a touched chunk that they did not reach. */
  lemma ThirdChange(updates: seq<UpdateChunkData>, size: nat, start: nat) returns (reached: nat)
    requires Consecutive(updates, size, start) && updates != [] && |Squash(updates, size)| > 2
    ensures reached < |updates|
    ensures Squash(updates, size)[2].dataPos == Start(start + reached, size)
    ensures Squash(updates, size)[2].checksumPos == Start(start + reached, HMAC_SIZE)
  {
    var changes := Squash(updates, size);
    var cuts := SquashPartitions(updates, size, start);
    reached := cuts[2];
    assert RunOf(changes, updates, size, cuts, 2);
  }

  /** After the first request of several, the server has lost every chunk that it did not reach. */
  lemma ShortRequest(c: Codec, before: Snapshot, plain: Bytes, chunks: nat, pos: nat, more: Bytes, start: nat, stop: nat,
                     truncate: bool, updates: seq<UpdateChunkData>, after: Snapshot) returns (reached: nat)
    requires Pending(c, before.file, before.checksums, plain, chunks, pos, more, start, stop, truncate, updates)
    requires var changes := Squash(updates, c.full());
             && |changes| > 2
             && PatchFile(before, changes, 2, truncate) == Some(after.file)
             && PatchChecksums(before, changes, 2, truncate) == Some(after.checksums)
    ensures reached <= stop
    ensures |after.file| == Start(reached, c.full()) && |after.checksums| == Start(reached, HMAC_SIZE)
  {
    var changes := Squash(updates, c.full());
    PendingRewrite(c, before.file, before.checksums, plain, chunks, pos, more, start, stop, truncate, updates);
    SquashContiguous(updates, c.full(), start);
    var third := ThirdChange(updates, c.full(), start);
    CutAtThird(before, changes, truncate, after);
    reached := start + third;
  }

  /** The checksum list tells how much plain text there can be. */
  lemma PlainBound(c: Codec, file: Bytes, hashes: Bytes, plain: Bytes, chunks: nat, reached: nat)
    requires Represents(c, file, hashes, plain, chunks) && |hashes| == Start(reached, HMAC_SIZE)
    ensures chunks == reached && |plain| <= Start(reached, c.size)
  {
    HashesDetermine(chunks, reached);
    LayoutBound(c, |file|, |plain|, chunks);
  }

  /** The metadata fits a file of `size` bytes with these checksums, under the key that it names itself. */
  predicate MetaFits(crypto: CryptoService, meta: FileMeta, checksums: Bytes, size: nat) {
    meta.hmac == crypto.hmacSha256(meta.key, checksums) && meta.size == size
  }

  /** The encryptor that the metadata of a file call for. */
  function EncryptorOf(crypto: CryptoService, meta: FileMeta): ChunkEncryptor {
    ChunkEncryptor(crypto, meta.key, meta.chunkSize)
  }

  /** The metadata fits the file `plain`, and the server holds that file, as this encryptor sees it. */
  ghost predicate Described(ce: ChunkEncryptor, s: Snapshot, plain: Bytes, chunks: nat) {
    && ce.Valid()
    && MetaFits(ce.crypto, s.meta, s.checksums, |plain|)
    && Holds(CodecOf(ce), s.file, s.checksums, plain, chunks)
  }

  /** The metadata is that of a longer checksum list, and of more plain text than the server can hold. Only a
      write of no bytes may leave as much as it says. */
  ghost predicate CutOff(ce: ChunkEncryptor, s: Snapshot, empty: bool) {
    && ce.Valid()
    && (exists hashes :: |s.checksums| < |hashes| && s.meta.hmac == ce.crypto.hmacSha256(s.meta.key, hashes))
    && (forall plain, chunks :: Represents(CodecOf(ce), s.file, s.checksums, plain, chunks) ==>
          |plain| < s.meta.size || (empty && |plain| == s.meta.size))
  }

  /** Whether a write leaves the server with the new file, once any of its requests has been applied. */
  lemma RequestOutcome(ce: ChunkEncryptor, before: Snapshot, plain: Bytes, chunks: nat, pos: nat, more: Bytes,
                       start: nat, stop: nat, truncate: bool, updates: seq<UpdateChunkData>, after: Snapshot, empty: bool)
    requires ce.Valid()
    requires PendingWrite(CodecOf(ce), before, plain, chunks, pos, more, start, stop, truncate, updates)
    requires Start(start, HMAC_SIZE) <= |before.checksums| && pos <= |plain|
    requires MetaFits(ce.crypto, after.meta, HashesWith(before.checksums, start, Chunks(updates), truncate),
                                    |Patch(plain, pos, more, truncate)|)
    requires var changes := Squash(updates, ce.EncryptedChunkSize());
             var n := Min(|changes|, SERVER_OPERATIONS_LIMIT / 2);
             && PatchFile(before, changes, n, truncate) == Some(after.file)
             && PatchChecksums(before, changes, n, truncate) == Some(after.checksums)
    requires !empty ==> Start(stop, ce.chunkSize) < pos + |more|
    ensures var ops := |Squash(updates, ce.EncryptedChunkSize())|;
            && (ops > SERVER_OPERATIONS_LIMIT / 2 ==> CutOff(ce, after, empty))
            && (Described(ce, after, Patch(plain, pos, more, truncate), ChunksAfter(chunks, stop, truncate)) <==>
                  && ops <= SERVER_OPERATIONS_LIMIT / 2
                  && (truncate || |before.file| <= Start(stop + 1, ce.EncryptedChunkSize()) || ops == 1))
  {
    if |Squash(updates, ce.EncryptedChunkSize())| > SERVER_OPERATIONS_LIMIT / 2 {
      ShortOutcome(ce, before, plain, chunks, pos, more, start, stop, truncate, updates, after, empty);
    } else {
      OpenPending(CodecOf(ce), before, plain, chunks, pos, more, start, stop, truncate, updates, after);
      if !(truncate || |before.file| <= Start(stop + 1, ce.EncryptedChunkSize()) || |Squash(updates, ce.EncryptedChunkSize())| == 1) {
        LongOutcome(ce, before, plain, chunks, pos, more, start, stop, truncate, updates, after);
      }
    }
  }

  /** What a write leaves on the server once any of its requests has been applied: the new file with metadata
      that fits, exactly if the write is a faithful one; a cut off file if it needs several requests. */
  ghost predicate WriteLeaves(ce: ChunkEncryptor, plain: Bytes, chunks: nat, encryptedSize: nat, offset: nat, data: Bytes,
                              truncate: bool, s: Snapshot)
    requires ce.chunkSize > 0
  {
    && (Described(ce, s, WriteAt(plain, offset, data, truncate),
                  ChunksAfter(chunks, StopIndex(ce.chunkSize, offset + |data|, data == []), truncate))
        <==> Faithful(ce, |plain|, encryptedSize, offset, data, truncate))
    && (OperationCount(ce, |plain|, offset, data, truncate) > SERVER_OPERATIONS_LIMIT / 2 ==> CutOff(ce, s, data == []))
  }

  /** `WriteLeaves`, looked into only on demand. */
  ghost predicate LeftBehind(ce: ChunkEncryptor, plain: Bytes, chunks: nat, encryptedSize: nat, offset: nat, data: Bytes,
                             truncate: bool, s: Snapshot)
  {
    forall o: Occasion {:trigger Unfolding(o, data, offset)} :: Unfolding(o, data, offset) ==>
      ce.chunkSize > 0 && WriteLeaves(ce, plain, chunks, encryptedSize, offset, data, truncate, s)
  }

  lemma OpenLeft(ce: ChunkEncryptor, plain: Bytes, chunks: nat, encryptedSize: nat, offset: nat, data: Bytes,
                 truncate: bool, s: Snapshot)
    requires LeftBehind(ce, plain, chunks, encryptedSize, offset, data, truncate, s)
    ensures ce.chunkSize > 0 && WriteLeaves(ce, plain, chunks, encryptedSize, offset, data, truncate, s)
  {
    assert Unfolding(Occasion, data, offset);
  }

  lemma FirstRequestResult(ce: ChunkEncryptor, before: Snapshot, plain: Bytes, chunks: nat, offset: nat, data: Bytes, truncate: bool,
                           start: nat, stop: nat, updates: seq<UpdateChunkData>, meta: FileMeta,
                           version: int, oldVersion: int, newVersion: int, after: Snapshot)
    requires ce.Valid()
    requires start == StartIndex(ce.chunkSize, |plain|, offset) && stop == StopIndex(ce.chunkSize, offset + |data|, data == [])
    requires PendingWrite(CodecOf(ce), before, plain, chunks, WriteOffset(|plain|, offset), ToSend(|plain|, offset, data),
                          start, stop, truncate, updates)
    requires Start(start, HMAC_SIZE) <= |before.checksums|
    requires FirstRequest(Squash(updates, ce.EncryptedChunkSize()), truncate, version, meta, oldVersion, before, newVersion, after)
    requires MetaFits(ce.crypto, meta, HashesWith(before.checksums, start, Chunks(updates), truncate),
                              |WriteAt(plain, offset, data, truncate)|)
    ensures WriteLeaves(ce, plain, chunks, |before.file|, offset, data, truncate, after)
  {
    var pos, more := WriteOffset(|plain|, offset), ToSend(|plain|, offset, data);
    WriteAtIsPatch(plain, offset, data, truncate);
    LastTouched(ce.chunkSize, offset, |data|, stop);
    WriteConditions(ce, before, plain, chunks, offset, data, truncate, start, stop, updates);
    RequestOutcome(ce, before, plain, chunks, pos, more, start, stop, truncate, updates, after, data == []);
  }

  lemma FirstRequestLeaves(ce: ChunkEncryptor, before: Snapshot, plain: Bytes, chunks: nat, offset: nat, data: Bytes, truncate: bool,
                           start: nat, stop: nat, updates: seq<UpdateChunkData>, meta: FileMeta,
                           version: int, oldVersion: int, newVersion: int, after: Snapshot)
    requires ce.Valid()
    requires start == StartIndex(ce.chunkSize, |plain|, offset) && stop == StopIndex(ce.chunkSize, offset + |data|, data == [])
    requires PendingWrite(CodecOf(ce), before, plain, chunks, WriteOffset(|plain|, offset), ToSend(|plain|, offset, data),
                          start, stop, truncate, updates)
    requires Start(start, HMAC_SIZE) <= |before.checksums|
    requires FirstRequest(Squash(updates, ce.EncryptedChunkSize()), truncate, version, meta, oldVersion, before, newVersion, after)
    requires MetaFits(ce.crypto, meta, HashesWith(before.checksums, start, Chunks(updates), truncate),
                              |WriteAt(plain, offset, data, truncate)|)
    ensures LeftBehind(ce, plain, chunks, |before.file|, offset, data, truncate, after)
  {
    FirstRequestResult(ce, before, plain, chunks, offset, data, truncate, start, stop, updates, meta, version, oldVersion, newVersion,
                       after);
  }

  lemma ShortOutcome(ce: ChunkEncryptor, before: Snapshot, plain: Bytes, chunks: nat, pos: nat, more: Bytes,
                     start: nat, stop: nat, truncate: bool, updates: seq<UpdateChunkData>, after: Snapshot, empty: bool)
    requires ce.Valid()
    requires PendingWrite(CodecOf(ce), before, plain, chunks, pos, more, start, stop, truncate, updates)
    requires Start(start, HMAC_SIZE) <= |before.checksums| && pos <= |plain|
    requires MetaFits(ce.crypto, after.meta, HashesWith(before.checksums, start, Chunks(updates), truncate),
                                    |Patch(plain, pos, more, truncate)|)
    requires var changes := Squash(updates, ce.EncryptedChunkSize());
             && |changes| > 2
             && PatchFile(before, changes, 2, truncate) == Some(after.file)
             && PatchChecksums(before, changes, 2, truncate) == Some(after.checksums)
    requires !empty ==> Start(stop, ce.chunkSize) < pos + |more|
    ensures CutOff(ce, after, empty)
    ensures !Described(ce, after, Patch(plain, pos, more, truncate), ChunksAfter(chunks, stop, truncate))
  {
    assert Unfolding(Occasion, more, start);
    var c, newPlain, newChunks := CodecOf(ce), Patch(plain, pos, more, truncate), ChunksAfter(chunks, stop, truncate);
    var reached := ShortRequest(c, before, plain, chunks, pos, more, start, stop, truncate, updates, after);
    PendingRewrite(c, before.file, before.checksums, plain, chunks, pos, more, start, stop, truncate, updates);
    RewriteLengths(c, before.file, before.checksums, plain, chunks, pos, more, truncate, start, stop, Chunks(updates));
    var hashes := HashesWith(before.checksums, start, Chunks(updates), truncate);
    StartMono(reached, newChunks, HMAC_SIZE);
    assert |after.checksums| < |hashes|;
    forall q, n | Represents(c, after.file, after.checksums, q, n)
      ensures |q| < |newPlain| || (empty && |q| == |newPlain|)
      ensures n == reached
    {
      PlainBound(c, after.file, after.checksums, q, n, reached);
      StartMono(reached, stop, c.size);
    }
    Unfold(c, after.file, after.checksums, newPlain, newChunks);
  }

  lemma LongOutcome(ce: ChunkEncryptor, before: Snapshot, plain: Bytes, chunks: nat, pos: nat, more: Bytes,
                    start: nat, stop: nat, truncate: bool, updates: seq<UpdateChunkData>, after: Snapshot)
    requires ce.Valid()
    requires PendingWrite(CodecOf(ce), before, plain, chunks, pos, more, start, stop, truncate, updates)
    requires Start(start, HMAC_SIZE) <= |before.checksums| && pos <= |plain|
    requires Start(start, ce.EncryptedChunkSize()) <= |before.file|
    requires |after.file| < |FileAfter(CodecOf(ce), before.file, start, Chunks(updates), truncate)|
    ensures !Described(ce, after, Patch(plain, pos, more, truncate), ChunksAfter(chunks, stop, truncate))
  {
    assert Unfolding(Occasion, more, start);
    var c, newPlain, newChunks := CodecOf(ce), Patch(plain, pos, more, truncate), ChunksAfter(chunks, stop, truncate);
    PendingRewrite(c, before.file, before.checksums, plain, chunks, pos, more, start, stop, truncate, updates);
    RewriteLengths(c, before.file, before.checksums, plain, chunks, pos, more, truncate, start, stop, Chunks(updates));
    Unfold(c, after.file, after.checksums, newPlain, newChunks);
  }
}
