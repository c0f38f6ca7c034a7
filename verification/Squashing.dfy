/** Grouping the per-chunk updates of one write into few server operations, and what those
    operations do to the server's byte strings. */
module Squashing {
  import opened ByteStrings
  import opened Results
  import opened ChunkEncryption
  import opened EncryptedFiles

  const SERVER_OPERATIONS_LIMIT := 4
  const SERVER_OPERATION_SIZE_LIMIT := 512 * 1024

  datatype UpdateChunkData = UpdateChunkData(chunk: Chunk, chunkIndex: nat, plainSizeChange: int, encryptedSizeChange: int)

  datatype UpdateChanges = UpdateChanges(data: Bytes, dataPos: nat, checksum: Bytes, checksumPos: nat)

  function Single(u: UpdateChunkData, size: nat): UpdateChanges {
    UpdateChanges(u.chunk.data, Start(u.chunkIndex, size), u.chunk.hmac, Start(u.chunkIndex, HMAC_SIZE))
  }

  /** Whether the next chunk joins the last operation. */
  predicate Joins(last: UpdateChanges, u: UpdateChunkData, size: nat) {
    && last.dataPos + |last.data| == Start(u.chunkIndex, size)
    && |last.data| + |u.chunk.data| < SERVER_OPERATION_SIZE_LIMIT
  }

  function Absorb(changes: seq<UpdateChanges>, u: UpdateChunkData, size: nat): (r: seq<UpdateChanges>)
    requires changes != []
    ensures r != []
  {
    var last := changes[|changes| - 1];
    if Joins(last, u, size) then
      changes[|changes| - 1 := last.(data := last.data + u.chunk.data, checksum := last.checksum + u.chunk.hmac)]
    else changes + [Single(u, size)]
  }

  /** The operations for a list of updates. */
  function Squash(updates: seq<UpdateChunkData>, size: nat): (r: seq<UpdateChanges>)
    ensures updates != [] ==> r != []
  {
    if updates == [] then []
    else if |updates| == 1 then [Single(updates[0], size)]
    else Absorb(Squash(updates[..|updates| - 1], size), updates[|updates| - 1], size)
  }

  method CreateListOfUpdateChanges(updates: seq<UpdateChunkData>, size: nat) returns (result: seq<UpdateChanges>)
    ensures result == Squash(updates, size)
  {
    if |updates| == 0 {
      return [];
    }
    result := [Single(updates[0], size)];
    var i := 1;
    assert updates[..1] == [updates[0]];
    while i < |updates|
      invariant 1 <= i <= |updates|
      invariant result == Squash(updates[..i], size)
    {
      var u, last := updates[i], result[|result| - 1];
      assert updates[..i + 1][..i] == updates[..i];
      if last.dataPos + |last.data| == Start(u.chunkIndex, size)
         && |last.data| + |u.chunk.data| < SERVER_OPERATION_SIZE_LIMIT {
        result := result[|result| - 1 := UpdateChanges(last.data + u.chunk.data, last.dataPos,
                                                       last.checksum + u.chunk.hmac, last.checksumPos)];
      } else {
        result := result + [UpdateChanges(u.chunk.data, Start(u.chunkIndex, size), u.chunk.hmac, Start(u.chunkIndex, HMAC_SIZE))];
      }
      i := i + 1;
    }
    assert updates[..i] == updates;
  }

  // ---- What the operations say, taken together ----

  function ChangeDatas(changes: seq<UpdateChanges>): (r: seq<Bytes>)
    ensures |r| == |changes|
    ensures forall i | 0 <= i < |r| :: r[i] == changes[i].data
  {
    seq(|changes|, i requires 0 <= i < |changes| => changes[i].data)
  }

  function ChangeChecksums(changes: seq<UpdateChanges>): (r: seq<Bytes>)
    ensures |r| == |changes|
    ensures forall i | 0 <= i < |r| :: r[i] == changes[i].checksum
  {
    seq(|changes|, i requires 0 <= i < |changes| => changes[i].checksum)
  }

  function Chunks(updates: seq<UpdateChunkData>): (r: seq<Chunk>)
    ensures |r| == |updates|
    ensures forall i | 0 <= i < |r| :: r[i] == updates[i].chunk
  {
    seq(|updates|, i requires 0 <= i < |updates| => updates[i].chunk)
  }

  /** The updates of one write: consecutive chunks, all full but the last. */
  ghost predicate Consecutive(updates: seq<UpdateChunkData>, size: nat, start: nat) {
    && (forall k | 0 <= k < |updates| :: updates[k].chunkIndex == start + k)
    && Pieces(Datas(Chunks(updates)), size)
    && Pieces(Hmacs(Chunks(updates)), HMAC_SIZE)
    && (updates != [] ==> |updates[|updates| - 1].chunk.hmac| == HMAC_SIZE)
  }

  /** The operation rewrites exactly the updated chunks `from`..`to - 1`, at their place in the file
      and in the checksum list; if there are several, it stays below the size limit. */
  ghost predicate Covers(change: UpdateChanges, updates: seq<UpdateChunkData>, size: nat, from: nat, to: nat) {
    && from < to <= |updates|
    && change.dataPos == Start(updates[from].chunkIndex, size)
    && change.checksumPos == Start(updates[from].chunkIndex, HMAC_SIZE)
    && change.data == Join(Datas(Chunks(updates[from..to])))
    && change.checksum == Join(Hmacs(Chunks(updates[from..to])))
    && (to - from > 1 ==> |change.data| < SERVER_OPERATION_SIZE_LIMIT)
  }

  /** Another chunk would have taken the operation to the size limit. */
  ghost predicate Full(change: UpdateChanges, updates: seq<UpdateChunkData>, next: nat) {
    next < |updates| ==> |change.data| + |updates[next].chunk.data| >= SERVER_OPERATION_SIZE_LIMIT
  }

  /** `cuts` splits the updates into the runs that the operations cover, in order, each as long as
      the size limit allows. */
  ghost predicate Partition(changes: seq<UpdateChanges>, updates: seq<UpdateChunkData>, size: nat, cuts: seq<nat>) {
    && |cuts| == |changes| + 1 && cuts[0] == 0 && cuts[|changes|] == |updates|
    && forall j: nat | j < |changes| :: RunOf(changes, updates, size, cuts, j)
  }

  /** Run `j` of a partition. */
  ghost predicate RunOf(changes: seq<UpdateChanges>, updates: seq<UpdateChunkData>, size: nat, cuts: seq<nat>, j: nat)
    requires j < |changes| && |cuts| == |changes| + 1
  {
    Covers(changes[j], updates, size, cuts[j], cuts[j + 1]) && Full(changes[j], updates, cuts[j + 1])
  }

  lemma JoinStep(updates: seq<UpdateChunkData>, from: nat, to: nat)
    requires from <= to < |updates|
    ensures Join(Datas(Chunks(updates[from..to + 1]))) == Join(Datas(Chunks(updates[from..to]))) + updates[to].chunk.data
    ensures Join(Hmacs(Chunks(updates[from..to + 1]))) == Join(Hmacs(Chunks(updates[from..to]))) + updates[to].chunk.hmac
  {
    var longer, shorter := Chunks(updates[from..to + 1]), Chunks(updates[from..to]);
    JoinMore(Datas(shorter), Datas(longer), updates[to].chunk.data);
    JoinMore(Hmacs(shorter), Hmacs(longer), updates[to].chunk.hmac);
  }

  lemma JoinMore(parts: seq<Bytes>, more: seq<Bytes>, last: Bytes)
    requires |more| == |parts| + 1 && more[|parts|] == last && forall k | 0 <= k < |parts| :: more[k] == parts[k]
    ensures Join(more) == Join(parts) + last
  {
    assert more[..|parts|] == parts;
  }

  /** A run that is followed by another chunk consists of full chunks only. */
  lemma CoveredLength(updates: seq<UpdateChunkData>, size: nat, start: nat, from: nat, to: nat)
    requires Consecutive(updates, size, start) && from < to < |updates|
    ensures |Join(Datas(Chunks(updates[from..to])))| == Start(to - from, size)
    ensures Start(updates[from].chunkIndex, size) + Start(to - from, size) == Start(updates[to].chunkIndex, size)
  {
    forall k: nat | k < to - from ensures |Datas(Chunks(updates[from..to]))[k]| == size {
      CoveredPiece(updates, size, start, from, to, k);
    }
    FullPieces(Datas(Chunks(updates[from..to])), size);
    CoveredPositions(updates, size, start, from, to);
  }

  lemma CoveredPiece(updates: seq<UpdateChunkData>, size: nat, start: nat, from: nat, to: nat, k: nat)
    requires Consecutive(updates, size, start) && from < to < |updates| && k < to - from
    ensures |Datas(Chunks(updates[from..to]))[k]| == size
  {
    assert |Datas(Chunks(updates))[from + k]| == size;
  }

  lemma CoveredPositions(updates: seq<UpdateChunkData>, size: nat, start: nat, from: nat, to: nat)
    requires Consecutive(updates, size, start) && from < to < |updates|
    ensures Start(updates[from].chunkIndex, size) + Start(to - from, size) == Start(updates[to].chunkIndex, size)
  {
    StartSum(start + from, to - from, size);
  }

  lemma FullPieces(run: seq<Bytes>, size: nat)
    requires forall k | 0 <= k < |run| :: |run[k]| == size
    ensures |Join(run)| == Start(|run|, size)
  {
    if run != [] { JoinLength(run, size); }
  }

  /** A string after the first `k` parts of a run of full pieces have been written to it. */
  function Written(s: Bytes, start: nat, parts: seq<Bytes>, size: nat, k: nat, truncate: bool): Bytes
    requires k <= |parts| && Start(start, size) <= |s|
  {
    if k == 0 then s else Patch(s, Start(start, size), Join(parts[..k]), truncate)
  }

  /** Writing the parts one by one, each at its own place, is writing their concatenation. */
  lemma WrittenStep(s: Bytes, start: nat, parts: seq<Bytes>, size: nat, k: nat, first: bool, truncate: bool)
    requires Pieces(parts, size) && k < |parts| && Start(start, size) <= |s|
    requires first ==> truncate
    ensures Start(start + k, size) <= |Written(s, start, parts, size, k, first)|
    ensures Patch(Written(s, start, parts, size, k, first), Start(start + k, size), parts[k], truncate)
            == Written(s, start, parts, size, k + 1, truncate)
  {
    var joined, at := Join(parts[..k]), Start(start, size);
    JoinMore(parts[..k], parts[..k + 1], parts[k]);
    FullPieces(parts[..k], size);
    StartSum(start, k, size);
    if k > 0 {
      NextPatch(s, at, Start(start + k, size), joined, parts[k], first, truncate);
    } else {
      assert joined + parts[0] == parts[0];
    }
  }

  /** A part written where the one before it ended. */
  lemma NextPatch(s: Bytes, at: nat, next: nat, joined: Bytes, part: Bytes, first: bool, truncate: bool)
    requires at <= |s| && next == at + |joined| && (first ==> truncate)
    ensures next <= |Patch(s, at, joined, first)|
    ensures Patch(Patch(s, at, joined, first), next, part, truncate) == Patch(s, at, joined + part, truncate)
  {
    PatchTwice(s, at, joined, part, first, truncate);
  }

  lemma ConsecutiveFront(updates: seq<UpdateChunkData>, size: nat, start: nat)
    requires Consecutive(updates, size, start) && |updates| > 1
    ensures Consecutive(updates[..|updates| - 1], size, start)
  {
    var n := |updates| - 1;
    assert Datas(Chunks(updates[..n])) == Datas(Chunks(updates))[..n];
    assert Hmacs(Chunks(updates[..n])) == Hmacs(Chunks(updates))[..n];
    assert Hmacs(Chunks(updates))[n - 1] == updates[n - 1].chunk.hmac;
  }

  /** Squashing preserves meaning: the operations cover the updates, chunk for chunk. */
  lemma {:induction false} SquashPartitions(updates: seq<UpdateChunkData>, size: nat, start: nat) returns (cuts: seq<nat>)
    requires Consecutive(updates, size, start) && updates != []
    ensures Partition(Squash(updates, size), updates, size, cuts)
  {
    var n := |updates| - 1;
    JoinStep(updates, n, n);
    assert Join(Datas(Chunks(updates[n..n]))) == [] && Join(Hmacs(Chunks(updates[n..n]))) == [];
    if n == 0 {
      cuts := [0, 1];
      assert RunOf(Squash(updates, size), updates, size, cuts, 0);
    } else {
      ConsecutiveFront(updates, size, start);
      cuts := SquashPartitions(updates[..n], size, start);
      cuts := AbsorbPartitions(Squash(updates[..n], size), updates, size, start, cuts);
    }
  }

  lemma CoversLonger(change: UpdateChanges, updates: seq<UpdateChunkData>, n: nat, size: nat, from: nat, to: nat)
    requires n <= |updates| && Covers(change, updates[..n], size, from, to)
    ensures Covers(change, updates, size, from, to)
  {
    assert updates[..n][from..to] == updates[from..to];
  }

  /** The cuts of the earlier updates, seen from the longer list. */
  lemma PartitionLonger(changes: seq<UpdateChanges>, updates: seq<UpdateChunkData>, n: nat, size: nat, cuts: seq<nat>, j: nat)
    requires n <= |updates| && Partition(changes, updates[..n], size, cuts) && j < |changes|
    ensures Covers(changes[j], updates, size, cuts[j], cuts[j + 1])
    ensures j < |changes| - 1 ==> cuts[j + 1] < n && Full(changes[j], updates, cuts[j + 1])
  {
    assert RunOf(changes, updates[..n], size, cuts, j);
    CoversLonger(changes[j], updates, n, size, cuts[j], cuts[j + 1]);
    if j < |changes| - 1 {
      assert RunOf(changes, updates[..n], size, cuts, j + 1);
    }
  }

  /** Where the last operation ends. */
  lemma LastCovered(change: UpdateChanges, updates: seq<UpdateChunkData>, size: nat, start: nat, from: nat, to: nat)
    requires Consecutive(updates, size, start) && to < |updates| && Covers(change, updates, size, from, to)
    ensures change.dataPos + |change.data| == Start(updates[to].chunkIndex, size)
    ensures Joins(change, updates[to], size) ==>
              Covers(change.(data := change.data + updates[to].chunk.data, checksum := change.checksum + updates[to].chunk.hmac),
                     updates, size, from, to + 1)
    ensures !Joins(change, updates[to], size) ==> Full(change, updates, to)
  {
    CoveredLength(updates, size, start, from, to);
    JoinStep(updates, from, to);
  }

  lemma AbsorbRun(before: seq<UpdateChanges>, updates: seq<UpdateChunkData>, size: nat, start: nat, cuts: seq<nat>,
                  cuts': seq<nat>, j: nat)
    requires Consecutive(updates, size, start) && |updates| > 1 && before != []
    requires Partition(before, updates[..|updates| - 1], size, cuts)
    requires Covers(Single(updates[|updates| - 1], size), updates, size, |updates| - 1, |updates|)
    requires cuts' == if Joins(before[|before| - 1], updates[|updates| - 1], size) then cuts[|before| := |updates|]
                      else cuts + [|updates|]
    requires j < |Absorb(before, updates[|updates| - 1], size)|
    ensures RunOf(Absorb(before, updates[|updates| - 1], size), updates, size, cuts', j)
  {
    var n, m := |updates| - 1, |before| - 1;
    if j <= m { PartitionLonger(before, updates, n, size, cuts, j); }
    if j == m { LastCovered(before[m], updates, size, start, cuts[m], n); }
  }

  lemma AbsorbPartitions(before: seq<UpdateChanges>, updates: seq<UpdateChunkData>, size: nat, start: nat, cuts: seq<nat>)
    returns (cuts': seq<nat>)
    requires Consecutive(updates, size, start) && |updates| > 1 && before != []
    requires Partition(before, updates[..|updates| - 1], size, cuts)
    requires Covers(Single(updates[|updates| - 1], size), updates, size, |updates| - 1, |updates|)
    ensures Partition(Absorb(before, updates[|updates| - 1], size), updates, size, cuts')
  {
    var after := Absorb(before, updates[|updates| - 1], size);
    cuts' := if Joins(before[|before| - 1], updates[|updates| - 1], size) then cuts[|before| := |updates|]
             else cuts + [|updates|];
    forall j: nat | j < |after| ensures RunOf(after, updates, size, cuts', j) {
      AbsorbRun(before, updates, size, start, cuts, cuts', j);
    }
  }

  // ---- The effect of the operations on the server's strings ----

  /** Every operation but the last truncates; the last one does if the write does. */
  function PatchAll(s: Bytes, parts: seq<Bytes>, positions: seq<nat>, truncate: bool): Option<Bytes>
    requires |parts| == |positions|
  {
    if parts == [] then Some(s)
    else
      var n := |parts| - 1;
      match PatchAll(s, parts[..n], positions[..n], true)
      case None => None
      case Some(t) => if positions[n] <= |t| then Some(Patch(t, positions[n], parts[n], truncate)) else None
  }

  /** Each part starts where the one before it ends. */
  ghost predicate Contiguous(parts: seq<Bytes>, positions: seq<nat>) {
    && |parts| == |positions|
    && forall j, k | 0 <= j < |parts| - 1 && k == j + 1 :: positions[k] == positions[j] + |parts[j]|
  }

  lemma {:induction false} ContiguousEnd(parts: seq<Bytes>, positions: seq<nat>)
    requires Contiguous(parts, positions) && parts != []
    ensures positions[|parts| - 1] + |parts[|parts| - 1]| == positions[0] + |Join(parts)|
  {
    var n := |parts| - 1;
    if n > 0 {
      ContiguousEnd(parts[..n], positions[..n]);
      assert positions[n] == positions[n - 1] + |parts[n - 1]|;
    } else {
      assert Join(parts[..0]) == [];
    }
  }

  /** Several operations drop whatever followed the written range, whether or not the write truncates. */
  lemma {:induction false} PatchAllOutcome(s: Bytes, parts: seq<Bytes>, positions: seq<nat>, truncate: bool)
    requires Contiguous(parts, positions) && parts != [] && positions[0] <= |s|
    ensures PatchAll(s, parts, positions, truncate) == Some(Patch(s, positions[0], Join(parts), truncate || |parts| > 1))
  {
    var n := |parts| - 1;
    if n == 0 {
      assert Join(parts[..0]) == [];
      assert Join(parts) == parts[0];
      assert PatchAll(s, parts[..0], positions[..0], true) == Some(s);
    } else {
      PatchAllOutcome(s, parts[..n], positions[..n], true);
      ContiguousEnd(parts[..n], positions[..n]);
      assert positions[n] == positions[n - 1] + |parts[n - 1]|;
      PatchTwice(s, positions[0], Join(parts[..n]), parts[n], true, true);
      var t := Patch(s, positions[0], Join(parts[..n]), true);
      assert Patch(t, |t|, parts[n], truncate) == Patch(t, |t|, parts[n], true);
    }
  }

  function DataPositions(changes: seq<UpdateChanges>): (r: seq<nat>)
    ensures |r| == |changes|
    ensures forall i | 0 <= i < |r| :: r[i] == changes[i].dataPos
  {
    seq(|changes|, i requires 0 <= i < |changes| => changes[i].dataPos)
  }

  function ChecksumPositions(changes: seq<UpdateChanges>): (r: seq<nat>)
    ensures |r| == |changes|
    ensures forall i | 0 <= i < |r| :: r[i] == changes[i].checksumPos
  {
    seq(|changes|, i requires 0 <= i < |changes| => changes[i].checksumPos)
  }

  /** Lengthening the last part, or adding a part at the end, keeps parts contiguous. */
  lemma LengthenLast(parts: seq<Bytes>, positions: seq<nat>, more: Bytes)
    requires Contiguous(parts, positions) && parts != []
    ensures var longer := parts[|parts| - 1 := parts[|parts| - 1] + more];
            Contiguous(longer, positions) && Join(longer) == Join(parts) + more
  {
    var m := |parts| - 1;
    assert parts[m := parts[m] + more][..m] == parts[..m];
  }

  lemma AddPart(parts: seq<Bytes>, positions: seq<nat>, more: Bytes, at: nat)
    requires Contiguous(parts, positions) && parts != [] && at == positions[0] + |Join(parts)|
    ensures Contiguous(parts + [more], positions + [at]) && Join(parts + [more]) == Join(parts) + more
  {
    ContiguousEnd(parts, positions);
    assert (parts + [more])[..|parts|] == parts;
  }

  /** The squashed operations follow one another without gaps and carry the same bytes. */
  lemma {:induction false} SquashContiguous(updates: seq<UpdateChunkData>, size: nat, start: nat)
    requires Consecutive(updates, size, start) && updates != []
    ensures var changes := Squash(updates, size);
            && Join(ChangeDatas(changes)) == Join(Datas(Chunks(updates)))
            && Join(ChangeChecksums(changes)) == Join(Hmacs(Chunks(updates)))
            && Contiguous(ChangeDatas(changes), DataPositions(changes))
            && Contiguous(ChangeChecksums(changes), ChecksumPositions(changes))
            && changes[0].dataPos == Start(start, size) && changes[0].checksumPos == Start(start, HMAC_SIZE)
  {
    var n := |updates| - 1;
    assert updates[0..n + 1] == updates && updates[0..n] == updates[..n];
    JoinStep(updates, 0, n);
    if n == 0 {
      var only := Squash(updates, size);
      assert ChangeDatas(only)[..0] == [] && ChangeChecksums(only)[..0] == [];
      assert Join(ChangeDatas(only)) == only[0].data && Join(ChangeChecksums(only)) == only[0].checksum;
      assert Join(Datas(Chunks(updates[0..0]))) == [] && Join(Hmacs(Chunks(updates[0..0]))) == [];
    } else {
      ConsecutiveFront(updates, size, start);
      SquashContiguous(updates[..n], size, start);
      FrontEnds(updates, size, start);
      AbsorbContiguous(Squash(updates[..n], size), updates[n], size, start);
    }
  }

  lemma FrontEnds(updates: seq<UpdateChunkData>, size: nat, start: nat)
    requires Consecutive(updates, size, start) && |updates| > 1
    ensures var n := |updates| - 1;
            && Start(start, size) + |Join(Datas(Chunks(updates[..n])))| == Start(updates[n].chunkIndex, size)
            && Start(start, HMAC_SIZE) + |Join(Hmacs(Chunks(updates[..n])))| == Start(updates[n].chunkIndex, HMAC_SIZE)
  {
    var n := |updates| - 1;
    assert Datas(Chunks(updates[..n])) == Datas(Chunks(updates))[..n];
    assert Hmacs(Chunks(updates[..n])) == Hmacs(Chunks(updates))[..n];
    JoinFront(Datas(Chunks(updates)), size);
    JoinFront(Hmacs(Chunks(updates)), HMAC_SIZE);
    StartSum(start, n, size);
    StartSum(start, n, HMAC_SIZE);
  }

  lemma AbsorbContiguous(before: seq<UpdateChanges>, u: UpdateChunkData, size: nat, start: nat)
    requires before != []
    requires Contiguous(ChangeDatas(before), DataPositions(before))
    requires Contiguous(ChangeChecksums(before), ChecksumPositions(before))
    requires before[0].dataPos + |Join(ChangeDatas(before))| == Start(u.chunkIndex, size)
    requires before[0].checksumPos + |Join(ChangeChecksums(before))| == Start(u.chunkIndex, HMAC_SIZE)
    ensures var after := Absorb(before, u, size);
            && Join(ChangeDatas(after)) == Join(ChangeDatas(before)) + u.chunk.data
            && Join(ChangeChecksums(after)) == Join(ChangeChecksums(before)) + u.chunk.hmac
            && Contiguous(ChangeDatas(after), DataPositions(after))
            && Contiguous(ChangeChecksums(after), ChecksumPositions(after))
            && after[0].dataPos == before[0].dataPos && after[0].checksumPos == before[0].checksumPos
  {
    var m := |before| - 1;
    var last, after := before[m], Absorb(before, u, size);
    var datas, checksums := ChangeDatas(before), ChangeChecksums(before);
    if Joins(last, u, size) {
      assert ChangeDatas(after) == datas[m := datas[m] + u.chunk.data];
      assert ChangeChecksums(after) == checksums[m := checksums[m] + u.chunk.hmac];
      assert DataPositions(after) == DataPositions(before);
      assert ChecksumPositions(after) == ChecksumPositions(before);
      LengthenLast(datas, DataPositions(before), u.chunk.data);
      LengthenLast(checksums, ChecksumPositions(before), u.chunk.hmac);
    } else {
      assert ChangeDatas(after) == datas + [u.chunk.data];
      assert ChangeChecksums(after) == checksums + [u.chunk.hmac];
      assert DataPositions(after) == DataPositions(before) + [Start(u.chunkIndex, size)];
      assert ChecksumPositions(after) == ChecksumPositions(before) + [Start(u.chunkIndex, HMAC_SIZE)];
      AddPart(datas, DataPositions(before), u.chunk.data, Start(u.chunkIndex, size));
      AddPart(checksums, ChecksumPositions(before), u.chunk.hmac, Start(u.chunkIndex, HMAC_SIZE));
    }
  }

  // ---- How many operations a write needs ----

  function Sum(lengths: seq<nat>): nat {
    if lengths == [] then 0 else Sum(lengths[..|lengths| - 1]) + lengths[|lengths| - 1]
  }

  function AddLength(groups: seq<nat>, more: nat): (r: seq<nat>)
    requires groups != []
    ensures r != []
  {
    var last := groups[|groups| - 1];
    if last + more < SERVER_OPERATION_SIZE_LIMIT then groups[|groups| - 1 := last + more] else groups + [more]
  }

  /** Sizes of the operations for chunks of the given encrypted lengths. */
  function Groups(lengths: seq<nat>): (r: seq<nat>)
    ensures lengths != [] ==> r != []
  {
    if |lengths| <= 1 then lengths else AddLength(Groups(lengths[..|lengths| - 1]), lengths[|lengths| - 1])
  }

  /** One operation suffices exactly for a single chunk or less than the size limit in all. */
  lemma {:induction false} SingleGroup(lengths: seq<nat>)
    requires lengths != []
    ensures |Groups(lengths)| == 1 <==> |lengths| == 1 || Sum(lengths) < SERVER_OPERATION_SIZE_LIMIT
    ensures |Groups(lengths)| == 1 ==> Groups(lengths)[0] == Sum(lengths)
  {
    var n := |lengths| - 1;
    if n == 0 {
      assert Sum(lengths[..0]) == 0;
    } else {
      SingleGroup(lengths[..n]);
    }
  }

  function ChunkLengths(updates: seq<UpdateChunkData>): (r: seq<nat>)
    ensures |r| == |updates|
    ensures forall i | 0 <= i < |r| :: r[i] == |updates[i].chunk.data|
  {
    seq(|updates|, i requires 0 <= i < |updates| => |updates[i].chunk.data|)
  }

  function ChangeLengths(changes: seq<UpdateChanges>): (r: seq<nat>)
    ensures |r| == |changes|
    ensures forall i | 0 <= i < |r| :: r[i] == |changes[i].data|
  {
    seq(|changes|, i requires 0 <= i < |changes| => |changes[i].data|)
  }

  lemma SumOfChunks(updates: seq<UpdateChunkData>)
    ensures Sum(ChunkLengths(updates)) == |Join(Datas(Chunks(updates)))|
  {
    var n := |updates| - 1;
    if n >= 0 {
      SumOfChunks(updates[..n]);
      assert ChunkLengths(updates)[..n] == ChunkLengths(updates[..n]);
      assert Datas(Chunks(updates))[..n] == Datas(Chunks(updates[..n]));
    }
  }

  /** The operations have the sizes that the chunk lengths alone determine. */
  lemma {:induction false} SquashGroups(updates: seq<UpdateChunkData>, size: nat, start: nat)
    requires Consecutive(updates, size, start) && updates != []
    ensures ChangeLengths(Squash(updates, size)) == Groups(ChunkLengths(updates))
  {
    if |updates| > 1 {
      var front, u := updates[..|updates| - 1], updates[|updates| - 1];
      ConsecutiveFront(updates, size, start);
      SquashGroups(front, size, start);
      LastEnds(updates, size, start);
      AbsorbLengths(Squash(front, size), u, size);
      assert ChunkLengths(updates)[..|updates| - 1] == ChunkLengths(front);
    }
  }

  lemma AbsorbLengths(before: seq<UpdateChanges>, u: UpdateChunkData, size: nat)
    requires before != [] && before[|before| - 1].dataPos + |before[|before| - 1].data| == Start(u.chunkIndex, size)
    ensures ChangeLengths(Absorb(before, u, size)) == AddLength(ChangeLengths(before), |u.chunk.data|)
  {
  }

  lemma LastEnds(updates: seq<UpdateChunkData>, size: nat, start: nat)
    requires Consecutive(updates, size, start) && |updates| > 1
    ensures var n := |updates| - 1;
            var before := Squash(updates[..n], size);
            before[|before| - 1].dataPos + |before[|before| - 1].data| == Start(updates[n].chunkIndex, size)
  {
    var n := |updates| - 1;
    var before := Squash(updates[..n], size);
    ConsecutiveFront(updates, size, start);
    SquashContiguous(updates[..n], size, start);
    ContiguousEnd(ChangeDatas(before), DataPositions(before));
    FrontEnds(updates, size, start);
  }

  // ---- How many operations a write takes ----

  function FullLengths(n: nat, full: nat): (r: seq<nat>)
    ensures |r| == n && forall k | 0 <= k < n :: r[k] == full
  {
    seq(n, _ => full)
  }

  /** One operation takes up to `per` chunks of this encrypted length. */
  ghost predicate PerOperation(full: nat, per: nat) {
    per > 0 && (per == 1 || Start(per, full) < SERVER_OPERATION_SIZE_LIMIT) && SERVER_OPERATION_SIZE_LIMIT <= Start(per + 1, full)
  }

  lemma OneMoreFits(full: nat, per: nat, k: nat)
    requires PerOperation(full, per) && 0 < k <= per
    ensures Start(k, full) + full < SERVER_OPERATION_SIZE_LIMIT <==> k < per
  {
    if k < per {
      StartMono(k + 1, per, full);
    }
  }

  lemma NextPosition(x: nat, size: nat)
    requires size > 0
    ensures PosInPiece(x, size) < size
    ensures PosInPiece(x, size) + 1 < size ==>
              PieceOf(x + 1, size) == PieceOf(x, size) && PosInPiece(x + 1, size) == PosInPiece(x, size) + 1
    ensures PosInPiece(x, size) + 1 == size ==> PieceOf(x + 1, size) == PieceOf(x, size) + 1 && PosInPiece(x + 1, size) == 0
  {
    PieceBounds(x, size);
    var q, r := PieceOf(x, size), PosInPiece(x, size);
    PieceUnique(x + 1, size, if r + 1 < size then q else q + 1);
  }

  /** Full chunks are squashed to operations of `per` chunks and a last one with the rest. */
  lemma {:induction false} FullGroups(n: nat, full: nat, per: nat)
    requires n > 0 && PerOperation(full, per)
    ensures |Groups(FullLengths(n, full))| == PieceOf(n - 1, per) + 1
    ensures Groups(FullLengths(n, full))[PieceOf(n - 1, per)] == Start(PosInPiece(n - 1, per) + 1, full)
  {
    if n > 1 {
      FullGroups(n - 1, full, per);
      assert FullLengths(n, full)[..n - 1] == FullLengths(n - 1, full);
      NextPosition(n - 2, per);
      OneMoreFull(Groups(FullLengths(n - 1, full)), full, per, PieceOf(n - 2, per), PosInPiece(n - 2, per) + 1);
    }
  }

  lemma OneMoreFull(groups: seq<nat>, full: nat, per: nat, q: nat, k: nat)
    requires PerOperation(full, per) && 0 < k <= per && |groups| == q + 1 && groups[q] == Start(k, full)
    ensures var more := AddLength(groups, full);
            if k < per then |more| == q + 1 && more[q] == Start(k + 1, full)
            else |more| == q + 2 && more[q + 1] == Start(1, full)
  {
    OneMoreFits(full, per, k);
  }

  /** Operations of `per` chunks each, and the last, perhaps shorter chunk in the last of them if there is room for it,
      or else in one more. */
  function RunCount(before: nat, full: nat, last: nat, per: nat): nat
    requires per > 0
  {
    if before == 0 then 1
    else
      PieceOf(before - 1, per) + 1
      + if Start(PosInPiece(before - 1, per) + 1, full) + last < SERVER_OPERATION_SIZE_LIMIT then 0 else 1
  }

  lemma RunGroups(before: nat, full: nat, last: nat, lengths: seq<nat>, per: nat)
    requires PerOperation(full, per) && lengths == FullLengths(before, full) + [last]
    ensures |Groups(lengths)| == RunCount(before, full, last, per)
  {
    if before > 0 {
      FullGroups(before, full, per);
      assert lengths[..before] == FullLengths(before, full);
    }
  }
}
