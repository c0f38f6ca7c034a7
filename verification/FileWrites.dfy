/** The arithmetic of one random-access write: what it does to the plain file, which chunks it
    touches, how the signed size changes of the chunks add up, and when its squashed operations
    leave the rest of the server's file alone. */
module FileWrites {
  import opened ByteStrings
  import opened Results
  import opened ChunkEncryption
  import opened EncryptedFiles
  import opened Squashing

  // ---- The plain file ----

  /** A plain byte array after writing `data` at `offset`: bytes never written before are zero. */
  function WriteAt(plain: Bytes, offset: nat, data: Bytes, truncate: bool): (r: Bytes) {
    seq(SizeAfter(|plain|, offset + |data|, truncate), k requires 0 <= k =>
      if offset <= k < offset + |data| then data[k - offset] else if k < |plain| then plain[k] else 0)
  }

  /** Where the engine starts writing, and what: the gap up to `offset` is filled with zeros. */
  function WriteOffset(plainSize: nat, offset: nat): nat {
    Min(offset, plainSize)
  }

  function ToSend(plainSize: nat, offset: nat, data: Bytes): (r: Bytes)
    ensures WriteOffset(plainSize, offset) + |r| == offset + |data|
  {
    if plainSize < offset then Zeros(offset - plainSize) + data else data
  }

  lemma WriteAtIsPatch(plain: Bytes, offset: nat, data: Bytes, truncate: bool)
    ensures Patch(plain, WriteOffset(|plain|, offset), ToSend(|plain|, offset, data), truncate)
            == WriteAt(plain, offset, data, truncate)
  {
    var pos, more := WriteOffset(|plain|, offset), ToSend(|plain|, offset, data);
    var l, r := Patch(plain, pos, more, truncate), WriteAt(plain, offset, data, truncate);
    assert |l| == |r|;
    forall k | 0 <= k < |l| ensures l[k] == r[k] {
      PatchAt(plain, pos, more, truncate, k);
    }
  }

  // ---- The touched chunks ----

  /** First and last chunk of a write that ends at `end`; a write of no bytes counts one more. */
  function StartIndex(size: nat, plainSize: nat, offset: nat): nat
    requires size > 0
  {
    PieceOf(WriteOffset(plainSize, offset), size)
  }

  function StopIndex(size: nat, end: nat, empty: bool): nat
    requires size > 0 && (empty || end > 0)
  {
    PieceOf(if empty then end else end - 1, size)
  }

  lemma WriteTouches(size: nat, plainSize: nat, offset: nat, data: Bytes)
    requires size > 0
    ensures Touches(size, plainSize, WriteOffset(plainSize, offset), |ToSend(plainSize, offset, data)|,
                    StartIndex(size, plainSize, offset), StopIndex(size, offset + |data|, data == []))
  {
    var pos, end := WriteOffset(plainSize, offset), offset + |data|;
    PieceBounds(pos, size);
    var last := if data == [] then end else end - 1;
    PieceBounds(last, size);
    PieceMono(pos, last, size);
  }

  /** The last touched chunk ends the write, and is empty only for a write of no bytes at its start. */
  lemma LastTouched(size: nat, offset: nat, length: nat, stop: nat)
    requires size > 0 && stop == StopIndex(size, offset + length, length == 0)
    ensures Start(stop, size) <= offset + length <= Start(stop, size) + size
    ensures offset + length == Start(stop, size) <==> length == 0 && PosInPiece(offset, size) == 0
  {
    PieceBounds(if length == 0 then offset else offset + length - 1, size);
  }

  /** New text of a chunk: `data` at `chunkOffset`, zeros before it if the chunk was shorter. */
  function NewChunk(prev: Bytes, chunkOffset: nat, data: Bytes, truncate: bool): (r: Bytes)
    ensures chunkOffset <= |prev| ==> r == Patch(prev, chunkOffset, data, truncate)
  {
    (if chunkOffset > 0 then prev[..Min(chunkOffset, |prev|)] + Zeros(Max(0, chunkOffset - |prev|)) else [])
    + data
    + if |prev| > chunkOffset + |data| && !truncate then prev[chunkOffset + |data|..] else []
  }

  /** The first touched chunk of the file after the write. */
  lemma FirstChunk(plain: Bytes, pos: nat, more: Bytes, truncate: bool, size: nat, start: nat)
    requires Start(start, size) <= pos < Start(start, size) + size && pos <= |plain|
    ensures var d := more[..Min(|more|, size - (pos - Start(start, size)))];
            && pos - Start(start, size) <= |Slice(plain, size, start)|
            && Slice(Patch(plain, pos, more, truncate), size, start)
               == Patch(Slice(plain, size, start), pos - Start(start, size), d, truncate)
  {
    WindowOverPatch(plain, pos, more, truncate, Start(start, size), Start(start, size) + size);
  }

  /** What a later touched chunk gets from the data. */
  function DataOf(more: Bytes, pos: nat, size: nat, i: nat): Bytes
    requires pos <= Start(i, size)
  {
    Window(more, Start(i, size) - pos, Start(i, size) + size - pos)
  }

  lemma LaterChunkLength(plain: Bytes, pos: nat, more: Bytes, truncate: bool, size: nat, i: nat)
    requires pos <= |plain| && pos <= Start(i, size) <= pos + |more|
    ensures |Slice(Patch(plain, pos, more, truncate), size, i)|
            == |Patch(Slice(plain, size, i), 0, DataOf(more, pos, size, i), truncate)|
  {
  }

  lemma LaterChunkAt(plain: Bytes, pos: nat, more: Bytes, truncate: bool, size: nat, i: nat, k: nat)
    requires pos <= |plain| && pos <= Start(i, size) <= pos + |more|
    requires k < |Slice(Patch(plain, pos, more, truncate), size, i)|
    requires k < |Patch(Slice(plain, size, i), 0, DataOf(more, pos, size, i), truncate)|
    ensures Slice(Patch(plain, pos, more, truncate), size, i)[k]
            == Patch(Slice(plain, size, i), 0, DataOf(more, pos, size, i), truncate)[k]
  {
    var at, part, data := Start(i, size), Slice(plain, size, i), DataOf(more, pos, size, i);
    assert Slice(Patch(plain, pos, more, truncate), size, i)[k] == Patch(plain, pos, more, truncate)[at + k];
    PatchAt(plain, pos, more, truncate, at + k);
    PatchAt(part, 0, data, truncate, k);
  }

  /** A later touched chunk of the file after the write. */
  lemma LaterChunk(plain: Bytes, pos: nat, more: Bytes, truncate: bool, size: nat, i: nat)
    requires pos <= |plain| && pos <= Start(i, size) <= pos + |more|
    ensures Slice(Patch(plain, pos, more, truncate), size, i)
            == Patch(Slice(plain, size, i), 0, DataOf(more, pos, size, i), truncate)
  {
    var l, r := Slice(Patch(plain, pos, more, truncate), size, i), Patch(Slice(plain, size, i), 0, DataOf(more, pos, size, i), truncate);
    LaterChunkLength(plain, pos, more, truncate, size, i);
    forall k | 0 <= k < |l| ensures l[k] == r[k] {
      LaterChunkAt(plain, pos, more, truncate, size, i, k);
    }
  }

  /** Truncation does not matter to a chunk that the data fills to the end. */
  lemma FilledChunk(prev: Bytes, pos: nat, data: Bytes, size: nat, truncate: bool)
    requires pos <= |prev| <= size && pos + |data| == size
    ensures Patch(prev, pos, data, truncate) == Patch(prev, pos, data, false)
  {
  }

  /** Putting `data` at `at` of chunk `i` gives the chunk its text in the file after the write. */
  ghost predicate GivesText(size: nat, plain: Bytes, pos: nat, more: Bytes, truncate: bool, stop: nat, i: nat, at: nat, data: Bytes)
    requires pos <= |plain|
  {
    && at + |data| <= size
    && NewChunk(Slice(plain, size, i), at, data, truncate && i == stop) == Slice(Patch(plain, pos, more, truncate), size, i)
  }

  /** The update of the first touched chunk gives it its text in the file after the write. */
  lemma FirstUpdate(plain: Bytes, pos: nat, more: Bytes, truncate: bool, size: nat, start: nat, stop: nat)
    requires size > 0 && Touches(size, |plain|, pos, |more|, start, stop)
    ensures var at := pos - Start(start, size);
            var d := more[..Min(|more|, size - at)];
            && PosInPiece(pos, size) == at
            && |d| == Min(Start(start + 1, size) - pos, |more|)
            && GivesText(size, plain, pos, more, truncate, stop, start, at, d)
  {
    PieceUnique(pos, size, start);
    FirstChunk(plain, pos, more, truncate, size, start);
    var at := pos - Start(start, size);
    if start < stop {
      StartMono(start + 1, stop, size);
      FilledChunk(Slice(plain, size, start), at, more[..Min(|more|, size - at)], size, truncate);
    }
  }

  /** So does the update of every later touched chunk. */
  lemma LaterUpdate(plain: Bytes, pos: nat, more: Bytes, truncate: bool, size: nat, start: nat, stop: nat, i: nat)
    requires size > 0 && Touches(size, |plain|, pos, |more|, start, stop) && start < i <= stop
    ensures pos <= Start(i, size) <= pos + |more|
    ensures var from := Start(i, size) - pos;
            var d := more[from..Min(|more|, from + size)];
            && from + |d| == Min(Start(i + 1, size) - pos, |more|)
            && GivesText(size, plain, pos, more, truncate, stop, i, 0, d)
  {
    LaterBounds(size, |plain|, pos, |more|, start, stop, i);
    LaterChunk(plain, pos, more, truncate, size, i);
    var from := Start(i, size) - pos;
    assert DataOf(more, pos, size, i) == more[from..Min(|more|, from + size)];
    if i < stop {
      FilledChunk(Slice(plain, size, i), 0, more[from..Min(|more|, from + size)], size, truncate);
    }
  }

  /** A later touched chunk starts inside the data, and ends inside it unless it is the last one. */
  lemma LaterBounds(size: nat, plainSize: nat, pos: nat, length: nat, start: nat, stop: nat, i: nat)
    requires Touches(size, plainSize, pos, length, start, stop) && start < i <= stop
    ensures pos <= Start(i, size) <= pos + length
    ensures i < stop ==> Start(i, size) + size <= pos + length
  {
    StartMono(start + 1, i, size);
    StartMono(i, stop, size);
    if i < stop { StartMono(i + 1, stop, size); }
  }

  /** How much of the data the chunks before chunk `i` have taken. */
  function Taken(size: nat, pos: nat, more: Bytes, start: nat, i: nat): nat
    requires start < i ==> pos <= Start(i, size)
  {
    if i <= start then 0 else Min(Start(i, size) - pos, |more|)
  }

  /** The part of the data that goes to touched chunk `i`, and where it goes in it. */
  method ChunkInput(size: nat, pos: nat, more: Bytes, start: nat, i: nat, dataSend: nat)
    returns (chunkOffset: nat, chunkData: Bytes)
    requires size > 0 && dataSend <= |more|
    ensures chunkOffset == if i == start then PosInPiece(pos, size) else 0
    ensures chunkOffset <= size && chunkData == more[dataSend..Min(|more|, dataSend + (size - chunkOffset))]
  {
    chunkOffset := 0;
    PieceBounds(pos, size);
    if i == start {
      chunkOffset := PosInPiece(pos, size);
    }
    chunkData := more[dataSend..Min(|more|, dataSend + (size - chunkOffset))];
  }

  /** What that makes of the chunk. */
  lemma ChunkText(size: nat, plain: Bytes, pos: nat, more: Bytes, truncate: bool, start: nat, stop: nat, i: nat,
                  dataSend: nat, chunkOffset: nat, chunkData: Bytes) returns (text: Bytes)
    requires size > 0 && Touches(size, |plain|, pos, |more|, start, stop) && start <= i <= stop
    requires start < i ==> pos <= Start(i, size)
    requires dataSend == Taken(size, pos, more, start, i)
    requires chunkOffset == if i == start then PosInPiece(pos, size) else 0
    requires chunkOffset <= size && chunkData == more[dataSend..Min(|more|, dataSend + (size - chunkOffset))]
    ensures text == Slice(Patch(plain, pos, more, truncate), size, i)
    ensures text == NewChunk(Slice(plain, size, i), chunkOffset, chunkData, truncate && i == stop)
    ensures chunkOffset + |chunkData| <= size
    ensures pos <= Start(i + 1, size) && dataSend + |chunkData| == Taken(size, pos, more, start, i + 1)
  {
    GivenText(size, plain, pos, more, truncate, start, stop, i, dataSend, chunkOffset, chunkData);
    text := Slice(Patch(plain, pos, more, truncate), size, i);
  }

  lemma GivenText(size: nat, plain: Bytes, pos: nat, more: Bytes, truncate: bool, start: nat, stop: nat, i: nat,
                  dataSend: nat, chunkOffset: nat, chunkData: Bytes)
    requires size > 0 && Touches(size, |plain|, pos, |more|, start, stop) && start <= i <= stop
    requires start < i ==> pos <= Start(i, size)
    requires dataSend == Taken(size, pos, more, start, i)
    requires chunkOffset == if i == start then PosInPiece(pos, size) else 0
    requires chunkOffset <= size && chunkData == more[dataSend..Min(|more|, dataSend + (size - chunkOffset))]
    ensures GivesText(size, plain, pos, more, truncate, stop, i, chunkOffset, chunkData)
    ensures pos <= Start(i + 1, size) && dataSend + |chunkData| == Taken(size, pos, more, start, i + 1)
  {
    if i == start {
      GivenFirst(size, plain, pos, more, truncate, start, stop, chunkOffset, chunkData);
    } else {
      GivenLater(size, plain, pos, more, truncate, start, stop, i, dataSend, chunkData);
    }
  }

  lemma GivenFirst(size: nat, plain: Bytes, pos: nat, more: Bytes, truncate: bool, start: nat, stop: nat,
                   chunkOffset: nat, chunkData: Bytes)
    requires size > 0 && Touches(size, |plain|, pos, |more|, start, stop)
    requires chunkOffset == PosInPiece(pos, size) && chunkOffset <= size
    requires chunkData == more[0..Min(|more|, size - chunkOffset)]
    ensures GivesText(size, plain, pos, more, truncate, stop, start, chunkOffset, chunkData)
    ensures pos <= Start(start + 1, size) && |chunkData| == Min(Start(start + 1, size) - pos, |more|)
  {
    FirstUpdate(plain, pos, more, truncate, size, start, stop);
    assert chunkData == more[..Min(|more|, size - (pos - Start(start, size)))];
  }

  lemma GivenLater(size: nat, plain: Bytes, pos: nat, more: Bytes, truncate: bool, start: nat, stop: nat, i: nat,
                   dataSend: nat, chunkData: Bytes)
    requires size > 0 && Touches(size, |plain|, pos, |more|, start, stop) && start < i <= stop && pos <= Start(i, size)
    requires dataSend == Min(Start(i, size) - pos, |more|) && chunkData == more[dataSend..Min(|more|, dataSend + size)]
    ensures GivesText(size, plain, pos, more, truncate, stop, i, 0, chunkData)
    ensures pos <= Start(i + 1, size) && dataSend + |chunkData| == Min(Start(i + 1, size) - pos, |more|)
  {
    LaterUpdate(plain, pos, more, truncate, size, start, stop, i);
  }

  // ---- Size changes ----

  function SliceLength(total: nat, size: nat, i: nat): nat {
    Min(total, Start(i, size) + size) - Min(total, Start(i, size))
  }

  lemma SliceLengthIs(s: Bytes, size: nat, i: nat)
    ensures SliceLength(|s|, size, i) == |Slice(s, size, i)|
  {
  }

  /** The signed change that the update of chunk `i` reports for the file's size `total`. */
  function SizeChange(total: nat, size: nat, i: nat, newLength: nat, truncate: bool): int {
    if truncate then Start(i, size) + newLength - Max(total, Start(i, size))
    else newLength - SliceLength(total, size, i)
  }

  function SumOf(changes: seq<int>): int {
    if changes == [] then 0 else SumOf(changes[..|changes| - 1]) + changes[|changes| - 1]
  }

  /** The changes reported for consecutive chunks whose new lengths are `lengths`. */
  ghost predicate Changes(total: nat, size: nat, start: nat, lengths: seq<nat>, changes: seq<int>, truncate: bool) {
    && |changes| == |lengths|
    && forall k: nat | k < |lengths| ::
         changes[k] == SizeChange(total, size, start + k, lengths[k], truncate && k == |lengths| - 1)
  }

  lemma {:induction false} FullChunksTotal(total: nat, size: nat, start: nat, changes: seq<int>)
    requires Start(start, size) <= total
    requires forall k: nat | k < |changes| :: changes[k] == size - SliceLength(total, size, start + k)
    ensures total + SumOf(changes) == Max(total, Start(start + |changes|, size))
  {
    var n := |changes| - 1;
    if n >= 0 {
      FullChunksTotal(total, size, start, changes[..n]);
    }
  }

  /** Size deltas telescope: they lead from the old size to that of the file after the write. */
  lemma SizesTelescope(total: nat, size: nat, start: nat, lengths: seq<nat>, changes: seq<int>, truncate: bool)
    requires Start(start, size) <= total && lengths != []
    requires Changes(total, size, start, lengths, changes, truncate)
    requires forall k | 0 <= k < |lengths| - 1 :: lengths[k] == size
    requires var last := lengths[|lengths| - 1];
             && last <= size
             && (truncate || last == size || total <= Start(start + |lengths| - 1, size) + last)
    ensures total + SumOf(changes)
            == SizeAfter(total, Start(start + |lengths| - 1, size) + lengths[|lengths| - 1], truncate)
  {
    var n := |lengths| - 1;
    FullChunksTotal(total, size, start, changes[..n]);
    assert changes[n] == SizeChange(total, size, start + n, lengths[n], truncate);
  }

  function PlainChanges(updates: seq<UpdateChunkData>): (r: seq<int>)
    ensures |r| == |updates|
    ensures forall i | 0 <= i < |r| :: r[i] == updates[i].plainSizeChange
  {
    seq(|updates|, i requires 0 <= i < |updates| => updates[i].plainSizeChange)
  }

  function EncryptedChanges(updates: seq<UpdateChunkData>): (r: seq<int>)
    ensures |r| == |updates|
    ensures forall i | 0 <= i < |r| :: r[i] == updates[i].encryptedSizeChange
  {
    seq(|updates|, i requires 0 <= i < |updates| => updates[i].encryptedSizeChange)
  }

  // ---- The updates prepared for one write ----

  /** The update that gives chunk `i` the text `text`: its encryption, and the size changes it reports. */
  ghost predicate UpdateOf(c: Codec, fileSize: nat, plainSize: nat, i: nat, text: Bytes, truncate: bool, u: UpdateChunkData) {
    && u.chunkIndex == i
    && Sealed(c, i, u.chunk, text)
    && u.plainSizeChange == SizeChange(plainSize, c.size, i, |text|, truncate)
    && u.encryptedSizeChange == SizeChange(fileSize, c.full(), i, |u.chunk.data|, truncate)
  }

  /** The update that chunk `i` needs for the file after the write. Like `Holds`, it is looked into
      only on demand. */
  ghost predicate PreparedUpdate(c: Codec, fileSize: nat, plainSize: nat, after: Bytes, i: nat, truncate: bool, u: UpdateChunkData) {
    forall o: Occasion {:trigger Unfolding(o, u.chunk.data, i)} :: Unfolding(o, u.chunk.data, i) ==>
      UpdateOf(c, fileSize, plainSize, i, Slice(after, c.size, i), truncate, u)
  }

  ghost predicate Prepared(c: Codec, fileSize: nat, plainSize: nat, after: Bytes, start: nat, stop: nat, truncate: bool,
                           updates: seq<UpdateChunkData>)
  {
    && start <= stop && |updates| == stop - start + 1
    && forall k: nat | k < |updates| :: PreparedAt(c, fileSize, plainSize, after, start, truncate, updates, k)
  }

  ghost predicate PreparedAt(c: Codec, fileSize: nat, plainSize: nat, after: Bytes, start: nat, truncate: bool,
                             updates: seq<UpdateChunkData>, k: nat)
    requires k < |updates|
  {
    PreparedUpdate(c, fileSize, plainSize, after, start + k, truncate && k == |updates| - 1, updates[k])
  }

  lemma PreparedEach(c: Codec, fileSize: nat, plainSize: nat, after: Bytes, start: nat, stop: nat, truncate: bool,
                     updates: seq<UpdateChunkData>, k: nat)
    requires Prepared(c, fileSize, plainSize, after, start, stop, truncate, updates) && k < |updates|
    ensures UpdateOf(c, fileSize, plainSize, start + k, Slice(after, c.size, start + k), truncate && k == |updates| - 1, updates[k])
  {
    var holds := PreparedAt(c, fileSize, plainSize, after, start, truncate, updates, k);
    assert holds && Unfolding(Occasion, updates[k].chunk.data, start + k);
  }

  /** The first updates of a write, while it is being prepared. */
  ghost predicate PreparedUpTo(c: Codec, fileSize: nat, plainSize: nat, after: Bytes, start: nat, stop: nat, truncate: bool,
                               updates: seq<UpdateChunkData>)
  {
    forall k: nat | k < |updates| :: PreparedSoFar(c, fileSize, plainSize, after, start, stop, truncate, updates, k)
  }

  ghost predicate PreparedSoFar(c: Codec, fileSize: nat, plainSize: nat, after: Bytes, start: nat, stop: nat, truncate: bool,
                                updates: seq<UpdateChunkData>, k: nat)
    requires k < |updates|
  {
    PreparedUpdate(c, fileSize, plainSize, after, start + k, truncate && start + k == stop, updates[k])
  }

  lemma PreparedOneMore(c: Codec, fileSize: nat, plainSize: nat, after: Bytes, start: nat, stop: nat, truncate: bool,
                        updates: seq<UpdateChunkData>, u: UpdateChunkData)
    requires PreparedUpTo(c, fileSize, plainSize, after, start, stop, truncate, updates)
    requires PreparedUpdate(c, fileSize, plainSize, after, start + |updates|, truncate && start + |updates| == stop, u)
    ensures PreparedUpTo(c, fileSize, plainSize, after, start, stop, truncate, updates + [u])
  {
    forall k: nat | k < |updates| + 1
      ensures PreparedSoFar(c, fileSize, plainSize, after, start, stop, truncate, updates + [u], k)
    {
      if k < |updates| {
        var holds := PreparedSoFar(c, fileSize, plainSize, after, start, stop, truncate, updates, k);
        assert holds;
      }
    }
  }

  lemma PreparedAll(c: Codec, fileSize: nat, plainSize: nat, after: Bytes, start: nat, stop: nat, truncate: bool,
                    updates: seq<UpdateChunkData>)
    requires start <= stop && |updates| == stop - start + 1
    requires PreparedUpTo(c, fileSize, plainSize, after, start, stop, truncate, updates)
    ensures Prepared(c, fileSize, plainSize, after, start, stop, truncate, updates)
  {
    forall k: nat | k < |updates| ensures PreparedAt(c, fileSize, plainSize, after, start, truncate, updates, k) {
      var holds := PreparedSoFar(c, fileSize, plainSize, after, start, stop, truncate, updates, k);
      assert holds;
    }
  }

  lemma PreparedRun(c: Codec, fileSize: nat, plainSize: nat, after: Bytes, start: nat, stop: nat, truncate: bool,
                    updates: seq<UpdateChunkData>)
    requires c.Valid() && Prepared(c, fileSize, plainSize, after, start, stop, truncate, updates)
    requires Start(stop, c.size) <= |after|
    ensures SealedRun(c, Chunks(updates), after, start)
    ensures Consecutive(updates, c.full(), start)
  {
    var run := Chunks(updates);
    forall k: nat | k < |run| ensures SealedInRun(c, run, after, start, k) {
      PreparedEach(c, fileSize, plainSize, after, start, stop, truncate, updates, k);
    }
    forall k: nat | k < |updates| ensures updates[k].chunkIndex == start + k {
      PreparedEach(c, fileSize, plainSize, after, start, stop, truncate, updates, k);
    }
    RunPieces(c, run, after, start, stop);
  }

  function SliceLengths(s: Bytes, size: nat, start: nat, count: nat): (r: seq<nat>)
    ensures |r| == count
    ensures forall k: nat | k < count :: r[k] == |Slice(s, size, start + k)|
  {
    seq(count, k requires 0 <= k < count => |Slice(s, size, start + k)|)
  }

  lemma PlainChangesAre(c: Codec, fileSize: nat, plainSize: nat, after: Bytes, start: nat, stop: nat, truncate: bool,
                        updates: seq<UpdateChunkData>)
    requires c.Valid() && Prepared(c, fileSize, plainSize, after, start, stop, truncate, updates)
    requires Start(stop, c.size) <= |after|
    ensures var lengths := SliceLengths(after, c.size, start, |updates|);
            && Changes(plainSize, c.size, start, lengths, PlainChanges(updates), truncate)
            && (forall k | 0 <= k < |lengths| - 1 :: lengths[k] == c.size)
            && lengths[stop - start] == Min(c.size, |after| - Start(stop, c.size))
  {
    forall k: nat | k < |updates|
      ensures updates[k].plainSizeChange
              == SizeChange(plainSize, c.size, start + k, |Slice(after, c.size, start + k)|, truncate && k == |updates| - 1)
      ensures |Slice(after, c.size, start + k)| == if k < stop - start then c.size else Min(c.size, |after| - Start(stop, c.size))
    {
      PreparedEach(c, fileSize, plainSize, after, start, stop, truncate, updates, k);
      TouchedChunkSize(c.size, after, start, stop, start + k);
    }
  }

  /** The summed plain changes give the size of the plain file after the write. */
  lemma PlainTotal(c: Codec, fileSize: nat, plain: Bytes, pos: nat, more: Bytes, start: nat, stop: nat, truncate: bool,
                   updates: seq<UpdateChunkData>)
    requires c.Valid() && Touches(c.size, |plain|, pos, |more|, start, stop)
    requires Prepared(c, fileSize, |plain|, Patch(plain, pos, more, truncate), start, stop, truncate, updates)
    ensures |plain| + SumOf(PlainChanges(updates)) == |Patch(plain, pos, more, truncate)|
  {
    var after := Patch(plain, pos, more, truncate);
    PlainChangesAre(c, fileSize, |plain|, after, start, stop, truncate, updates);
    TouchedTotal(|plain|, c.size, start, stop, SliceLengths(after, c.size, start, |updates|), PlainChanges(updates), truncate, |after|);
  }

  lemma TouchedTotal(total: nat, size: nat, start: nat, stop: nat, lengths: seq<nat>, changes: seq<int>, truncate: bool, totalAfter: nat)
    requires start <= stop && |lengths| == stop - start + 1 && Start(start, size) <= total
    requires Changes(total, size, start, lengths, changes, truncate)
    requires forall k | 0 <= k < |lengths| - 1 :: lengths[k] == size
    requires Start(stop, size) <= totalAfter && lengths[stop - start] == Min(size, totalAfter - Start(stop, size))
    requires truncate ==> totalAfter <= Start(stop, size) + size
    requires !truncate ==> total <= totalAfter && (totalAfter == total || totalAfter <= Start(stop, size) + size)
    ensures total + SumOf(changes) == totalAfter
  {
    SizesTelescope(total, size, start, lengths, changes, truncate);
  }

  lemma EncryptedChangesAre(c: Codec, fileSize: nat, plainSize: nat, after: Bytes, start: nat, stop: nat, truncate: bool,
                            updates: seq<UpdateChunkData>)
    requires c.Valid() && Prepared(c, fileSize, plainSize, after, start, stop, truncate, updates)
    requires Start(stop, c.size) <= |after|
    ensures var lengths := ChunkLengths(updates);
            && Changes(fileSize, c.full(), start, lengths, EncryptedChanges(updates), truncate)
            && (forall k | 0 <= k < |lengths| - 1 :: lengths[k] == c.full())
            && lengths[stop - start] == LastLength(c, |after|, stop) <= c.full()
  {
    PreparedRun(c, fileSize, plainSize, after, start, stop, truncate, updates);
    forall k: nat | k < |updates|
      ensures updates[k].encryptedSizeChange
              == SizeChange(fileSize, c.full(), start + k, |updates[k].chunk.data|, truncate && k == |updates| - 1)
      ensures |updates[k].chunk.data| == if k < stop - start then c.full() else LastLength(c, |after|, stop)
      ensures |updates[k].chunk.data| <= c.full()
    {
      PreparedEach(c, fileSize, plainSize, after, start, stop, truncate, updates, k);
      RunChunkLength(c, Chunks(updates), after, start, stop, k);
    }
  }

  lemma FileAfterLength(c: Codec, file: Bytes, run: seq<Chunk>, after: Bytes, start: nat, stop: nat, truncate: bool)
    requires c.Valid() && SealedRun(c, run, after, start) && start <= stop && |run| == stop - start + 1
    requires Start(stop, c.size) <= |after| && Start(start, c.full()) <= |file|
    ensures |FileAfter(c, file, start, run, truncate)|
            == SizeAfter(|file|, Start(stop, c.full()) + LastLength(c, |after|, stop), truncate)
  {
    RunEnds(c, run, after, start, stop);
  }

  lemma EncryptedSum(c: Codec, fileSize: nat, plainSize: nat, after: Bytes, start: nat, stop: nat, truncate: bool,
                     updates: seq<UpdateChunkData>)
    requires c.Valid() && Prepared(c, fileSize, plainSize, after, start, stop, truncate, updates)
    requires Start(stop, c.size) <= |after| && Start(start, c.full()) <= fileSize
    requires var last := LastLength(c, |after|, stop);
             truncate || last == c.full() || fileSize <= Start(stop, c.full()) + last
    ensures fileSize + SumOf(EncryptedChanges(updates))
            == SizeAfter(fileSize, Start(stop, c.full()) + LastLength(c, |after|, stop), truncate)
  {
    EncryptedChangesAre(c, fileSize, plainSize, after, start, stop, truncate, updates);
    SizesTelescope(fileSize, c.full(), start, ChunkLengths(updates), EncryptedChanges(updates), truncate);
  }

  /** The summed encrypted changes give the size of the server's file after the write. */
  lemma EncryptedTotal(c: Codec, file: Bytes, plain: Bytes, chunks: nat, pos: nat, more: Bytes, start: nat, stop: nat,
                       truncate: bool, updates: seq<UpdateChunkData>)
    requires c.Valid() && Layout(c, |file|, |plain|, chunks)
    requires Touches(c.size, |plain|, pos, |more|, start, stop) && Start(start, c.full()) <= |file|
    requires Prepared(c, |file|, |plain|, Patch(plain, pos, more, truncate), start, stop, truncate, updates)
    ensures |file| + SumOf(EncryptedChanges(updates)) == |FileAfter(c, file, start, Chunks(updates), truncate)|
  {
    var after := Patch(plain, pos, more, truncate);
    if !truncate { ShortLastChunk(c, |file|, |plain|, chunks, pos + |more|, stop); }
    EncryptedSum(c, |file|, |plain|, after, start, stop, truncate, updates);
    PreparedRun(c, |file|, |plain|, after, start, stop, truncate, updates);
    FileAfterLength(c, file, Chunks(updates), after, start, stop, truncate);
  }

  // ---- When the squashed operations keep the rest of the file ----

  /** Encrypted length of all touched chunks after the write. */
  function Span(ce: ChunkEncryptor, plainSize: nat, offset: nat, data: Bytes, truncate: bool): nat
    requires ce.chunkSize > 0
  {
    var start, stop := StartIndex(ce.chunkSize, plainSize, offset), StopIndex(ce.chunkSize, offset + |data|, data == []);
    var sizeAfter := SizeAfter(plainSize, offset + |data|, truncate);
    WriteTouches(ce.chunkSize, plainSize, offset, data);
    Start(stop - start, ce.EncryptedChunkSize()) + EncryptedLength(Min(ce.chunkSize, sizeAfter - Start(stop, ce.chunkSize)))
  }

  function RunLengths(before: nat, full: nat, last: nat): (r: seq<nat>)
    ensures |r| == before + 1
    ensures forall k | 0 <= k <= before :: r[k] == if k < before then full else last
  {
    seq(before + 1, k requires 0 <= k <= before => if k < before then full else last)
  }

  /** The encrypted lengths of the chunks touched: full ones, and a last one that may be shorter. */
  function TouchedLengths(ce: ChunkEncryptor, plainSize: nat, offset: nat, data: Bytes, truncate: bool): (r: seq<nat>)
    requires ce.chunkSize > 0
    ensures r != [] && forall k | 0 <= k < |r| - 1 :: r[k] == ce.EncryptedChunkSize()
  {
    var start, stop := StartIndex(ce.chunkSize, plainSize, offset), StopIndex(ce.chunkSize, offset + |data|, data == []);
    var sizeAfter := SizeAfter(plainSize, offset + |data|, truncate);
    WriteTouches(ce.chunkSize, plainSize, offset, data);
    RunLengths(stop - start, ce.EncryptedChunkSize(), EncryptedLength(Min(ce.chunkSize, sizeAfter - Start(stop, ce.chunkSize))))
  }

  /** Number of squashed operations for a write. */
  function OperationCount(ce: ChunkEncryptor, plainSize: nat, offset: nat, data: Bytes, truncate: bool): nat
    requires ce.chunkSize > 0
  {
    |Groups(TouchedLengths(ce, plainSize, offset, data, truncate))|
  }

  /** Whether a write leaves what follows it alone. Every server operation but the last truncates, so
      this takes a truncating write, a write up to the last chunk, or a write that fits one operation. */
  predicate KeepsTail(ce: ChunkEncryptor, plainSize: nat, encryptedSize: nat, offset: nat, data: Bytes, truncate: bool)
    requires ce.chunkSize > 0
  {
    var start, stop := StartIndex(ce.chunkSize, plainSize, offset), StopIndex(ce.chunkSize, offset + |data|, data == []);
    || truncate
    || encryptedSize <= Start(stop + 1, ce.EncryptedChunkSize())
    || start == stop
    || Span(ce, plainSize, offset, data, truncate) < SERVER_OPERATION_SIZE_LIMIT
  }

  /** Whether the engine carries a write out faithfully: it keeps what follows, and fits one request. A second
      request is never accepted, because the first has changed the version that both name. */
  predicate Faithful(ce: ChunkEncryptor, plainSize: nat, encryptedSize: nat, offset: nat, data: Bytes, truncate: bool)
    requires ce.chunkSize > 0
  {
    && KeepsTail(ce, plainSize, encryptedSize, offset, data, truncate)
    && OperationCount(ce, plainSize, offset, data, truncate) <= SERVER_OPERATIONS_LIMIT / 2
  }

  lemma DropsTail(s: Bytes, pos: nat, data: Bytes)
    requires pos <= |s|
    ensures |s| <= pos + |data| ==> Patch(s, pos, data, true) == Patch(s, pos, data, false)
    ensures |s| > pos + |data| ==> |Patch(s, pos, data, true)| < |Patch(s, pos, data, false)|
  {
  }

  /** The write of `more` at `pos` has been prepared as `updates` for the file on the server. */
  ghost predicate Pending(c: Codec, file: Bytes, hashes: Bytes, plain: Bytes, chunks: nat, pos: nat, more: Bytes,
                          start: nat, stop: nat, truncate: bool, updates: seq<UpdateChunkData>)
  {
    && Represents(c, file, hashes, plain, chunks)
    && Touches(c.size, |plain|, pos, |more|, start, stop)
    && Prepared(c, |file|, |plain|, Patch(plain, pos, more, truncate), start, stop, truncate, updates)
  }

  lemma PendingRewrite(c: Codec, file: Bytes, hashes: Bytes, plain: Bytes, chunks: nat, pos: nat, more: Bytes,
                       start: nat, stop: nat, truncate: bool, updates: seq<UpdateChunkData>)
    requires Pending(c, file, hashes, plain, chunks, pos, more, start, stop, truncate, updates)
    ensures Rewrite(c, file, hashes, plain, chunks, pos, more, truncate, start, stop, Chunks(updates))
    ensures Consecutive(updates, c.full(), start)
    ensures Start(start, c.full()) <= |file| && Start(start, HMAC_SIZE) <= |hashes|
  {
    PreparedRun(c, |file|, |plain|, Patch(plain, pos, more, truncate), start, stop, truncate, updates);
    RewriteFits(c, file, hashes, plain, chunks, pos, more, truncate, start, stop, Chunks(updates));
  }

  /** The number of chunks tells whether anything follows chunk `stop`. */
  lemma BeyondStop(c: Codec, fileSize: nat, plainSize: nat, chunks: nat, stop: nat)
    requires c.Valid() && Layout(c, fileSize, plainSize, chunks)
    ensures chunks <= stop + 1 <==> fileSize <= Start(stop + 1, c.full())
  {
    if chunks <= stop + 1 {
      LayoutBound(c, fileSize, plainSize, chunks);
      StartMono(chunks, stop + 1, c.full());
    } else {
      StartMono(stop + 1, chunks - 1, c.full());
      LengthGrows(c, 0, plainSize - Start(chunks - 1, c.size));
    }
  }

  /** What the server's strings become when it applies all squashed operations. */
  lemma SquashedOutcome(c: Codec, file: Bytes, hashes: Bytes, plain: Bytes, chunks: nat, pos: nat, more: Bytes,
                        start: nat, stop: nat, truncate: bool, updates: seq<UpdateChunkData>)
    requires Pending(c, file, hashes, plain, chunks, pos, more, start, stop, truncate, updates)
    ensures Start(start, c.full()) <= |file| && Start(start, HMAC_SIZE) <= |hashes|
    ensures var changes := Squash(updates, c.full());
            var all := truncate || |changes| > 1;
            && PatchAll(file, ChangeDatas(changes), DataPositions(changes), truncate)
               == Some(FileAfter(c, file, start, Chunks(updates), all))
            && PatchAll(hashes, ChangeChecksums(changes), ChecksumPositions(changes), truncate)
               == Some(HashesWith(hashes, start, Chunks(updates), all))
  {
    PendingRewrite(c, file, hashes, plain, chunks, pos, more, start, stop, truncate, updates);
    SquashContiguous(updates, c.full(), start);
    var changes := Squash(updates, c.full());
    PatchAllOutcome(file, ChangeDatas(changes), DataPositions(changes), truncate);
    PatchAllOutcome(hashes, ChangeChecksums(changes), ChecksumPositions(changes), truncate);
  }

  /** Truncating at chunk `stop` loses something exactly when something follows it. */
  lemma TruncationOutcome(c: Codec, file: Bytes, hashes: Bytes, plain: Bytes, chunks: nat, pos: nat, more: Bytes,
                          start: nat, stop: nat, updates: seq<UpdateChunkData>)
    requires Pending(c, file, hashes, plain, chunks, pos, more, start, stop, false, updates)
    requires Start(start, c.full()) <= |file| && Start(start, HMAC_SIZE) <= |hashes|
    ensures |file| <= Start(stop + 1, c.full()) ==>
              && FileAfter(c, file, start, Chunks(updates), true) == FileAfter(c, file, start, Chunks(updates), false)
              && HashesWith(hashes, start, Chunks(updates), true) == HashesWith(hashes, start, Chunks(updates), false)
    ensures |file| > Start(stop + 1, c.full()) ==>
              |FileAfter(c, file, start, Chunks(updates), true)| < |FileAfter(c, file, start, Chunks(updates), false)|
  {
    TailBeyondRun(c, file, hashes, plain, chunks, pos, more, start, stop, updates);
    DropsTail(file, Start(start, c.full()), Join(Datas(Chunks(updates))));
    DropsTail(hashes, Start(start, HMAC_SIZE), Join(Hmacs(Chunks(updates))));
  }

  lemma TailBeyondRun(c: Codec, file: Bytes, hashes: Bytes, plain: Bytes, chunks: nat, pos: nat, more: Bytes,
                      start: nat, stop: nat, updates: seq<UpdateChunkData>)
    requires Pending(c, file, hashes, plain, chunks, pos, more, start, stop, false, updates)
    ensures |file| <= Start(stop + 1, c.full()) <==> |file| <= Start(start, c.full()) + |Join(Datas(Chunks(updates)))|
    ensures |file| <= Start(stop + 1, c.full()) ==>
              |hashes| <= Start(start, HMAC_SIZE) + |Join(Hmacs(Chunks(updates)))|
  {
    PendingRewrite(c, file, hashes, plain, chunks, pos, more, start, stop, false, updates);
    RunEndsWithin(c, Chunks(updates), Patch(plain, pos, more, false), start, stop);
    ShortLastChunk(c, |file|, |plain|, chunks, pos + |more|, stop);
    BeyondStop(c, |file|, |plain|, chunks, stop);
    if chunks <= stop + 1 { StartMono(chunks, stop + 1, HMAC_SIZE); }
  }

  lemma RunEndsWithin(c: Codec, run: seq<Chunk>, after: Bytes, start: nat, stop: nat)
    requires c.Valid() && SealedRun(c, run, after, start) && |run| == stop - start + 1 && run != []
    requires Start(stop, c.size) <= |after|
    ensures Start(start, c.full()) + |Join(Datas(run))| == Start(stop, c.full()) + LastLength(c, |after|, stop)
    ensures Start(stop + 1, c.full()) == Start(stop, c.full()) + c.full()
    ensures LastLength(c, |after|, stop) <= c.full()
    ensures Start(start, HMAC_SIZE) + |Join(Hmacs(run))| == Start(stop + 1, HMAC_SIZE)
  {
    RunPieces(c, run, after, start, stop);
    RunEnds(c, run, after, start, stop);
  }

  /** One squashed operation, in terms of what a caller knows. */
  lemma OneOperation(c: Codec, fileSize: nat, plainSize: nat, after: Bytes, start: nat, stop: nat, truncate: bool,
                     updates: seq<UpdateChunkData>)
    requires c.Valid() && Prepared(c, fileSize, plainSize, after, start, stop, truncate, updates)
    requires Start(stop, c.size) <= |after|
    ensures |Squash(updates, c.full())| == 1 <==>
              start == stop || Start(stop - start, c.full()) + LastLength(c, |after|, stop) < SERVER_OPERATION_SIZE_LIMIT
  {
    PreparedRun(c, fileSize, plainSize, after, start, stop, truncate, updates);
    SquashGroups(updates, c.full(), start);
    SingleGroup(ChunkLengths(updates));
    SpanOfRun(c, updates, after, start, stop);
  }

  lemma SpanOfRun(c: Codec, updates: seq<UpdateChunkData>, after: Bytes, start: nat, stop: nat)
    requires c.Valid() && |updates| == stop - start + 1 && start <= stop && SealedRun(c, Chunks(updates), after, start)
    requires Start(stop, c.size) <= |after|
    ensures Sum(ChunkLengths(updates)) == Start(stop - start, c.full()) + LastLength(c, |after|, stop)
  {
    SumOfChunks(updates);
    RunPieces(c, Chunks(updates), after, start, stop);
    JoinLength(Datas(Chunks(updates)), c.full());
  }

  /** A write that loses data: the first four of ten chunks are rewritten without truncation. They do not fit
      one operation, so they go out as two in one request, and the first of the two truncates the file. */
  lemma TailLostExample(ce: ChunkEncryptor)
    requires ce.chunkSize == 0x2_0000
    ensures var plainSize, data := 0x14_0000, Zeros(0x8_0000);
            && !KeepsTail(ce, plainSize, ce.EncryptedFileSize(plainSize), 0, data, false)
            && OperationCount(ce, plainSize, 0, data, false) == SERVER_OPERATIONS_LIMIT / 2
  {
    var size, E, data := 0x2_0000, 0x2_0040, Zeros(0x8_0000);
    PieceUnique(0, size, 0);
    PieceUnique(0x8_0000 - 1, size, 3);
    PieceUnique(0x14_0000 + size - 1, size, 10);
    PieceUnique(0x14_0000, size, 10);
    StartIsProduct(3, E);
    StartIsProduct(4, E);
    StartIsProduct(9, E);
    var lengths := RunLengths(3, E, E);
    assert lengths == [E, E, E, E];
    assert [E, E][..1] == [E] && [E, E, E][..2] == [E, E] && [E, E, E, E][..3] == [E, E, E];
    assert Groups([E, E]) == [E + E];
    assert Groups([E, E, E]) == [E + E + E];
    assert Groups([E, E, E, E]) == [E + E + E, E];
  }

  /** The number of operations in terms of the number of chunks touched and the length of the last. */
  lemma OperationCountClosed(ce: ChunkEncryptor, plainSize: nat, offset: nat, data: Bytes, truncate: bool, per: nat)
    requires ce.chunkSize > 0 && PerOperation(ce.EncryptedChunkSize(), per)
    ensures var lengths := TouchedLengths(ce, plainSize, offset, data, truncate);
            OperationCount(ce, plainSize, offset, data, truncate)
            == RunCount(|lengths| - 1, ce.EncryptedChunkSize(), lengths[|lengths| - 1], per)
  {
    LengthsCount(TouchedLengths(ce, plainSize, offset, data, truncate), ce.EncryptedChunkSize(), per);
  }

  lemma LengthsCount(lengths: seq<nat>, full: nat, per: nat)
    requires PerOperation(full, per) && lengths != [] && forall k | 0 <= k < |lengths| - 1 :: lengths[k] == full
    ensures |Groups(lengths)| == RunCount(|lengths| - 1, full, lengths[|lengths| - 1], per)
  {
    var n := |lengths| - 1;
    assert lengths == FullLengths(n, full) + [lengths[n]];
    RunGroups(n, full, lengths[n], lengths, per);
  }

  lemma ThreePerOperation()
    ensures PerOperation(0x2_0040, 3)
  {
    StartIsProduct(3, 0x2_0040);
    StartIsProduct(4, 0x2_0040);
  }

  /** A write that keeps the tail and is never carried out: one byte in the eighth chunk of an empty file, where a
      position can be left over from before a sync. The gap is filled with zeros, which takes three operations. The
      first request leaves the file cut off, and the second is refused. */
  lemma ThreeOperationsExample(ce: ChunkEncryptor, truncate: bool)
    requires ce.chunkSize == 0x2_0000
    ensures var offset, data := 0xE_0000, Zeros(1);
            && KeepsTail(ce, 0, 0, offset, data, truncate)
            && OperationCount(ce, 0, offset, data, truncate) == 3
            && !Faithful(ce, 0, 0, offset, data, truncate)
  {
    var size, data := 0x2_0000, Zeros(1);
    PieceUnique(0, size, 0);
    StartIsProduct(7, size);
    PieceUnique(0xE_0000, size, 7);
    ThreePerOperation();
    PieceUnique(6, 3, 2);
    OperationCountClosed(ce, 0, 0xE_0000, data, truncate, 3);
  }
}
