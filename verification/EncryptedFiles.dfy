/** What it means for the bytes kept by the server to hold a given plain file, and how that
    survives rewriting a run of chunks. */
module EncryptedFiles {
  import opened ByteStrings
  import opened Results
  import opened ChunkEncryption

  /** What the file engine relies on in a chunk encryptor: the encrypted length of a chunk, and
      which plain text an encrypted chunk opens to under a chunk number. */
  datatype Codec = Codec(size: nat, length: nat -> nat, opens: (nat, Chunk, Bytes) -> bool) {
    ghost predicate Valid() {
      && size > 0 && length(0) > 0
      && (forall m: nat, n: nat {:trigger Grows(m, n)} :: Grows(m, n) ==> length(m) <= length(n))
    }

    function full(): nat {
      length(size)
    }
  }

  /** Named so that the growth of encrypted lengths is applied only where it is asked for. */
  ghost predicate Grows(m: nat, n: nat) {
    m <= n
  }

  /** Encrypted chunks are not empty, and do not shrink when their plain text grows. */
  lemma LengthGrows(c: Codec, m: nat, n: nat)
    requires c.Valid() && m <= n
    ensures 0 < c.length(m) <= c.length(n)
  {
    assert Grows(m, n) && Grows(0, m);
  }

  /** The codec of a chunk encryptor. */
  ghost function CodecOf(ce: ChunkEncryptor): (c: Codec)
    requires ce.Valid()
    ensures c.Valid() && c.size == ce.chunkSize && c.full() == ce.EncryptedChunkSize()
  {
    Codec(ce.chunkSize, (n: nat) => EncryptedLength(n),
          (i: nat, chunk: Chunk, plain: Bytes) => ce.Valid() && ce.Decrypt(i, chunk) == Ok(plain))
  }

  lemma CodecOpens(ce: ChunkEncryptor, index: nat, chunk: Chunk, plain: Bytes)
    requires ce.Valid()
    ensures CodecOf(ce).opens(index, chunk, plain) <==> ce.Decrypt(index, chunk) == Ok(plain)
    ensures CodecOf(ce).length(|plain|) == EncryptedLength(|plain|)
  {
  }

  /** `chunk` is some encryption of `plain` as chunk number `index`. */
  ghost predicate Sealed(c: Codec, index: nat, chunk: Chunk, plain: Bytes) {
    && |chunk.data| == c.length(|plain|)
    && |chunk.hmac| == HMAC_SIZE
    && c.opens(index, chunk, plain)
  }

  function ChunkAt(size: nat, file: Bytes, hashes: Bytes, index: nat): Chunk {
    Chunk(Slice(file, size, index), Slice(hashes, HMAC_SIZE, index))
  }

  /** The lengths of a file of `chunks` chunks. The last chunk may be empty only because a write
      of no bytes put it there. */
  ghost predicate Layout(c: Codec, fileSize: nat, plainSize: nat, chunks: nat) {
    if chunks == 0 then plainSize == 0 && fileSize == 0
    else
      && Start(chunks - 1, c.size) <= plainSize <= Start(chunks - 1, c.size) + c.size
      && fileSize == Start(chunks - 1, c.full()) + c.length(plainSize - Start(chunks - 1, c.size))
  }

  /** Every chunk of the server bytes opens to the chunk of the plain file with the same number. */
  ghost predicate Contents(c: Codec, file: Bytes, hashes: Bytes, plain: Bytes, chunks: nat) {
    forall i: nat | i < chunks :: ChunkHolds(c, file, hashes, plain, i)
  }

  ghost predicate ChunkHolds(c: Codec, file: Bytes, hashes: Bytes, plain: Bytes, i: nat) {
    Sealed(c, i, ChunkAt(c.full(), file, hashes, i), Slice(plain, c.size, i))
  }

  lemma ContentsAt(c: Codec, file: Bytes, hashes: Bytes, plain: Bytes, chunks: nat, i: nat)
    requires Contents(c, file, hashes, plain, chunks) && i < chunks
    ensures Sealed(c, i, ChunkAt(c.full(), file, hashes, i), Slice(plain, c.size, i))
  {
    var holds := ChunkHolds(c, file, hashes, plain, i);
    assert holds;
  }

  /** The server bytes `file` and checksum list `hashes` hold the file `plain` in `chunks` chunks. */
  ghost predicate Represents(c: Codec, file: Bytes, hashes: Bytes, plain: Bytes, chunks: nat) {
    && c.Valid()
    && Layout(c, |file|, |plain|, chunks)
    && |hashes| == Start(chunks, HMAC_SIZE)
    && Contents(c, file, hashes, plain, chunks)
  }

  /** `Represents`, for the invariants of classes. It says the same, but the verifier looks inside
      only where `Unfold` is called: methods that merely carry the fact along stay cheap. */
  ghost predicate Holds(c: Codec, file: Bytes, hashes: Bytes, plain: Bytes, chunks: nat) {
    forall o: Occasion {:trigger Unfolding(o, plain, chunks)} ::
      Unfolding(o, plain, chunks) ==> Represents(c, file, hashes, plain, chunks)
  }

  datatype Occasion = Occasion

  /** Mentioned where a guarded predicate about this string and number is to be looked into. */
  ghost predicate Unfolding(o: Occasion, subject: Bytes, number: nat) {
    o.Occasion?
  }

  lemma Unfold(c: Codec, file: Bytes, hashes: Bytes, plain: Bytes, chunks: nat)
    ensures Holds(c, file, hashes, plain, chunks) <==> Represents(c, file, hashes, plain, chunks)
  {
    assert Unfolding(Occasion, plain, chunks);
  }

  // ---- Lengths ----

  lemma FullStep(c: Codec, chunks: nat)
    requires chunks > 0
    ensures Start(chunks, c.size) == Start(chunks - 1, c.size) + c.size
    ensures Start(chunks, c.full()) == Start(chunks - 1, c.full()) + c.full()
  {
  }

  lemma LayoutBound(c: Codec, fileSize: nat, plainSize: nat, chunks: nat)
    requires c.Valid() && Layout(c, fileSize, plainSize, chunks)
    ensures plainSize <= Start(chunks, c.size) && fileSize <= Start(chunks, c.full())
  {
    if chunks > 0 {
      FullStep(c, chunks);
      LengthGrows(c, plainSize - Start(chunks - 1, c.size), c.size);
    }
  }

  /** A chunk that starts within the plain file starts within the server bytes and the checksums. */
  lemma ChunkStarts(c: Codec, fileSize: nat, plainSize: nat, chunks: nat, i: nat)
    requires c.Valid() && Layout(c, fileSize, plainSize, chunks)
    requires Start(i, c.size) <= plainSize
    ensures i <= chunks
    ensures Start(i, c.full()) <= fileSize
    ensures Start(i, HMAC_SIZE) <= Start(chunks, HMAC_SIZE)
  {
    if i > chunks {
      LayoutBound(c, fileSize, plainSize, chunks);
      StartMono(chunks, i, c.size);
    }
    StartMono(i, chunks, HMAC_SIZE);
    if i == chunks && i > 0 {
      FullStep(c, i);
    } else if i < chunks {
      StartMono(i, chunks - 1, c.full());
    }
  }

  /** Size of a plain or encrypted file after writing up to `end`. */
  function SizeAfter(before: nat, end: nat, truncate: bool): nat {
    if truncate then end else Max(before, end)
  }

  function ChunksAfter(chunks: nat, stop: nat, truncate: bool): nat {
    if truncate then stop + 1 else Max(chunks, stop + 1)
  }

  /** Encrypted length of chunk `stop`, the last one written. */
  function LastLength(c: Codec, sizeAfter: nat, stop: nat): nat
    requires Start(stop, c.size) <= sizeAfter
  {
    c.length(Min(c.size, sizeAfter - Start(stop, c.size)))
  }

  lemma ChunksBeyond(size: nat, chunks: nat, stop: nat)
    requires stop + 1 < chunks
    ensures Start(stop, size) + size <= Start(chunks - 1, size)
  {
    StartMono(stop, chunks - 1, size);
  }

  lemma LayoutEnd(c: Codec, fileSize: nat, plainSize: nat, chunks: nat, stop: nat)
    requires c.Valid() && Layout(c, fileSize, plainSize, chunks) && chunks <= stop
    ensures plainSize <= Start(stop, c.size) && fileSize <= Start(stop, c.full())
  {
    LayoutBound(c, fileSize, plainSize, chunks);
    StartMono(chunks, stop, c.size);
    StartMono(chunks, stop, c.full());
  }

  /** The last chunk does not shrink when the plain file grows. */
  lemma LastGrows(c: Codec, before: nat, after: nat, stop: nat)
    requires c.Valid() && Start(stop, c.size) <= before <= after <= Start(stop, c.size) + c.size
    ensures c.length(before - Start(stop, c.size)) <= LastLength(c, after, stop)
  {
    LengthGrows(c, before - Start(stop, c.size), after - Start(stop, c.size));
  }

  /** Sizes after rewriting the chunks up to `stop`. */
  lemma LayoutAfter(c: Codec, fileSize: nat, plainSize: nat, chunks: nat, end: nat, truncate: bool, stop: nat)
    requires c.Valid() && Layout(c, fileSize, plainSize, chunks)
    requires Start(stop, c.size) <= end <= Start(stop, c.size) + c.size
    ensures var sizeAfter := SizeAfter(plainSize, end, truncate);
            Layout(c, SizeAfter(fileSize, Start(stop, c.full()) + LastLength(c, sizeAfter, stop), truncate),
                   sizeAfter, ChunksAfter(chunks, stop, truncate))
  {
    if !truncate {
      if stop + 1 < chunks {
        LayoutInside(c, fileSize, plainSize, chunks, stop);
      } else if chunks <= stop {
        LayoutEnd(c, fileSize, plainSize, chunks, stop);
      } else {
        LastGrows(c, plainSize, SizeAfter(plainSize, end, false), stop);
      }
    }
  }

  lemma LayoutInside(c: Codec, fileSize: nat, plainSize: nat, chunks: nat, stop: nat)
    requires c.Valid() && Layout(c, fileSize, plainSize, chunks) && stop + 1 < chunks
    ensures Start(stop, c.size) + c.size <= plainSize
    ensures LastLength(c, plainSize, stop) == c.full()
    ensures Start(stop, c.full()) + c.full() <= fileSize
  {
    ChunksBeyond(c.size, chunks, stop);
    ChunksBeyond(c.full(), chunks, stop);
  }

  /** The server bytes determine the number of chunks, the size and the contents of the plain file. */
  lemma RepresentsUnique(c: Codec, file: Bytes, hashes: Bytes, p: Bytes, q: Bytes, m: nat, n: nat)
    requires Represents(c, file, hashes, p, m) && Represents(c, file, hashes, q, n)
    requires forall i: nat, chunk, x, y :: c.opens(i, chunk, x) && c.opens(i, chunk, y) ==> x == y
    ensures p == q && m == n
  {
    HashesDetermine(m, n);
    forall i: nat | i < m ensures Slice(p, c.size, i) == Slice(q, c.size, i) {
      ContentsAt(c, file, hashes, p, m, i);
      ContentsAt(c, file, hashes, q, n, i);
    }
    SlicesUpTo(p, q, c.size, m, c, |file|);
  }

  lemma HashesDetermine(m: nat, n: nat)
    requires Start(m, HMAC_SIZE) == Start(n, HMAC_SIZE)
    ensures m == n
  {
    StartIsProduct(m, HMAC_SIZE);
    StartIsProduct(n, HMAC_SIZE);
  }

  lemma SlicesUpTo(p: Bytes, q: Bytes, size: nat, m: nat, c: Codec, fileSize: nat)
    requires c.Valid() && c.size == size && Layout(c, fileSize, |p|, m) && Layout(c, fileSize, |q|, m)
    requires forall i: nat | i < m :: Slice(p, size, i) == Slice(q, size, i)
    ensures p == q
  {
    if m > 0 {
      assert |Slice(p, size, m - 1)| == |p| - Start(m - 1, size);
      assert |Slice(q, size, m - 1)| == |q| - Start(m - 1, size);
      LayoutBound(c, fileSize, |p|, m);
      forall i: nat | Start(i, size) < |p| ensures Slice(p, size, i) == Slice(q, size, i) {
        if i >= m { StartMono(m, i, size); }
      }
      SlicesDetermine(p, q, size);
    }
  }

  // ---- Joining the pieces of a run of chunks ----

  function Join(parts: seq<Bytes>): Bytes {
    if parts == [] then [] else Join(parts[..|parts| - 1]) + parts[|parts| - 1]
  }

  /** All parts have `size` bytes, but the last may be shorter. */
  ghost predicate Pieces(parts: seq<Bytes>, size: nat) {
    && (forall k | 0 <= k < |parts| - 1 :: |parts[k]| == size)
    && (parts != [] ==> |parts[|parts| - 1]| <= size)
  }

  lemma {:induction false} JoinLength(parts: seq<Bytes>, size: nat)
    requires Pieces(parts, size) && parts != []
    ensures |Join(parts)| == Start(|parts| - 1, size) + |parts[|parts| - 1]|
  {
    if |parts| > 1 {
      JoinLength(parts[..|parts| - 1], size);
    } else {
      assert Join(parts[..0]) == [];
    }
  }

  lemma {:induction false} JoinSlice(parts: seq<Bytes>, size: nat, k: nat)
    requires Pieces(parts, size) && k < |parts|
    ensures Slice(Join(parts), size, k) == parts[k]
  {
    var n := |parts| - 1;
    var front := Join(parts[..n]);
    JoinFront(parts, size);
    if k < n {
      JoinSlice(parts[..n], size, k);
      StartMono(k, n, size);
      SliceOfPrefix(front, parts[n], size, k);
    }
  }

  /** The pieces before the last join to whole pieces only. */
  lemma JoinFront(parts: seq<Bytes>, size: nat)
    requires Pieces(parts, size) && parts != []
    ensures Pieces(parts[..|parts| - 1], size)
    ensures |Join(parts[..|parts| - 1])| == Start(|parts| - 1, size)
  {
    var front := parts[..|parts| - 1];
    if front != [] { JoinLength(front, size); }
  }

  lemma SliceOfPrefix(front: Bytes, rest: Bytes, size: nat, k: nat)
    requires Start(k, size) + size <= |front|
    ensures Slice(front + rest, size, k) == Slice(front, size, k)
  {
  }

  function Datas(chunks: seq<Chunk>): (r: seq<Bytes>)
    ensures |r| == |chunks|
    ensures forall i | 0 <= i < |r| :: r[i] == chunks[i].data
  {
    seq(|chunks|, i requires 0 <= i < |chunks| => chunks[i].data)
  }

  function Hmacs(chunks: seq<Chunk>): (r: seq<Bytes>)
    ensures |r| == |chunks|
    ensures forall i | 0 <= i < |r| :: r[i] == chunks[i].hmac
  {
    seq(|chunks|, i requires 0 <= i < |chunks| => chunks[i].hmac)
  }

  // ---- Rewriting a run of chunks ----

  /** Putting `length` bytes at `offset` of a file of `plainSize` bytes touches exactly the
      chunks `start`..`stop`. */
  ghost predicate Touches(size: nat, plainSize: nat, offset: nat, length: nat, start: nat, stop: nat) {
    && start <= stop && offset <= plainSize
    && Start(start, size) <= offset < Start(start, size) + size
    && Start(stop, size) <= offset + length <= Start(stop, size) + size
  }

  /** `run` holds encryptions of the chunks `start`.. of `plain`. */
  ghost predicate SealedRun(c: Codec, run: seq<Chunk>, plain: Bytes, start: nat) {
    forall k: nat | k < |run| :: SealedInRun(c, run, plain, start, k)
  }

  ghost predicate SealedInRun(c: Codec, run: seq<Chunk>, plain: Bytes, start: nat, k: nat)
    requires k < |run|
  {
    Sealed(c, start + k, run[k], Slice(plain, c.size, start + k))
  }

  lemma SealedRunAt(c: Codec, run: seq<Chunk>, plain: Bytes, start: nat, k: nat)
    requires SealedRun(c, run, plain, start) && k < |run|
    ensures Sealed(c, start + k, run[k], Slice(plain, c.size, start + k))
  {
    var holds := SealedInRun(c, run, plain, start, k);
    assert holds;
  }

  /** In the file after the write, the touched chunks before the last are full. */
  lemma TouchedChunkSize(size: nat, after: Bytes, start: nat, stop: nat, i: nat)
    requires start <= i <= stop && Start(stop, size) <= |after|
    ensures |Slice(after, size, i)| == if i < stop then size else Min(size, |after| - Start(stop, size))
  {
    StartMono(i, stop, size);
  }

  lemma RunChunkLength(c: Codec, run: seq<Chunk>, after: Bytes, start: nat, stop: nat, k: nat)
    requires c.Valid() && SealedRun(c, run, after, start) && |run| == stop - start + 1 && k < |run|
    requires Start(stop, c.size) <= |after|
    ensures |run[k].hmac| == HMAC_SIZE
    ensures |run[k].data| == if k < stop - start then c.full() else LastLength(c, |after|, stop)
    ensures |run[k].data| <= c.full()
  {
    SealedRunAt(c, run, after, start, k);
    TouchedChunkSize(c.size, after, start, stop, start + k);
    LengthGrows(c, |Slice(after, c.size, start + k)|, c.size);
  }

  lemma RunPieces(c: Codec, run: seq<Chunk>, after: Bytes, start: nat, stop: nat)
    requires c.Valid() && SealedRun(c, run, after, start) && |run| == stop - start + 1 && run != []
    requires Start(stop, c.size) <= |after|
    ensures Pieces(Datas(run), c.full()) && Pieces(Hmacs(run), HMAC_SIZE)
    ensures |Datas(run)[stop - start]| == LastLength(c, |after|, stop) <= c.full()
    ensures |Hmacs(run)[stop - start]| == HMAC_SIZE
  {
    forall k: nat | k < |run|
      ensures |run[k].hmac| == HMAC_SIZE && |run[k].data| <= c.full()
      ensures |run[k].data| == if k < stop - start then c.full() else LastLength(c, |after|, stop)
    {
      RunChunkLength(c, run, after, start, stop, k);
    }
  }

  /** Where a run of pieces ends. */
  lemma RunEnd(parts: seq<Bytes>, size: nat, start: nat, stop: nat)
    requires Pieces(parts, size) && |parts| == stop - start + 1 && parts != []
    ensures Start(start, size) + |Join(parts)| == Start(stop, size) + |parts[stop - start]|
  {
    JoinLength(parts, size);
    StartSum(start, stop - start, size);
  }

  lemma RunEnds(c: Codec, run: seq<Chunk>, after: Bytes, start: nat, stop: nat)
    requires c.Valid() && SealedRun(c, run, after, start) && |run| == stop - start + 1 && run != []
    requires Start(stop, c.size) <= |after|
    ensures Start(start, c.full()) + |Join(Datas(run))| == Start(stop, c.full()) + LastLength(c, |after|, stop)
    ensures Start(start, HMAC_SIZE) + |Join(Hmacs(run))| == Start(stop, HMAC_SIZE) + HMAC_SIZE
  {
    RunPieces(c, run, after, start, stop);
    RunEnd(Datas(run), c.full(), start, stop);
    RunEnd(Hmacs(run), HMAC_SIZE, start, stop);
  }

  lemma HashesAfter(hashes: Bytes, chunks: nat, start: nat, stop: nat, hmacs: Bytes, truncate: bool)
    requires |hashes| == Start(chunks, HMAC_SIZE) && Start(start, HMAC_SIZE) <= |hashes|
    requires Start(start, HMAC_SIZE) + |hmacs| == Start(stop, HMAC_SIZE) + HMAC_SIZE
    ensures |Patch(hashes, Start(start, HMAC_SIZE), hmacs, truncate)|
            == Start(ChunksAfter(chunks, stop, truncate), HMAC_SIZE)
  {
    if chunks <= stop + 1 {
      StartMono(chunks, stop + 1, HMAC_SIZE);
    } else {
      StartMono(stop + 1, chunks, HMAC_SIZE);
    }
  }

  /** A slice inside the rewritten run is the corresponding piece of the run. */
  lemma RewrittenPiece(prior: Bytes, parts: seq<Bytes>, size: nat, start: nat, k: nat, truncate: bool)
    requires Pieces(parts, size) && k < |parts| && Start(start, size) <= |prior|
    requires truncate || |parts[k]| == size || |prior| <= Start(start, size) + |Join(parts)|
    ensures Slice(Patch(prior, Start(start, size), Join(parts), truncate), size, start + k) == parts[k]
  {
    PieceEnds(parts, size, k);
    JoinSlice(parts, size, k);
    SliceOfPatch(prior, Join(parts), size, start, k, truncate);
  }

  /** A slice of a patched string that shows nothing but the patch. */
  lemma SliceOfPatch(prior: Bytes, data: Bytes, size: nat, start: nat, k: nat, truncate: bool)
    requires Start(start, size) <= |prior| && Start(k, size) <= |data|
    requires truncate || Start(k, size) + size <= |data| || |prior| <= Start(start, size) + |data|
    ensures Slice(Patch(prior, Start(start, size), data, truncate), size, start + k) == Slice(data, size, k)
  {
    StartSum(start, k, size);
    WindowInsidePatch(prior, Start(start, size), data, truncate,
                      Start(start, size) + Start(k, size), Start(start, size) + Start(k, size) + size);
  }

  lemma PieceEnds(parts: seq<Bytes>, size: nat, k: nat)
    requires Pieces(parts, size) && k < |parts|
    ensures Start(k, size) <= |Join(parts)|
    ensures |parts[k]| == size ==> Start(k, size) + size <= |Join(parts)|
  {
    JoinLength(parts, size);
    StartMono(k, |parts| - 1, size);
  }

  lemma SliceBefore(s: Bytes, pos: nat, data: Bytes, truncate: bool, size: nat, start: nat, i: nat)
    requires i < start && Start(start, size) <= pos <= |s|
    ensures Slice(Patch(s, pos, data, truncate), size, i) == Slice(s, size, i)
  {
    StartMono(i, start, size);
    WindowBeforePatch(s, pos, data, truncate, Start(i, size), Start(i, size) + size);
  }

  lemma SliceAfter(s: Bytes, pos: nat, data: Bytes, size: nat, stop: nat, i: nat)
    requires stop < i && pos <= |s| && pos + |data| <= Start(stop, size) + size
    ensures Slice(Patch(s, pos, data, false), size, i) == Slice(s, size, i)
  {
    StartMono(stop, i, size);
    WindowAfterPatch(s, pos, data, Start(i, size), Start(i, size) + size);
  }

  /** If a write does not truncate, a last chunk that is not full ends the file. */
  lemma ShortLastChunk(c: Codec, fileSize: nat, plainSize: nat, chunks: nat, end: nat, stop: nat)
    requires c.Valid() && Layout(c, fileSize, plainSize, chunks)
    requires Start(stop, c.size) <= end <= Start(stop, c.size) + c.size
    ensures var last := LastLength(c, SizeAfter(plainSize, end, false), stop);
            last == c.full() || fileSize <= Start(stop, c.full()) + last
  {
    if stop + 1 < chunks {
      LayoutInside(c, fileSize, plainSize, chunks, stop);
    } else if chunks <= stop {
      LayoutEnd(c, fileSize, plainSize, chunks, stop);
    } else {
      LastGrows(c, plainSize, SizeAfter(plainSize, end, false), stop);
    }
  }

  /** The write described by the remaining lemmas: `data` goes to `offset` of `plain`, and `run`
      holds encryptions of the touched chunks of the result. */
  ghost predicate Rewrite(c: Codec, file: Bytes, hashes: Bytes, plain: Bytes, chunks: nat,
                          offset: nat, data: Bytes, truncate: bool, start: nat, stop: nat, run: seq<Chunk>)
  {
    && Represents(c, file, hashes, plain, chunks)
    && Touches(c.size, |plain|, offset, |data|, start, stop)
    && |run| == stop - start + 1
    && SealedRun(c, run, Patch(plain, offset, data, truncate), start)
  }

  function FileAfter(c: Codec, file: Bytes, start: nat, run: seq<Chunk>, truncate: bool): Bytes
    requires Start(start, c.full()) <= |file|
  {
    Patch(file, Start(start, c.full()), Join(Datas(run)), truncate)
  }

  function HashesWith(hashes: Bytes, start: nat, run: seq<Chunk>, truncate: bool): Bytes
    requires Start(start, HMAC_SIZE) <= |hashes|
  {
    Patch(hashes, Start(start, HMAC_SIZE), Join(Hmacs(run)), truncate)
  }

  lemma RewriteFits(c: Codec, file: Bytes, hashes: Bytes, plain: Bytes, chunks: nat,
                    offset: nat, data: Bytes, truncate: bool, start: nat, stop: nat, run: seq<Chunk>)
    requires Rewrite(c, file, hashes, plain, chunks, offset, data, truncate, start, stop, run)
    ensures Start(start, c.full()) <= |file| && Start(start, HMAC_SIZE) <= |hashes|
    ensures Start(stop, c.size) <= |Patch(plain, offset, data, truncate)|
  {
    ChunkStarts(c, |file|, |plain|, chunks, start);
  }

  lemma RewriteLengths(c: Codec, file: Bytes, hashes: Bytes, plain: Bytes, chunks: nat,
                       offset: nat, data: Bytes, truncate: bool, start: nat, stop: nat, run: seq<Chunk>)
    requires Rewrite(c, file, hashes, plain, chunks, offset, data, truncate, start, stop, run)
    requires Start(start, c.full()) <= |file| && Start(start, HMAC_SIZE) <= |hashes|
    ensures Layout(c, |FileAfter(c, file, start, run, truncate)|, |Patch(plain, offset, data, truncate)|,
                   ChunksAfter(chunks, stop, truncate))
    ensures |HashesWith(hashes, start, run, truncate)| == Start(ChunksAfter(chunks, stop, truncate), HMAC_SIZE)
  {
    RunEnds(c, run, Patch(plain, offset, data, truncate), start, stop);
    LayoutAfter(c, |file|, |plain|, chunks, offset + |data|, truncate, stop);
    HashesAfter(hashes, chunks, start, stop, Join(Hmacs(run)), truncate);
  }

  lemma RewrittenRunChunk(c: Codec, file: Bytes, hashes: Bytes, plain: Bytes, chunks: nat,
                          offset: nat, data: Bytes, truncate: bool, start: nat, stop: nat, run: seq<Chunk>, k: nat)
    requires Rewrite(c, file, hashes, plain, chunks, offset, data, truncate, start, stop, run)
    requires Start(start, c.full()) <= |file| && Start(start, HMAC_SIZE) <= |hashes| && k < |run|
    ensures ChunkAt(c.full(), FileAfter(c, file, start, run, truncate),
                    HashesWith(hashes, start, run, truncate), start + k) == run[k]
  {
    var after := Patch(plain, offset, data, truncate);
    RunPieces(c, run, after, start, stop);
    RunEnds(c, run, after, start, stop);
    RunChunkLength(c, run, after, start, stop, k);
    if !truncate { ShortLastChunk(c, |file|, |plain|, chunks, offset + |data|, stop); }
    RewrittenPiece(file, Datas(run), c.full(), start, k, truncate);
    RewrittenPiece(hashes, Hmacs(run), HMAC_SIZE, start, k, truncate);
  }

  lemma UntouchedChunk(c: Codec, file: Bytes, hashes: Bytes, plain: Bytes, chunks: nat,
                       offset: nat, data: Bytes, truncate: bool, start: nat, stop: nat, run: seq<Chunk>, i: nat)
    requires Rewrite(c, file, hashes, plain, chunks, offset, data, truncate, start, stop, run)
    requires Start(start, c.full()) <= |file| && Start(start, HMAC_SIZE) <= |hashes|
    requires i < start || (stop < i && !truncate)
    ensures Slice(Patch(plain, offset, data, truncate), c.size, i) == Slice(plain, c.size, i)
    ensures ChunkAt(c.full(), FileAfter(c, file, start, run, truncate), HashesWith(hashes, start, run, truncate), i)
            == ChunkAt(c.full(), file, hashes, i)
  {
    var datas, hmacs := Join(Datas(run)), Join(Hmacs(run));
    if i < start {
      SliceBefore(plain, offset, data, truncate, c.size, start, i);
      SliceBefore(file, Start(start, c.full()), datas, truncate, c.full(), start, i);
      SliceBefore(hashes, Start(start, HMAC_SIZE), hmacs, truncate, HMAC_SIZE, start, i);
    } else {
      RunPieces(c, run, Patch(plain, offset, data, truncate), start, stop);
      RunEnds(c, run, Patch(plain, offset, data, truncate), start, stop);
      SliceAfter(plain, offset, data, c.size, stop, i);
      SliceAfter(file, Start(start, c.full()), datas, c.full(), stop, i);
      SliceAfter(hashes, Start(start, HMAC_SIZE), hmacs, HMAC_SIZE, stop, i);
    }
  }

  lemma ChunkAfterRewrite(c: Codec, file: Bytes, hashes: Bytes, plain: Bytes, chunks: nat,
                          offset: nat, data: Bytes, truncate: bool, start: nat, stop: nat, run: seq<Chunk>, i: nat)
    requires Rewrite(c, file, hashes, plain, chunks, offset, data, truncate, start, stop, run)
    requires Start(start, c.full()) <= |file| && Start(start, HMAC_SIZE) <= |hashes|
    requires i < ChunksAfter(chunks, stop, truncate)
    ensures Sealed(c, i, ChunkAt(c.full(), FileAfter(c, file, start, run, truncate),
                                 HashesWith(hashes, start, run, truncate), i),
                   Slice(Patch(plain, offset, data, truncate), c.size, i))
  {
    if start <= i <= stop {
      var k := i - start;
      RewrittenRunChunk(c, file, hashes, plain, chunks, offset, data, truncate, start, stop, run, k);
      SealedRunAt(c, run, Patch(plain, offset, data, truncate), start, k);
    } else {
      UntouchedChunk(c, file, hashes, plain, chunks, offset, data, truncate, start, stop, run, i);
      StartsWithin(c, |file|, |plain|, chunks, offset, start);
      ContentsAt(c, file, hashes, plain, chunks, i);
    }
  }

  lemma StartsWithin(c: Codec, fileSize: nat, plainSize: nat, chunks: nat, offset: nat, start: nat)
    requires c.Valid() && Layout(c, fileSize, plainSize, chunks)
    requires Start(start, c.size) <= offset <= plainSize
    ensures start <= chunks
  {
    ChunkStarts(c, fileSize, plainSize, chunks, start);
  }

  /** Writing the re-encrypted chunks over the old ones, and their checksums over the old list,
      gives an encryption of the plain file with the data written to it. */
  lemma RewriteRun(c: Codec, file: Bytes, hashes: Bytes, plain: Bytes, chunks: nat,
                   offset: nat, data: Bytes, truncate: bool, start: nat, stop: nat, run: seq<Chunk>)
    requires Rewrite(c, file, hashes, plain, chunks, offset, data, truncate, start, stop, run)
    ensures Start(start, c.full()) <= |file| && Start(start, HMAC_SIZE) <= |hashes|
    ensures Represents(c, FileAfter(c, file, start, run, truncate), HashesWith(hashes, start, run, truncate),
                       Patch(plain, offset, data, truncate), ChunksAfter(chunks, stop, truncate))
  {
    RewriteFits(c, file, hashes, plain, chunks, offset, data, truncate, start, stop, run);
    RewriteLengths(c, file, hashes, plain, chunks, offset, data, truncate, start, stop, run);
    var file', hashes' := FileAfter(c, file, start, run, truncate), HashesWith(hashes, start, run, truncate);
    var plain' := Patch(plain, offset, data, truncate);
    forall i: nat | i < ChunksAfter(chunks, stop, truncate)
      ensures ChunkHolds(c, file', hashes', plain', i)
    {
      ChunkAfterRewrite(c, file, hashes, plain, chunks, offset, data, truncate, start, stop, run, i);
    }
  }
}
