/** Uploading: encrypts a file chunk by chunk and sends the encrypted bytes on in server-sized pieces. */
module ChunkStreamer {
  import opened ByteStrings
  import opened Results
  import opened CbcCipher
  import opened ChunkEncryption
  import opened EncryptedFiles
  import opened ChunkBufferedStream

  datatype UploadError =
    | InvalidFileChunkSize
    | DataSmallerThanDeclared
    | DataDifferentThanDeclared
    | Stream(cause: StreamError)
    | RequestFailed

  datatype Piece = Piece(seqNumber: nat, data: Bytes)

  datatype Commit = Commit(seqNumber: nat, checksum: Bytes)

  /** The server's record of one upload request. Any call may fail. */
  class RequestApi {
    var declaredSize: nat
    var declaredChecksumSize: nat
    var pieces: seq<Piece>
    var commit: Option<Commit>

    constructor ()
      ensures pieces == [] && commit == None
    {
      declaredSize, declaredChecksumSize, pieces, commit := 0, 0, [], None;
    }

    method CreateRequest(size: nat, checksumSize: nat) returns (ok: bool)
      modifies this
      ensures ok ==> declaredSize == size && declaredChecksumSize == checksumSize && pieces == [] && commit == None
    {
      declaredSize, declaredChecksumSize, pieces, commit := size, checksumSize, [], None;
      ok := *;
    }

    method SendChunk(seqNumber: nat, data: Bytes) returns (ok: bool)
      modifies this
      ensures declaredSize == old(declaredSize) && declaredChecksumSize == old(declaredChecksumSize)
      ensures ok ==> pieces == old(pieces) + [Piece(seqNumber, data)] && commit == old(commit)
    {
      if * {
        return false;
      }
      pieces := pieces + [Piece(seqNumber, data)];
      ok := *;
    }

    method CommitFile(seqNumber: nat, checksum: Bytes) returns (ok: bool)
      modifies this
      ensures declaredSize == old(declaredSize) && declaredChecksumSize == old(declaredChecksumSize)
      ensures ok ==> pieces == old(pieces) && commit == Some(Commit(seqNumber, checksum))
    {
      if * {
        return false;
      }
      commit := Some(Commit(seqNumber, checksum));
      ok := *;
    }
  }

  // ---- Pieces sent to the server ----

  /** The pieces are numbered from zero and are the first full-size pieces of `out`; `rest` is unsent. */
  ghost predicate SentUpTo(pieces: seq<Piece>, out: Bytes, rest: Bytes, size: nat) {
    && Start(|pieces|, size) <= |out| && out[Start(|pieces|, size)..] == rest
    && forall j: nat | j < |pieces| :: FullPiece(pieces, out, size, j)
  }

  /** The same, looked into only on demand. */
  ghost predicate Sent(pieces: seq<Piece>, out: Bytes, rest: Bytes, size: nat) {
    forall o: Occasion {:trigger Unfolding(o, rest, |pieces|)} :: Unfolding(o, rest, |pieces|) ==> SentUpTo(pieces, out, rest, size)
  }

  ghost predicate FullPiece(pieces: seq<Piece>, out: Bytes, size: nat, j: nat)
    requires j < |pieces|
  {
    pieces[j] == Piece(j, Slice(out, size, j)) && |pieces[j].data| == size
  }

  /** All of `out` has been sent, cut into numbered pieces that are full but for a shorter, non-empty last one. */
  ghost predicate SentAll(pieces: seq<Piece>, out: Bytes, size: nat) {
    && (forall j: nat | j < |pieces| :: NumberedPiece(pieces, out, size, j))
    && (if pieces == [] then out == []
        else Start(|pieces| - 1, size) < |out| <= Start(|pieces| - 1, size) + size)
  }

  ghost predicate NumberedPiece(pieces: seq<Piece>, out: Bytes, size: nat, j: nat)
    requires j < |pieces|
  {
    && pieces[j] == Piece(j, Slice(out, size, j))
    && (if j < |pieces| - 1 then |pieces[j].data| == size else 0 < |pieces[j].data| <= size)
  }

  function PieceDatas(pieces: seq<Piece>): (r: seq<Bytes>)
    ensures |r| == |pieces|
    ensures forall i | 0 <= i < |r| :: r[i] == pieces[i].data
  {
    seq(|pieces|, i requires 0 <= i < |pieces| => pieces[i].data)
  }

  /** What was sent is what was to be sent: the pieces concatenate to `out`. */
  lemma {:induction false} PiecesConserve(pieces: seq<Piece>, out: Bytes, size: nat)
    requires size > 0 && SentAll(pieces, out, size)
    ensures Join(PieceDatas(pieces)) == out
  {
    if pieces != [] {
      var parts := PieceDatas(pieces);
      forall j: nat | j < |pieces|
        ensures parts[j] == Slice(out, size, j) && |parts[j]| <= size && (j < |pieces| - 1 ==> |parts[j]| == size)
      {
        var holds := NumberedPiece(pieces, out, size, j);
        assert holds;
      }
      JoinLength(parts, size);
      forall i: nat | Start(i, size) < |out| ensures Slice(Join(parts), size, i) == Slice(out, size, i) {
        if i >= |parts| { StartMono(|parts|, i, size); }
        JoinSlice(parts, size, i);
      }
      SlicesDetermine(Join(parts), out, size);
    }
  }

  lemma SentMore(pieces: seq<Piece>, out: Bytes, rest: Bytes, more: Bytes, size: nat)
    requires Sent(pieces, out, rest, size)
    ensures Sent(pieces, out + more, rest + more, size)
  {
    assert Unfolding(Occasion, rest, |pieces|);
    forall j: nat | j < |pieces| ensures FullPiece(pieces, out + more, size, j) {
      var holds := FullPiece(pieces, out, size, j);
      assert holds;
      StartMono(j, |pieces|, size);
      SliceOfPrefix(out, more, size, j);
    }
  }

  lemma SentOne(pieces: seq<Piece>, out: Bytes, rest: Bytes, size: nat)
    requires size > 0 && Sent(pieces, out, rest, size) && |rest| >= size
    ensures Sent(pieces + [Piece(|pieces|, rest[..size])], out, rest[size..], size)
  {
    assert Unfolding(Occasion, rest, |pieces|);
    var pieces' := pieces + [Piece(|pieces|, rest[..size])];
    forall j: nat | j < |pieces'| ensures FullPiece(pieces', out, size, j) {
      if j < |pieces| {
        var holds := FullPiece(pieces, out, size, j);
        assert holds;
      }
    }
  }

  lemma SentLast(pieces: seq<Piece>, out: Bytes, rest: Bytes, size: nat)
    requires size > 0 && Sent(pieces, out, rest, size) && |rest| < size
    ensures rest == [] ==> SentAll(pieces, out, size)
    ensures rest != [] ==> SentAll(pieces + [Piece(|pieces|, rest)], out, size)
  {
    assert Unfolding(Occasion, rest, |pieces|);
    if rest == [] {
      NoRest(pieces, out, size);
    } else {
      ShortRest(pieces, out, rest, size);
    }
  }

  lemma NoRest(pieces: seq<Piece>, out: Bytes, size: nat)
    requires size > 0 && SentUpTo(pieces, out, [], size)
    ensures SentAll(pieces, out, size)
  {
    forall j: nat | j < |pieces| ensures NumberedPiece(pieces, out, size, j) {
      var holds := FullPiece(pieces, out, size, j);
      assert holds;
    }
  }

  lemma ShortRest(pieces: seq<Piece>, out: Bytes, rest: Bytes, size: nat)
    requires SentUpTo(pieces, out, rest, size) && 0 < |rest| < size
    ensures SentAll(pieces + [Piece(|pieces|, rest)], out, size)
  {
    var pieces' := pieces + [Piece(|pieces|, rest)];
    forall j: nat | j < |pieces'| ensures NumberedPiece(pieces', out, size, j) {
      if j < |pieces| {
        var holds := FullPiece(pieces, out, size, j);
        assert holds;
      }
    }
  }

  lemma NothingToSend(pieces: seq<Piece>, rest: Bytes, size: nat)
    requires size > 0 && Sent(pieces, [], rest, size)
    ensures pieces == []
  {
    assert Unfolding(Occasion, rest, |pieces|);
    StartMono(0, |pieces|, size);
  }

  /** An encrypted chunk after whole chunks only: the file grows by it. */
  lemma AppendChunk(c: Codec, out: Bytes, hashes: Bytes, plain: Bytes, chunks: nat, data: Bytes, chunk: Chunk)
    requires Represents(c, out, hashes, plain, chunks) && |plain| == Start(chunks, c.size)
    requires |data| <= c.size && Sealed(c, chunks, chunk, data)
    ensures Represents(c, out + chunk.data, hashes + chunk.hmac, plain + data, chunks + 1)
  {
    var run := [chunk];
    WholeChunks(c, out, hashes, plain, chunks);
    assert Slice(plain + data, c.size, chunks) == data;
    assert SealedInRun(c, run, plain + data, chunks, 0);
    AppendIsPatch(plain, data);
    AppendIsPatch(out, chunk.data);
    AppendIsPatch(hashes, chunk.hmac);
    OnePart(run);
    RewriteRun(c, out, hashes, plain, chunks, |plain|, data, true, chunks, chunks, run);
  }

  lemma WholeChunks(c: Codec, out: Bytes, hashes: Bytes, plain: Bytes, chunks: nat)
    requires Represents(c, out, hashes, plain, chunks) && |plain| == Start(chunks, c.size)
    ensures |out| == Start(chunks, c.full()) && |hashes| == Start(chunks, HMAC_SIZE)
  {
  }

  lemma AppendIsPatch(s: Bytes, more: Bytes)
    ensures Patch(s, |s|, more, true) == s + more
  {
  }

  lemma OnePart(run: seq<Chunk>)
    requires |run| == 1
    ensures Join(Datas(run)) == run[0].data && Join(Hmacs(run)) == run[0].hmac
  {
    assert Datas(run)[..0] == [] && Hmacs(run)[..0] == [];
  }

  /** One more encrypted chunk, collected but not yet sent. */
  lemma ChunkCollected(ce: ChunkEncryptor, out: Bytes, hashes: Bytes, plain: Bytes, chunks: nat, data: Bytes, iv: Bytes,
                       pieces: seq<Piece>, rest: Bytes, size: nat)
    requires ce.Valid() && |iv| == IV_SIZE && Holds(CodecOf(ce), out, hashes, plain, chunks)
    requires |plain| == Start(chunks, ce.chunkSize) && |data| <= ce.chunkSize && Sent(pieces, out, rest, size)
    ensures var encrypted := ce.Encrypt(chunks, data, iv);
            && Holds(CodecOf(ce), out + encrypted.data, hashes + encrypted.hmac, plain + data, chunks + 1)
            && Sent(pieces, out + encrypted.data, rest + encrypted.data, size)
  {
    var encrypted := ce.Encrypt(chunks, data, iv);
    ce.RoundTrip(chunks, data, iv);
    CodecOpens(ce, chunks, encrypted, data);
    Unfold(CodecOf(ce), out, hashes, plain, chunks);
    AppendChunk(CodecOf(ce), out, hashes, plain, chunks, data, encrypted);
    Unfold(CodecOf(ce), out + encrypted.data, hashes + encrypted.hmac, plain + data, chunks + 1);
    SentMore(pieces, out, rest, encrypted.data, size);
  }

  lemma NothingSent(c: Codec, size: nat)
    requires c.Valid()
    ensures Holds(c, [], [], [], 0) && Sent([], [], [], size) && Listed([], 0) && Whole([], 0, c.size)
  {
    Unfold(c, [], [], [], 0);
  }

  /** The last collected bytes, less than a piece, go out as they are. */
  lemma LastPiece(buf: Bytes, res: Bytes, rest: Bytes, size: nat)
    requires buf == res + rest && |res| == Min(|buf|, size) && |buf| < size
    ensures res == buf
  {
  }

  ghost predicate InOrder(numbers: seq<nat>) {
    forall k | 0 <= k < |numbers| :: numbers[k] == k
  }

  lemma OneMoreNumber(numbers: seq<nat>, number: nat)
    ensures !InOrder(numbers) || number < |numbers| ==> !InOrder(numbers + [number])
  {
    var more := numbers + [number];
    if !InOrder(numbers) {
      var k :| 0 <= k < |numbers| && numbers[k] != k;
      assert more[k] != k;
    } else if number < |numbers| {
      assert more[|numbers|] != |numbers|;
    }
  }

  /** So many entries in the list of checksums. Looked into only on demand. */
  ghost predicate Listed(checksums: Bytes, count: nat) {
    forall o: Occasion {:trigger Unfolding(o, checksums, count)} ::
      Unfolding(o, checksums, count) ==> |checksums| == Start(count, HMAC_SIZE)
  }

  /** So many whole chunks. Looked into only on demand. */
  ghost predicate Whole(plain: Bytes, chunks: nat, size: nat) {
    forall o: Occasion {:trigger Unfolding(o, plain, chunks)} :: Unfolding(o, plain, chunks) ==> |plain| == Start(chunks, size)
  }

  lemma OpenWhole(plain: Bytes, chunks: nat, size: nat)
    ensures Whole(plain, chunks, size) <==> |plain| == Start(chunks, size)
  {
    assert Unfolding(Occasion, plain, chunks);
  }

  lemma OneMoreWhole(plain: Bytes, chunks: nat, size: nat, data: Bytes)
    requires Whole(plain, chunks, size) && |data| == size
    ensures Whole(plain + data, chunks + 1, size)
  {
    assert Unfolding(Occasion, plain, chunks);
  }

  /** Encrypted under this number, with some vector. Looked into only on demand. */
  ghost predicate EncryptedAs(ce: ChunkEncryptor, number: nat, data: Bytes, chunk: Chunk) {
    forall o: Occasion {:trigger Unfolding(o, data, number)} :: Unfolding(o, data, number) ==>
      ce.Valid() && exists iv :: |iv| == IV_SIZE && chunk == ce.Encrypt(number, data, iv)
  }

  lemma OneMoreListed(checksums: Bytes, count: nat, hmac: Bytes)
    requires Listed(checksums, count) && |hmac| == HMAC_SIZE
    ensures Listed(checksums + hmac, count + 1)
  {
    assert Unfolding(Occasion, checksums, count);
  }

  class Streamer {
    const requestApi: RequestApi
    const crypto: CryptoService
    const chunkSize: nat
    const fileSize: nat
    const stream: Stream
    var key: Bytes
    var uploadedFileSize: nat
    var sequence: nat
    var dataProcessed: nat
    var checksums: Bytes
    var serverSeq: nat
    ghost var plain: Bytes
    ghost var out: Bytes
    /** For every entry of `checksums`, the number that its chunk was encrypted under. */
    ghost var numbers: seq<nat>

    ghost function Encryptor(): ChunkEncryptor
      reads this
    {
      ChunkEncryptor(crypto, key, chunkSize)
    }

    /** What is true at any time, also after failed requests. */
    ghost predicate Basic()
      reads this, stream
    {
      && crypto.Lawful() && chunkSize > 0 && stream.Valid() && !stream.sizeControl
      && Listed(checksums, |numbers|) && sequence <= |numbers|
    }

    /** A chunk has been listed and its number has not been used up. */
    ghost predicate Behind()
      reads this
    {
      sequence < |numbers|
    }

    /** Some entry stands at another place than the number its chunk was encrypted under. */
    ghost predicate Misnumbered()
      reads this
    {
      !InOrder(numbers)
    }

    /** What has been encrypted has been sent or is still in the buffer. */
    ghost predicate Collected()
      reads this, requestApi, stream
    {
      && stream.Valid() && serverSeq == |requestApi.pieces| && requestApi.commit == None
      && Sent(requestApi.pieces, out, stream.buf, stream.chunkSize)
    }

    /** The chunks encrypted so far hold `plain`, and have been sent or are still in the buffer. */
    ghost predicate Valid()
      reads this, requestApi, stream
    {
      && Basic() && |numbers| == sequence
      && dataProcessed == |plain| && dataProcessed <= fileSize
      && Holds(CodecOf(Encryptor()), out, checksums, plain, sequence)
      && Collected()
    }

    /** Only whole chunks have been processed, and less than a server piece is left in the buffer. */
    ghost predicate Ready()
      reads this, requestApi, stream
    {
      Valid() && Whole(plain, sequence, chunkSize) && |stream.buf| < stream.chunkSize
    }

    constructor (requestApi: RequestApi, crypto: CryptoService, chunkSize: nat, fileSize: nat, serverRequestChunkSize: nat)
      requires crypto.Lawful() && chunkSize > 0 && serverRequestChunkSize > 0
      ensures Started() && fresh(stream)
      ensures this.requestApi == requestApi && this.crypto == crypto && this.chunkSize == chunkSize
      ensures this.fileSize == fileSize && stream.chunkSize == serverRequestChunkSize
    {
      this.requestApi, this.crypto, this.chunkSize, this.fileSize := requestApi, crypto, chunkSize, fileSize;
      stream := new Stream(serverRequestChunkSize, None);
      key, uploadedFileSize, sequence, dataProcessed, checksums, serverSeq := [], 0, 0, 0, [], 0;
      plain, out, numbers := [], [], [];
    }

    /** Nothing has been done yet. */
    ghost predicate Started()
      reads this, stream
    {
      && stream.Valid() && !stream.sizeControl && stream.buf == []
      && uploadedFileSize == 0 && sequence == 0 && dataProcessed == 0 && checksums == [] && serverSeq == 0
      && plain == [] && out == [] && numbers == []
    }

    lemma StartedReady()
      requires crypto.Lawful() && chunkSize > 0 && Started() && requestApi.pieces == [] && requestApi.commit == None
      ensures Ready()
    {
      NothingSent(CodecOf(Encryptor()), stream.chunkSize);
    }

    /** The encrypted size and the checksum size declared up front. */
    function GetFileSize(): (r: (nat, nat))
      requires chunkSize > 0
    {
      if fileSize == 0 then (0, 0)
      else
        var parts := PieceOf(fileSize + chunkSize - 1, chunkSize);
        var lastChunkSize := if PosInPiece(fileSize, chunkSize) == 0 then chunkSize else PosInPiece(fileSize, chunkSize);
        var fullChunkPadding := CHUNK_PADDING - chunkSize % CHUNK_PADDING;
        var lastChunkPadding := CHUNK_PADDING - lastChunkSize % CHUNK_PADDING;
        (Start(parts - 1, chunkSize + HMAC_SIZE + IV_SIZE + fullChunkPadding)
         + lastChunkSize + HMAC_SIZE + IV_SIZE + lastChunkPadding,
         Start(parts, HMAC_SIZE))
    }

    /** The sizes declared are these. Looked into only on demand. */
    ghost predicate Declared()
      reads requestApi
    {
      forall o: Occasion {:trigger Unfolding(o, [], fileSize)} :: Unfolding(o, [], fileSize) ==>
        chunkSize > 0 && (requestApi.declaredSize, requestApi.declaredChecksumSize) == GetFileSize()
    }

    lemma OpenDeclared()
      requires Declared()
      ensures chunkSize > 0 && (requestApi.declaredSize, requestApi.declaredChecksumSize) == GetFileSize()
    {
      assert Unfolding(Occasion, [], fileSize);
    }

    /** An empty file can be started anew under any key. */
    method DrawKey()
      requires Ready() && plain == [] && out == []
      modifies this`key
      ensures Ready() && |key| == 32
    {
      key := RandomBytes(32);
      Unfold(CodecOf(old(Encryptor())), out, checksums, plain, sequence);
      EmptyFile(CodecOf(old(Encryptor())), CodecOf(Encryptor()), checksums, sequence);
    }

    method DeclareSizes() returns (ok: bool)
      requires Ready() && out == [] && stream.buf == []
      modifies requestApi
      ensures ok ==> Ready() && Declared()
    {
      NothingToSend(requestApi.pieces, stream.buf, stream.chunkSize);
      NothingSent(CodecOf(Encryptor()), stream.chunkSize);
      var size := GetFileSize();
      ok := requestApi.CreateRequest(size.0, size.1);
      if ok {
        assert requestApi.pieces == [] && Collected();
      }
    }

    /** Draws the file's key and declares its sizes, before anything is sent. */
    method CreateRequest() returns (r: Result<(), UploadError>)
      requires Ready() && plain == [] && out == [] && stream.buf == []
      modifies this`key, requestApi
      ensures r.Err? ==> r.error.RequestFailed?
      ensures r.Ok? ==> Ready() && |key| == 32 && Declared()
    {
      DrawKey();
      var ok := DeclareSizes();
      r := if ok then Ok(()) else Err(RequestFailed);
    }

    method SendChunkToServer(data: Bytes) returns (r: Result<(), UploadError>)
      modifies this`serverSeq, requestApi
      ensures r.Err? ==> r.error.RequestFailed?
      ensures requestApi.declaredSize == old(requestApi.declaredSize)
      ensures requestApi.declaredChecksumSize == old(requestApi.declaredChecksumSize)
      ensures r.Ok? && old(serverSeq == |requestApi.pieces| && requestApi.commit == None) ==>
                requestApi.pieces == old(requestApi.pieces) + [Piece(|old(requestApi.pieces)|, data)]
                && serverSeq == |requestApi.pieces| && requestApi.commit == None
    {
      var ok := requestApi.SendChunk(serverSeq, data);
      if !ok {
        return Err(RequestFailed);
      }
      serverSeq := serverSeq + 1;
      r := Ok(());
    }

    /** Sends on every full server piece that has been collected. */
    method SendFullChunksWhileCollected() returns (r: Result<(), UploadError>)
      requires stream.Valid()
      modifies this`serverSeq, requestApi, stream
      ensures stream.Valid()
      ensures r.Err? ==> r.error.RequestFailed?
      ensures requestApi.declaredSize == old(requestApi.declaredSize)
      ensures requestApi.declaredChecksumSize == old(requestApi.declaredChecksumSize)
      ensures r.Ok? && old(Collected()) ==> Collected() && |stream.buf| < stream.chunkSize
    {
      var n := stream.GetNumberOfFullChunks();
      ghost var rest, collected := stream.buf, Collected();
      PieceBounds(|rest|, stream.chunkSize);
      for i := 0 to n
        invariant stream.Valid() && unchanged(stream)
        invariant requestApi.declaredSize == old(requestApi.declaredSize)
        invariant requestApi.declaredChecksumSize == old(requestApi.declaredChecksumSize)
        invariant Start(i, stream.chunkSize) <= |rest|
        invariant collected ==>
                    && serverSeq == |requestApi.pieces| && requestApi.commit == None
                    && Sent(requestApi.pieces, out, rest[Start(i, stream.chunkSize)..], stream.chunkSize)
      {
        FullChunkInside(|rest|, stream.chunkSize, i);
        var piece := stream.GetFullChunk(i);
        if collected {
          SentOne(requestApi.pieces, out, rest[Start(i, stream.chunkSize)..], stream.chunkSize);
          NextPiece(rest, stream.chunkSize, i);
        }
        var sent := SendChunkToServer(piece);
        if sent.Err? {
          return sent;
        }
      }
      if n > 0 {
        stream.FreeFullChunks();
      }
      r := Ok(());
    }

    /** The next chunk, encrypted under its number. */
    method PrepareChunk(data: Bytes) returns (encrypted: Chunk)
      requires Basic()
      ensures EncryptedAs(Encryptor(), sequence, data, encrypted) && |encrypted.hmac| == HMAC_SIZE
      ensures Ready() && |data| <= chunkSize ==>
                && Holds(CodecOf(Encryptor()), out + encrypted.data, checksums + encrypted.hmac, plain + data, sequence + 1)
                && Sent(requestApi.pieces, out + encrypted.data, stream.buf + encrypted.data, stream.chunkSize)
    {
      var iv := RandomBytes(IV_SIZE);
      encrypted := ChunkEncryptor(crypto, key, chunkSize).Encrypt(sequence, data, iv);
      if Ready() && |data| <= chunkSize {
        OpenWhole(plain, sequence, chunkSize);
        ChunkCollected(Encryptor(), out, checksums, plain, sequence, data, iv, requestApi.pieces, stream.buf, stream.chunkSize);
      }
    }

    /** Encrypts one chunk, lists and collects it. */
    method Collect(data: Bytes)
      requires Basic()
      modifies this`checksums, this`plain, this`out, this`numbers, stream
      ensures Basic() && numbers == old(numbers) + [sequence]
      ensures old(Ready()) && |data| <= chunkSize ==>
                Collected() && plain == old(plain) + data && Holds(CodecOf(Encryptor()), out, checksums, plain, sequence + 1)
    {
      var encrypted := PrepareChunk(data);
      OneMoreListed(checksums, |numbers|, encrypted.hmac);
      checksums := checksums + encrypted.hmac;
      var written := stream.Write(encrypted.data);
      plain, out, numbers := plain + data, out + encrypted.data, numbers + [sequence];
    }

    /** Encrypts one chunk and sends on what has been collected. If that fails, the chunk stays listed, but the next
        one gets its number again. */
    method PrepareAndSendChunk(data: Bytes) returns (r: Result<(), UploadError>)
      requires Basic()
      modifies this`serverSeq, this`sequence, this`dataProcessed, this`checksums, this`plain, this`out, this`numbers,
               requestApi, stream
      ensures Basic()
      ensures requestApi.declaredSize == old(requestApi.declaredSize)
      ensures requestApi.declaredChecksumSize == old(requestApi.declaredChecksumSize)
      ensures old(dataProcessed) + |data| > fileSize ==> r == Err(InvalidFileChunkSize) && unchanged(this)
      ensures old(dataProcessed) + |data| <= fileSize ==>
                && numbers == old(numbers) + [old(sequence)]
                && (r.Err? ==> r.error.RequestFailed? && sequence == old(sequence) && dataProcessed == old(dataProcessed))
                && (r.Ok? ==> sequence == old(sequence) + 1 && dataProcessed == old(dataProcessed) + |data|)
      ensures r.Ok? && old(Ready()) && |data| <= chunkSize ==>
                Valid() && |stream.buf| < stream.chunkSize && plain == old(plain) + data
    {
      if dataProcessed + |data| > fileSize {
        return Err(InvalidFileChunkSize);
      }
      Collect(data);
      r := SendFullChunksWhileCollected();
      if r.Err? {
        return;
      }
      dataProcessed := dataProcessed + |data|;
      sequence := sequence + 1;
    }

    method SendChunk(data: Bytes) returns (r: Result<(), UploadError>)
      requires Basic()
      modifies this, requestApi, stream
      ensures Basic() && key == old(key)
      ensures requestApi.declaredSize == old(requestApi.declaredSize)
      ensures requestApi.declaredChecksumSize == old(requestApi.declaredChecksumSize)
      ensures |data| != chunkSize ==> r == Err(InvalidFileChunkSize) && unchanged(this) && unchanged(stream) && unchanged(requestApi)
      ensures |data| == chunkSize ==>
                && uploadedFileSize == old(uploadedFileSize) + |data|
                && (if old(dataProcessed) + |data| > fileSize
                    then r == Err(InvalidFileChunkSize) && numbers == old(numbers)
                         && sequence == old(sequence) && dataProcessed == old(dataProcessed)
                    else
                      && numbers == old(numbers) + [old(sequence)]
                      && (r.Err? ==> r.error.RequestFailed? && sequence == old(sequence) && dataProcessed == old(dataProcessed))
                      && (r.Ok? ==> sequence == old(sequence) + 1 && dataProcessed == old(dataProcessed) + |data|))
      ensures r.Ok? && old(Ready()) ==> Ready() && plain == old(plain) + data
    {
      if |data| != chunkSize {
        return Err(InvalidFileChunkSize);
      }
      if Ready() {
        OneMoreWhole(plain, sequence, chunkSize, data);
      }
      uploadedFileSize := uploadedFileSize + |data|;
      r := PrepareAndSendChunk(data);
    }

    method CommitFile() returns (r: Result<(), UploadError>)
      requires stream.Valid()
      modifies this`serverSeq, requestApi, stream
      ensures stream.Valid()
      ensures r.Err? ==> r.error.RequestFailed?
      ensures requestApi.declaredSize == old(requestApi.declaredSize)
      ensures requestApi.declaredChecksumSize == old(requestApi.declaredChecksumSize)
      ensures r.Ok? ==> requestApi.commit.Some? && requestApi.commit.value.checksum == checksums
      ensures r.Ok? && old(Collected()) ==>
                SentAll(requestApi.pieces, out, stream.chunkSize) && requestApi.commit == Some(Commit(|requestApi.pieces|, checksums))
    {
      ghost var collected := Collected();
      r := SendFullChunksWhileCollected();
      if r.Err? {
        return;
      }
      if collected {
        SentLast(requestApi.pieces, out, stream.buf, stream.chunkSize);
      }
      if !stream.IsEmpty() {
        ghost var buf := stream.buf;
        var last := stream.ReadChunk();
        if collected {
          LastPiece(buf, last, stream.buf, stream.chunkSize);
        }
        r := SendChunkToServer(last);
        if r.Err? {
          return;
        }
      }
      var ok := requestApi.CommitFile(serverSeq, checksums);
      r := if ok then Ok(()) else Err(RequestFailed);
    }

    /** Sends the last, shorter chunk if there is one, and commits. The size check counts that chunk twice. */
    method Finalize(data: Bytes) returns (r: Result<Bytes, UploadError>)
      requires Basic()
      modifies this, requestApi, stream
      ensures Basic() && key == old(key)
      ensures requestApi.declaredSize == old(requestApi.declaredSize)
      ensures requestApi.declaredChecksumSize == old(requestApi.declaredChecksumSize)
      ensures numbers == if data != [] && old(dataProcessed) + |data| <= fileSize then old(numbers) + [old(sequence)] else old(numbers)
      ensures r.Ok? ==> requestApi.commit.Some? && requestApi.commit.value.checksum == checksums
      ensures r.Ok? && old(Ready() && uploadedFileSize == |plain|) && |data| <= chunkSize ==>
                && plain == old(plain) + data && uploadedFileSize == |plain|
                && sequence == old(sequence) + (if data == [] then 0 else 1)
                && Holds(CodecOf(Encryptor()), out, checksums, plain, sequence)
                && SentAll(requestApi.pieces, out, stream.chunkSize)
                && requestApi.commit == Some(Commit(|requestApi.pieces|, checksums))
                && r.value == crypto.hmacSha256(key, checksums)
      // Which data are refused, unless a request fails.
      ensures old(Ready() && uploadedFileSize == |plain|) && |data| <= chunkSize ==>
                && (old(|plain|) + |data| > fileSize ==> r == Err(InvalidFileChunkSize))
                && (r.Ok? || !r.error.RequestFailed? ==>
                      (r.Ok? <==> old(|plain|) + |data| <= fileSize <= old(|plain|) + |data| + |data|))
                && (r.Err? && old(|plain|) + |data| <= fileSize ==> r.error.RequestFailed? || r.error == DataSmallerThanDeclared)
    {
      uploadedFileSize := uploadedFileSize + |data|;
      if data != [] {
        var sent := PrepareAndSendChunk(data);
        if sent.Err? {
          return Err(sent.error);
        }
      }
      if uploadedFileSize + |data| < fileSize {
        return Err(DataSmallerThanDeclared);
      }
      var committed := CommitFile();
      if committed.Err? {
        return Err(committed.error);
      }
      r := Ok(crypto.hmacSha256(key, checksums));
    }
  }

  /** Eighty bytes are accepted for a file declared to have a hundred. */
  method ShortDataExample(streamer: Streamer) returns (r: Result<Bytes, UploadError>)
    requires streamer.Ready() && streamer.chunkSize == 60 && streamer.fileSize == 100
    requires |streamer.plain| == 60 && streamer.uploadedFileSize == 60
    modifies streamer, streamer.requestApi, streamer.stream
    ensures r.Ok? ==> |streamer.plain| == 80
    ensures r.Err? ==> r.error.RequestFailed?
  {
    r := streamer.Finalize(Zeros(20));
  }

  lemma NextPiece(rest: Bytes, size: nat, i: nat)
    requires Start(i, size) + size <= |rest|
    ensures rest[Start(i, size)..][..size] == Slice(rest, size, i)
    ensures rest[Start(i, size)..][size..] == rest[Start(i + 1, size)..]
  {
  }

  /** The sizes declared up front are those of the encrypted file and of its checksums. */
  lemma DeclaredSizes(streamer: Streamer, ce: ChunkEncryptor, out: Bytes, hashes: Bytes, plain: Bytes, chunks: nat)
    requires ce.Valid() && ce.chunkSize == streamer.chunkSize && |plain| == streamer.fileSize
    requires Holds(CodecOf(ce), out, hashes, plain, chunks)
    requires chunks > 0 ==> Start(chunks - 1, ce.chunkSize) < |plain|
    ensures streamer.GetFileSize() == (|out|, |hashes|) && |out| == ce.EncryptedFileSize(|plain|)
  {
    Unfold(CodecOf(ce), out, hashes, plain, chunks);
    if chunks > 0 {
      ce.EncryptedFileSizeIs(|plain|, chunks - 1);
      PieceUnique(|plain| + ce.chunkSize - 1, ce.chunkSize, chunks);
    }
  }

  /** An empty file is one under any key. */
  lemma EmptyFile(c: Codec, d: Codec, hashes: Bytes, chunks: nat)
    requires c.Valid() && d.Valid() && Represents(c, [], hashes, [], chunks)
    ensures chunks == 0 && Holds(d, [], hashes, [], chunks)
  {
    LengthGrows(c, 0, 0);
    Unfold(d, [], hashes, [], chunks);
  }
}
