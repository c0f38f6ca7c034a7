/** A byte buffer that hands out chunks of a fixed size, optionally with a declared total length. */
module ChunkBufferedStream {
  import opened ByteStrings
  import opened Results

  datatype StreamError = DataBiggerThanDeclared

  class Stream {
    const chunkSize: nat
    const sizeControl: bool
    const maxTotalDataSize: nat
    var buf: Bytes
    var bufSize: nat
    var totalDataSize: nat

    predicate Valid()
      reads this
    {
      chunkSize > 0 && bufSize == |buf|
    }

    constructor (chunkSize: nat, maxStreamLength: Option<nat>)
      requires chunkSize > 0
      ensures Valid() && buf == [] && totalDataSize == 0 && this.chunkSize == chunkSize
      ensures sizeControl == maxStreamLength.Some?
      ensures maxStreamLength.Some? ==> maxTotalDataSize == maxStreamLength.value
    {
      this.chunkSize, sizeControl := chunkSize, maxStreamLength.Some?;
      maxTotalDataSize := if maxStreamLength.Some? then maxStreamLength.value else 0;
      buf, bufSize, totalDataSize := [], 0, 0;
    }

    function GetNumberOfFullChunks(): nat
      requires Valid()
      reads this
    {
      PieceOf(bufSize, chunkSize)
    }

    predicate IsEmpty()
      reads this
    {
      bufSize == 0
    }

    predicate IsFullyFilled()
      reads this
    {
      sizeControl && totalDataSize == maxTotalDataSize
    }

    /** Appends data, unless that would exceed the declared length. */
    method Write(data: Bytes) returns (r: Result<(), StreamError>)
      requires Valid()
      modifies this
      ensures Valid()
      ensures r.Err? <==> sizeControl && old(totalDataSize) + |data| > maxTotalDataSize
      ensures r.Err? ==> unchanged(this)
      ensures r.Ok? ==> buf == old(buf) + data && totalDataSize == old(totalDataSize) + |data|
    {
      if sizeControl && totalDataSize + |data| > maxTotalDataSize {
        return Err(DataBiggerThanDeclared);
      }
      buf := buf + data;
      bufSize := bufSize + |data|;
      totalDataSize := totalDataSize + |data|;
      r := Ok(());
    }

    /** Takes up to one chunk off the front. */
    method ReadChunk() returns (res: Bytes)
      requires Valid()
      modifies this
      ensures Valid() && totalDataSize == old(totalDataSize)
      ensures old(buf) == res + buf && |res| == Min(|old(buf)|, chunkSize)
    {
      var size := Min(bufSize, chunkSize);
      res := buf[..Min(|buf|, chunkSize)];
      buf := buf[size..];
      bufSize := bufSize - size;
    }

    /** Full chunk number `pos`, left in the buffer. */
    method GetFullChunk(pos: nat) returns (res: Bytes)
      requires Valid() && pos < GetNumberOfFullChunks()
      ensures res == Slice(buf, chunkSize, pos) && |res| == chunkSize
    {
      FullChunkInside(bufSize, chunkSize, pos);
      res := buf[Start(pos, chunkSize)..Start(pos, chunkSize) + chunkSize];
    }

    /** Drops all full chunks; less than a chunk remains. */
    method FreeFullChunks()
      requires Valid()
      modifies this
      ensures Valid() && totalDataSize == old(totalDataSize)
      ensures |buf| < chunkSize
      ensures Start(old(GetNumberOfFullChunks()), chunkSize) <= |old(buf)|
      ensures buf == old(buf)[Start(old(GetNumberOfFullChunks()), chunkSize)..]
    {
      PieceBounds(bufSize, chunkSize);
      var n := GetNumberOfFullChunks();
      buf := buf[Start(n, chunkSize)..];
      bufSize := bufSize - Start(n, chunkSize);
    }
  }

  lemma FullChunkInside(total: nat, size: nat, k: nat)
    requires size > 0 && k < PieceOf(total, size)
    ensures Start(k, size) + size <= total
  {
    PieceBounds(total, size);
    StartMono(k, PieceOf(total, size), size);
  }
}
