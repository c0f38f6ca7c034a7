/** Reading a file as it was when it was opened. */
module FileReader {
  import opened ByteStrings
  import opened Results
  import opened EncryptedFiles
  import opened ChunkDataProvider
  import opened ChunkReader

  class RangeReader {
    const chunkReader: Reader
    var plainFileSize: nat

    ghost predicate Valid(plain: Bytes, chunks: nat)
      reads this, chunkReader, chunkReader.chunkDataProvider, chunkReader.chunkDataProvider.server, chunkReader.hashList
    {
      chunkReader.Valid(plain, chunks) && chunks <= NO_SERVER_CHUNK && plainFileSize == |plain|
    }

    constructor (chunkReader: Reader, params: FileDecryptionParams)
      ensures this.chunkReader == chunkReader && plainFileSize == params.originalSize
    {
      this.chunkReader, plainFileSize := chunkReader, params.originalSize;
    }

    method Sync(params: FileDecryptionParams)
      modifies this
      ensures plainFileSize == params.originalSize
    {
      plainFileSize := params.originalSize;
    }

    /** `length` bytes from `pos`, or what the file has of them. */
    method Read(pos: nat, length: nat, ghost plain: Bytes, ghost chunks: nat) returns (r: Result<Bytes, FileError>)
      requires Valid(plain, chunks)
      modifies chunkReader`lastChunk, chunkReader.chunkDataProvider
      ensures Valid(plain, chunks)
      ensures r.Ok? ==> r.value == Window(plain, pos, pos + length)
      ensures r.Err? ==> r.error.ServerFailure?
                         || (r.error.FileVersionMismatch? && chunkReader.version != chunkReader.chunkDataProvider.server.version)
    {
      if pos >= plainFileSize {
        return Ok([]);
      }
      var clipped := if pos + length > plainFileSize then plainFileSize - pos else length;
      if clipped == 0 {
        return Ok([]);
      }
      ChunkInside(CodecOf(chunkReader.chunkEncryptor), chunkReader.chunkDataProvider.server.history[chunkReader.version].file,
                  chunkReader.hashList.hashes, plain, chunks, pos + clipped - 1);
      r := chunkReader.ReadRange(pos, clipped, plain, chunks);
    }
  }
}
