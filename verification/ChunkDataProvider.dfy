/** Fetches encrypted chunks from the server in larger server chunks, and keeps the last one. */
module ChunkDataProvider {
  import opened ByteStrings
  import opened Results
  import opened StoreServer

  /** The cache number the source starts with: an `optional<uint32_t>` initialized with -1. */
  const NO_SERVER_CHUNK := 0xFFFF_FFFF

  /** The server chunk size, rounded up to whole encrypted chunks. */
  function ServerReadDataSize(encryptedChunkSize: nat, serverChunkSize: nat): nat
    requires encryptedChunkSize > 0
  {
    if serverChunkSize == 0 then 0
    else Start(PieceOf(serverChunkSize + encryptedChunkSize - 1, encryptedChunkSize), encryptedChunkSize)
  }

  /** Number of the server chunk that holds an encrypted chunk, and the position in it. */
  function ServerChunkOf(chunkNumber: nat, encryptedChunkSize: nat, serverChunkSize: nat): nat
    requires serverChunkSize > 0
  {
    PieceOf(Start(chunkNumber, encryptedChunkSize), serverChunkSize)
  }

  function PosInServerChunk(chunkNumber: nat, encryptedChunkSize: nat, serverChunkSize: nat): nat
    requires serverChunkSize > 0
  {
    PosInPiece(Start(chunkNumber, encryptedChunkSize), serverChunkSize)
  }

  /** Because the size is rounded up, no encrypted chunk straddles two server chunks. */
  lemma ChunkInServerChunk(n: nat, E: nat, S: nat, per: nat)
    requires E > 0 && per > 0 && S == Start(per, E)
    ensures S > 0
    ensures Start(ServerChunkOf(n, E, S), S) + PosInServerChunk(n, E, S) == Start(n, E)
    ensures PosInServerChunk(n, E, S) + E <= S
    ensures ServerChunkOf(n, E, S) <= n
  {
    var N, k := SplitChunkNumber(n, E, per);
    StartMono(k, per, E);
    PieceUnique(Start(n, E), S, N);
  }

  lemma {:induction false} SplitChunkNumber(n: nat, E: nat, per: nat) returns (N: nat, k: nat)
    requires per > 0
    ensures Start(n, E) == Start(N, Start(per, E)) + Start(k, E)
    ensures k < per && N <= n
  {
    if n == 0 {
      N, k := 0, 0;
    } else {
      N, k := SplitChunkNumber(n - 1, E, per);
      if k + 1 < per {
        k := k + 1;
      } else {
        N, k := N + 1, 0;
      }
    }
  }

  /** What `substr` gives for a chunk of the cached server chunk. */
  function CutChunk(serverChunk: Bytes, pos: nat, size: nat): (r: Bytes)
    ensures r == Window(serverChunk, pos, pos + size)
  {
    if pos > |serverChunk| then [] else serverChunk[pos..Min(pos + size, |serverChunk|)]
  }

  lemma CutOfWindow(file: Bytes, a: nat, S: nat, pos: nat, E: nat)
    requires pos + E <= S
    ensures CutChunk(Window(file, a, a + S), pos, E) == Window(file, a + pos, a + pos + E)
  {
    WindowOfWindow(file, a, a + S, pos, pos + E);
  }

  lemma ChunkOfServerChunk(file: Bytes, n: nat, E: nat, S: nat, per: nat)
    requires E > 0 && per > 0 && S == Start(per, E) && S > 0
    ensures CutChunk(Slice(file, S, ServerChunkOf(n, E, S)), PosInServerChunk(n, E, S), E) == Slice(file, E, n)
  {
    var N, pos := ServerChunkOf(n, E, S), PosInServerChunk(n, E, S);
    ChunkInServerChunk(n, E, S, per);
    CutAt(file, Start(N, S), S, pos, E, Start(n, E));
  }

  lemma CutAt(file: Bytes, a: nat, S: nat, pos: nat, E: nat, at: nat)
    requires pos + E <= S && a + pos == at
    ensures CutChunk(Window(file, a, a + S), pos, E) == Window(file, at, at + E)
  {
    CutOfWindow(file, a, S, pos, E);
  }

  class Provider {
    const server: Server
    const encryptedChunkSize: nat
    const serverChunkSize: nat
    ghost const perServerChunk: nat
    var serverFileSize: nat
    var fileVersion: int
    var lastServerChunk: Bytes
    var lastServerChunkNumber: Option<nat>

    /** The cached server chunk is that of the server's file at the version last worked on. */
    ghost predicate Coherent(history: map<int, Snapshot>)
      reads this
    {
      lastServerChunkNumber.Some? && lastServerChunkNumber.value != NO_SERVER_CHUNK ==>
        && fileVersion in history
        && lastServerChunk == Slice(history[fileVersion].file, serverChunkSize, lastServerChunkNumber.value)
    }

    predicate Sized() {
      encryptedChunkSize > 0 && serverChunkSize > 0
    }

    ghost predicate Valid()
      reads this, server
    {
      && encryptedChunkSize > 0 && perServerChunk > 0 && serverChunkSize == Start(perServerChunk, encryptedChunkSize)
      && serverChunkSize > 0
      && server.Valid()
      && Coherent(server.history)
    }

    constructor (server: Server, chunkSize: nat, serverChunkSize: nat, serverFileSize: nat, fileVersion: int)
      requires server.Valid() && chunkSize > 0 && serverChunkSize > 0
      ensures Valid() && this.server == server && encryptedChunkSize == chunkSize
      ensures this.fileVersion == fileVersion && lastServerChunkNumber == Some(NO_SERVER_CHUNK)
    {
      this.server, encryptedChunkSize := server, chunkSize;
      this.serverChunkSize := ServerReadDataSize(chunkSize, serverChunkSize);
      perServerChunk := PieceOf(serverChunkSize + chunkSize - 1, chunkSize);
      this.serverFileSize, this.fileVersion := serverFileSize, fileVersion;
      lastServerChunk, lastServerChunkNumber := [], Some(NO_SERVER_CHUNK);
      new;
      RoundedUp(serverChunkSize, chunkSize);
    }

    /** Drops the cache when the version grows. The cache stays right as long as the version does not shrink. */
    method Sync(newFileVersion: int, encryptedFileSize: nat)
      requires Valid()
      modifies this
      ensures fileVersion == newFileVersion
      ensures old(fileVersion) <= newFileVersion ==> Valid()
    {
      if fileVersion < newFileVersion {
        lastServerChunkNumber, lastServerChunk := None, [];
      }
      serverFileSize, fileVersion := encryptedFileSize, newFileVersion;
    }

    /** Chunk `chunkNumber` of the file as it was at `version`, or a failure. The number is 32 bits
        wide in the source; the largest value is the mark of the empty cache. */
    method GetChunk(chunkNumber: nat, version: int) returns (r: Result<Bytes, ServerError>)
      requires Valid() && chunkNumber < NO_SERVER_CHUNK && version in server.history
      modifies this
      ensures Valid() && fileVersion == version
      ensures r.Ok? ==> r.value == Slice(server.history[version].file, encryptedChunkSize, chunkNumber)
      ensures r.Ok? ==> lastServerChunkNumber == Some(ServerChunkOf(chunkNumber, encryptedChunkSize, serverChunkSize))
      ensures r.Err? && r.error.VersionMismatch? ==> version != server.version
    {
      if version != fileVersion {
        lastServerChunkNumber := None;
        fileVersion := version;
      }
      var from := Start(chunkNumber, encryptedChunkSize);
      var serverChunkNumber := PieceOf(from, serverChunkSize);
      var serverChunkPos := PosInPiece(from, serverChunkSize);
      ChunkInServerChunk(chunkNumber, encryptedChunkSize, serverChunkSize, perServerChunk);
      if lastServerChunkNumber.None? || lastServerChunkNumber.value != serverChunkNumber {
        var requested := RequestServerChunk(serverChunkNumber);
        if requested.Err? {
          return Err(requested.error);
        }
        lastServerChunk, lastServerChunkNumber := requested.value, Some(serverChunkNumber);
      }
      ChunkOfServerChunk(server.history[version].file, chunkNumber, encryptedChunkSize, serverChunkSize, perServerChunk);
      r := Ok(CutChunk(lastServerChunk, serverChunkPos, encryptedChunkSize));
    }

    method RequestServerChunk(serverChunkNumber: nat) returns (r: Result<Bytes, ServerError>)
      requires Valid() && fileVersion in server.history
      ensures r.Ok? ==> r.value == Slice(server.history[fileVersion].file, serverChunkSize, serverChunkNumber)
      ensures r.Err? && r.error.VersionMismatch? ==> fileVersion != server.version
    {
      r := server.StoreFileRead(Start(serverChunkNumber, serverChunkSize),
                                Start(serverChunkNumber + 1, serverChunkSize), fileVersion);
    }

    method GetCurrentChecksumsFromBridge() returns (r: Result<Bytes, ServerError>)
      ensures r.Ok? ==> r.value == server.current.checksums
      ensures r.Err? ==> r.error.Unavailable?
    {
      r := server.StoreFileReadChecksums();
    }

    /** After a write: patches the cached server chunk if the rewritten chunk lies in it. */
    method Update(newFileVersion: int, chunkNumber: nat, newChunkEncryptedData: Bytes, encryptedFileSize: nat, truncate: bool)
      requires Sized()
      modifies this
      ensures fileVersion == newFileVersion && serverFileSize == encryptedFileSize
      ensures lastServerChunkNumber == old(lastServerChunkNumber)
      ensures lastServerChunk ==
              if old(lastServerChunkNumber) == Some(ServerChunkOf(chunkNumber, encryptedChunkSize, serverChunkSize))
              then Overlay(old(lastServerChunk), PosInServerChunk(chunkNumber, encryptedChunkSize, serverChunkSize),
                           newChunkEncryptedData, truncate)
              else old(lastServerChunk)
    {
      var from := Start(chunkNumber, encryptedChunkSize);
      var serverChunkNumber := PieceOf(from, serverChunkSize);
      var serverChunkPos := PosInPiece(from, serverChunkSize);
      if lastServerChunkNumber.Some? && lastServerChunkNumber.value == serverChunkNumber {
        var before := lastServerChunk[..Min(serverChunkPos, |lastServerChunk|)];
        var after := [];
        if !truncate && |lastServerChunk| > serverChunkPos + |newChunkEncryptedData| {
          after := lastServerChunk[serverChunkPos + |newChunkEncryptedData|..];
        }
        lastServerChunk := before + newChunkEncryptedData + after;
      }
      serverFileSize, fileVersion := encryptedFileSize, newFileVersion;
    }
  }

  /** A patch that takes a position past the end as the end, as `substr` does. */
  function Overlay(s: Bytes, pos: nat, data: Bytes, truncate: bool): (r: Bytes)
    ensures pos <= |s| ==> r == Patch(s, pos, data, truncate)
  {
    s[..Min(pos, |s|)] + data + if truncate || |s| <= pos + |data| then [] else s[pos + |data|..]
  }

  /** The rounded size holds at least one chunk and at least what was asked for. */
  lemma RoundedUp(serverChunkSize: nat, E: nat)
    requires E > 0 && serverChunkSize > 0
    ensures PieceOf(serverChunkSize + E - 1, E) > 0
    ensures ServerReadDataSize(E, serverChunkSize) >= serverChunkSize
  {
    PieceBounds(serverChunkSize + E - 1, E);
  }

  // ---- The cache while the chunks of one write are reported ----

  /** `cached` is server chunk `N` of `file`; or the write truncates and has not reached it yet. */
  ghost predicate Reached(file: Bytes, cached: Bytes, next: nat, E: nat, S: nat, N: nat, truncate: bool) {
    cached == Slice(file, S, N) || (truncate && Start(next, E) <= Start(N, S))
  }

  lemma ServerChunkEnds(i: nat, E: nat, S: nat, per: nat, N: nat)
    requires E > 0 && per > 0 && S == Start(per, E) && S > 0
    ensures ServerChunkOf(i, E, S) < N ==> Start(i, E) + E <= Start(N, S)
    ensures ServerChunkOf(i, E, S) == N ==>
              Start(N, S) + PosInServerChunk(i, E, S) == Start(i, E) && Start(i, E) + E <= Start(N, S) + S
  {
    ChunkInServerChunk(i, E, S, per);
    if ServerChunkOf(i, E, S) < N { StartMono(ServerChunkOf(i, E, S), N, S); }
  }

  lemma OverlayWindow(file: Bytes, pos: nat, data: Bytes, truncate: bool, a: nat, S: nat)
    requires a <= pos <= |file| && pos + |data| <= a + S
    ensures Window(Patch(file, pos, data, truncate), a, a + S) ==
            Overlay(Window(file, a, a + S), pos - a, data, truncate)
  {
    WindowOverPatch(file, pos, data, truncate, a, a + S);
    assert data[..Min(|data|, a + S - pos)] == data;
  }

  lemma OverlayStart(file: Bytes, cached: Bytes, pos: nat, data: Bytes, S: nat)
    requires pos <= |file| && |data| <= S
    ensures Window(Patch(file, pos, data, true), pos, pos + S) == Overlay(cached, 0, data, true)
  {
  }

  /** Reporting one rewritten chunk keeps the cache in step with the file rewritten so far. */
  lemma UpdateKeepsReached(file: Bytes, cached: Bytes, i: nat, data: Bytes, truncate: bool, E: nat, S: nat, per: nat, N: nat)
    requires E > 0 && per > 0 && S == Start(per, E) && S > 0
    requires ServerChunkOf(i, E, S) <= N && Start(i, E) <= |file| && |data| <= E
    requires Reached(file, cached, i, E, S, N, truncate)
    ensures Reached(Patch(file, Start(i, E), data, truncate),
                    if ServerChunkOf(i, E, S) == N then Overlay(cached, PosInServerChunk(i, E, S), data, truncate) else cached,
                    i + 1, E, S, N, truncate)
  {
    var n, pos, at, a := ServerChunkOf(i, E, S), PosInServerChunk(i, E, S), Start(i, E), Start(N, S);
    ServerChunkEnds(i, E, S, per, N);
    if n == N {
      UpdateInside(file, cached, pos, at, data, truncate, a, S);
    } else if !truncate {
      UpdateBefore(file, cached, at, data, a, S);
    }
  }

  /** The rewritten chunk lies before the cached server chunk. */
  lemma UpdateBefore(file: Bytes, cached: Bytes, at: nat, data: Bytes, a: nat, S: nat)
    requires at <= |file| && at + |data| <= a
    requires cached == Window(file, a, a + S)
    ensures cached == Window(Patch(file, at, data, false), a, a + S)
  {
    WindowAfterPatch(file, at, data, a, a + S);
  }

  /** The rewritten chunk lies in the cached server chunk, or is the first that does. */
  lemma UpdateInside(file: Bytes, cached: Bytes, pos: nat, at: nat, data: Bytes, truncate: bool, a: nat, S: nat)
    requires at == a + pos <= |file| && at + |data| <= a + S
    requires cached == Window(file, a, a + S) || (truncate && at == a)
    ensures Overlay(cached, pos, data, truncate) == Window(Patch(file, at, data, truncate), a, a + S)
  {
    if cached == Window(file, a, a + S) {
      OverlayWindow(file, at, data, truncate, a, S);
    } else {
      OverlayStart(file, cached, at, data, S);
    }
  }

  /** After the last chunk, which lies in the cached server chunk, the cache is up to date. */
  lemma ReachedAtEnd(file: Bytes, cached: Bytes, stop: nat, E: nat, S: nat, per: nat, truncate: bool)
    requires E > 0 && per > 0 && S == Start(per, E) && S > 0
    requires Reached(file, cached, stop + 1, E, S, ServerChunkOf(stop, E, S), truncate)
    ensures cached == Slice(file, S, ServerChunkOf(stop, E, S))
  {
    ServerChunkEnds(stop, E, S, per, ServerChunkOf(stop, E, S));
  }

  lemma ServerChunkMono(i: nat, j: nat, E: nat, S: nat)
    requires S > 0 && i <= j
    ensures ServerChunkOf(i, E, S) <= ServerChunkOf(j, E, S)
  {
    StartMono(i, j, E);
    PieceMono(Start(i, E), Start(j, E), S);
  }
}
