/** The file handle given to clients, and whole runs of it against a plain byte array that other clients
    may change as well. */
module FileRuns {
  import opened ByteStrings
  import opened Results
  import opened StoreServer
  import opened CbcCipher
  import opened ChunkDataProvider
  import opened ChunkReader
  import opened ChunkEncryption
  import opened EncryptedFiles
  import opened FileWrites
  import opened Squashing
  import opened ServerRequests
  import opened FileHandler

  /** Another client's write: the server's file afterwards. It may be any file, under any key; `plain` is given if
      it is what its metadata says. */
  datatype Foreign = Foreign(snapshot: Snapshot, plain: Option<Bytes>, chunks: nat)

  /** What a client may do. `Others` is a write by another client that the server accepts in between; one may
      also come between the two requests of a sync. */
  datatype Command =
    | Size
    | SeekG(pos: nat)
    | SeekP(pos: nat)
    | Read(length: nat)
    | Write(data: Bytes, truncate: bool)
    | Sync(between: Option<Foreign>)
    | Others(foreign: Foreign)

  datatype Answer = Done | SizeIs(size: nat) | Data(bytes: Bytes) | Failed(error: FileError)

  function Reply(r: Result<(), FileError>): Answer {
    match r case Ok(_) => Done case Err(e) => Failed(e)
  }

  /** A client's view of a plain byte array, with a read and a write position, and the array itself as it is
      on the server, if the server has one. */
  datatype PlainFile = PlainFile(contents: Bytes, readPos: nat, writePos: nat, remote: Option<Bytes>)

  /** One step. A request to the server may fail, and then the client's view stays as it is; if only the answer
      was lost, a write has been carried out on the server all the same. A write succeeds only on a view that
      is up to date, and never if it needs several requests; then it may cost the server its file. */
  ghost predicate Step(ce: ChunkEncryptor, s: PlainFile, cmd: Command, answer: Answer, t: PlainFile)
    requires ce.chunkSize > 0
  {
    match cmd
    case Size => answer == SizeIs(|s.contents|) && t == s
    case SeekG(pos) =>
      if pos > |s.contents| then answer == Failed(PosOutOfBounds) && t == s
      else answer == Done && t == s.(readPos := pos)
    case SeekP(pos) =>
      if pos > |s.contents| then answer == Failed(PosOutOfBounds) && t == s
      else answer == Done && t == s.(writePos := pos)
    case Read(length) =>
      || (answer.Failed? && RequestFailure(answer.error) && t == s)
      || (answer == Data(Window(s.contents, s.readPos, s.readPos + length))
          && t == s.(readPos := s.readPos + |answer.bytes|))
    case Write(data, truncate) =>
      var after := WriteAt(s.contents, s.writePos, data, truncate);
      var several := OperationCount(ce, |s.contents|, s.writePos, data, truncate) > SERVER_OPERATIONS_LIMIT / 2;
      || (answer.Failed? && RequestFailure(answer.error)
          && (t == s || (s.remote == Some(s.contents) && t == s.(remote := if several then None else Some(after)))))
      || (answer == Done && !several && s.remote == Some(s.contents)
          && t == s.(contents := after, remote := Some(after), writePos := s.writePos + |data|))
    case Sync(between) =>
      var later := if between.Some? then between.value.plain else s.remote;
      || (answer == Failed(ServerFailure) && t == s.(remote := later))
      || (answer.Failed? && answer.error.HashFailure? && (s.remote.None? || between.Some?) && t == s.(remote := later))
      || (answer == Done && s.remote.Some? && t == s.(contents := s.remote.value, remote := later))
    case Others(foreign) => answer == Done && t == s.(remote := foreign.plain)
  }

  /** A run, with the state before each command and after the last. */
  ghost predicate Run(ce: ChunkEncryptor, states: seq<PlainFile>, cmds: seq<Command>, answers: seq<Answer>)
    requires ce.chunkSize > 0
  {
    && |answers| <= |cmds| && |states| == |answers| + 1
    && forall i | 0 <= i < |answers| :: Step(ce, states[i], cmds[i], answers[i], states[i + 1])
  }

  lemma RunOneMore(ce: ChunkEncryptor, states: seq<PlainFile>, cmds: seq<Command>, answers: seq<Answer>, answer: Answer, t: PlainFile)
    requires ce.chunkSize > 0 && Run(ce, states, cmds, answers)
    requires |answers| < |cmds| && Step(ce, states[|answers|], cmds[|answers|], answer, t)
    ensures Run(ce, states + [t], cmds, answers + [answer])
  {
  }

  /** The file that is said to be there is there. */
  ghost predicate Truthful(crypto: CryptoService, foreign: Foreign) {
    foreign.plain.Some? ==> OnServer(crypto, foreign.snapshot, foreign.plain.value, foreign.chunks)
  }

  /** The server holds a plain file under the key and chunk size that its metadata give. */
  ghost predicate OnServer(crypto: CryptoService, s: Snapshot, plain: Bytes, chunks: nat) {
    Described(EncryptorOf(crypto, s.meta), s, plain, chunks) && chunks <= NO_SERVER_CHUNK
  }

  /** The checksums of such a file match its metadata. */
  lemma OnServerMatches(crypto: CryptoService, s: Snapshot, plain: Bytes, chunks: nat)
    requires OnServer(crypto, s, plain, chunks)
    ensures Matches(crypto, s.meta.key, s.meta.hmac, s.checksums)
  {
    EntriesWhole(CodecOf(EncryptorOf(crypto, s.meta)), s.file, s.checksums, plain, chunks);
  }

  ghost predicate AllTruthful(crypto: CryptoService, cmds: seq<Command>) {
    forall cmd | cmd in cmds :: CommandTruthful(crypto, cmd)
  }

  ghost predicate CommandTruthful(crypto: CryptoService, cmd: Command) {
    && (cmd.Others? ==> Truthful(crypto, cmd.foreign))
    && (cmd.Sync? && cmd.between.Some? ==> Truthful(crypto, cmd.between.value))
  }

  /** Whether the server's file is known to be one after a command; `cut` if a write of several requests has moved
      the server on. */
  predicate Known(cmd: Command, known: bool, cut: bool) {
    match cmd
    case Write(_, _) => known && !cut
    case Sync(between) => if between.Some? then between.value.plain.Some? else known
    case Others(foreign) => foreign.plain.Some?
    case _ => known
  }

  /** A faithful write, once applied, leaves the server with the new file. */
  lemma WrittenRemote(ce: ChunkEncryptor, plain: Bytes, chunks: nat, encryptedSize: nat, offset: nat, data: Bytes, truncate: bool,
                      after: Snapshot)
    requires ce.Valid() && chunks <= NO_SERVER_CHUNK && after.meta.key == ce.key && after.meta.chunkSize == ce.chunkSize
    requires StopIndex(ce.chunkSize, offset + |data|, data == []) < NO_SERVER_CHUNK
    requires Faithful(ce, |plain|, encryptedSize, offset, data, truncate)
    requires LeftBehind(ce, plain, chunks, encryptedSize, offset, data, truncate, after)
    ensures OnServer(ce.crypto, after, WriteAt(plain, offset, data, truncate),
                     ChunksAfter(chunks, StopIndex(ce.chunkSize, offset + |data|, data == []), truncate))
  {
    OpenLeft(ce, plain, chunks, encryptedSize, offset, data, truncate, after);
    assert EncryptorOf(ce.crypto, after.meta) == ce;
  }

  class FileHandlerImpl {
    const file: Handler
    var readPos: nat
    var writePos: nat
    ghost var remote: Option<Bytes>
    ghost var remoteChunks: nat

    /** The handler describes the file as it was at its version; the server has `remote`, and if that is none,
        nothing is known of its file. */
    ghost predicate Valid()
      reads this, file, file.server, file.chunkDataProvider, file.chunkReader, file.hashList
    {
      && file.Valid() && file.Owner()
      && (remote.Some? ==> OnServer(file.chunkEncryptor.crypto, file.server.current, remote.value, remoteChunks))
      && (file.version == file.server.version ==> remote == Some(file.plain))
    }

    ghost function View(): PlainFile
      reads this, file
    {
      PlainFile(file.plain, readPos, writePos, remote)
    }

    /** A handle that has just been opened is up to date. */
    constructor (file: Handler)
      requires file.Valid() && file.Owner() && file.version == file.server.version
      ensures this.file == file && Valid() && View() == PlainFile(file.plain, 0, 0, Some(file.plain))
    {
      this.file, readPos, writePos := file, 0, 0;
      remote, remoteChunks := Some(file.plain), file.chunks;
    }

    method Size() returns (size: nat)
      requires Valid()
      ensures size == |View().contents|
    {
      size := file.GetFileSize();
    }

    method SeekG(pos: nat) returns (r: Result<(), FileError>)
      requires Valid()
      modifies this`readPos
      ensures Valid()
      ensures if pos > |View().contents| then r == Err(PosOutOfBounds) && View() == old(View())
              else r == Ok(()) && View() == old(View()).(readPos := pos)
    {
      if pos > file.GetFileSize() {
        return Err(PosOutOfBounds);
      }
      readPos := pos;
      r := Ok(());
    }

    method SeekP(pos: nat) returns (r: Result<(), FileError>)
      requires Valid()
      modifies this`writePos
      ensures Valid()
      ensures if pos > |View().contents| then r == Err(PosOutOfBounds) && View() == old(View())
              else r == Ok(()) && View() == old(View()).(writePos := pos)
    {
      if pos > file.GetFileSize() {
        return Err(PosOutOfBounds);
      }
      writePos := pos;
      r := Ok(());
    }

    method Read(length: nat) returns (r: Result<Bytes, FileError>)
      requires Valid()
      modifies this`readPos, file.chunkReader`version, file.chunkReader`lastChunk, file.chunkDataProvider
      ensures Valid()
      ensures r.Ok? ==> r.value == Window(old(View()).contents, old(readPos), old(readPos) + length)
                        && View() == old(View()).(readPos := old(readPos) + |r.value|)
      ensures r.Err? ==> View() == old(View())
                         && (r.error.ServerFailure? || (r.error.FileVersionMismatch? && file.version != file.server.version))
    {
      r := file.Read(readPos, length);
      if r.Err? {
        return;
      }
      readPos := readPos + |r.value|;
    }

    /** Whether the next write takes several requests, and can therefore not succeed. */
    predicate Several(data: Bytes, truncate: bool)
      requires file.chunkEncryptor.chunkSize > 0
      reads this, file
    {
      OperationCount(file.chunkEncryptor, file.plainFileSize, writePos, data, truncate) > SERVER_OPERATIONS_LIMIT / 2
    }

    /** Whether the next write is one that the engine carries out faithfully or not at all (see `Handler.Write`). */
    predicate Writable(data: Bytes, truncate: bool)
      requires file.chunkEncryptor.chunkSize > 0
      reads this, file
    {
      && StopIndex(file.chunkEncryptor.chunkSize, writePos + |data|, data == []) < NO_SERVER_CHUNK
      && (Several(data, truncate)
          || Faithful(file.chunkEncryptor, file.plainFileSize, file.encryptedFileSize, writePos, data, truncate))
    }

    method Write(data: Bytes, truncate: bool) returns (r: Result<(), FileError>)
      requires Valid() && Writable(data, truncate)
      modifies this, file, file.server, file.chunkDataProvider, file.hashList
      modifies file.chunkReader`version, file.chunkReader`lastChunk
      ensures Valid()
      ensures Step(file.chunkEncryptor, old(View()), Command.Write(data, truncate), Reply(r), View())
      ensures remote.Some? <==> old(remote.Some?) && !(old(Several(data, truncate)) && file.server.version != old(file.server.version))
    {
      ghost var several := Several(data, truncate);
      r := WriteThrough(data, truncate, several);
      if r.Err? {
        return;
      }
      writePos := writePos + |data|;
    }

    /** The write itself; the position stays. */
    method WriteThrough(data: Bytes, truncate: bool, ghost several: bool) returns (r: Result<(), FileError>)
      requires Valid() && Writable(data, truncate) && several == Several(data, truncate)
      modifies this`remote, this`remoteChunks, file, file.server, file.chunkDataProvider, file.hashList
      modifies file.chunkReader`version, file.chunkReader`lastChunk
      ensures Valid()
      ensures remote == old(remote)
              || (old(remote) == Some(old(file.plain))
                  && remote == if several then None else Some(WriteAt(old(file.plain), writePos, data, truncate)))
      ensures r.Ok? ==> !several && old(remote) == Some(old(file.plain))
                        && file.plain == WriteAt(old(file.plain), writePos, data, truncate) && remote == Some(file.plain)
      ensures r.Err? ==> RequestFailure(r.error) && file.plain == old(file.plain)
      ensures remote.Some? <==> old(remote.Some?) && !(several && file.server.version != old(file.server.version))
    {
      ghost var plain, chunks, size := file.plain, file.chunks, file.encryptedFileSize;
      r := file.Write(writePos, data, truncate);
      if !Untouched(old(file.server.version), old(file.server.current), file.server.version, file.server.current) {
        Follow(plain, chunks, size, data, truncate, several);
      }
    }

    /** The server has applied a request: it has the new file, or none if there were several. */
    ghost method Follow(plain: Bytes, chunks: nat, size: nat, data: Bytes, truncate: bool, several: bool)
      requires file.Valid() && file.Owner() && chunks <= NO_SERVER_CHUNK
      requires file.server.current.meta.key == file.chunkEncryptor.key
      requires file.server.current.meta.chunkSize == file.chunkEncryptor.chunkSize
      requires StopIndex(file.chunkEncryptor.chunkSize, writePos + |data|, data == []) < NO_SERVER_CHUNK
      requires LeftBehind(file.chunkEncryptor, plain, chunks, size, writePos, data, truncate, file.server.current)
      requires !several ==> Faithful(file.chunkEncryptor, |plain|, size, writePos, data, truncate)
      requires file.version == file.server.version ==> !several && file.plain == WriteAt(plain, writePos, data, truncate)
      modifies this`remote, this`remoteChunks
      ensures Valid()
      ensures remote == if several then None else Some(WriteAt(plain, writePos, data, truncate))
    {
      if several {
        remote := None;
      } else {
        WrittenRemote(file.chunkEncryptor, plain, chunks, size, writePos, data, truncate, file.server.current);
        remote := Some(WriteAt(plain, writePos, data, truncate));
        remoteChunks := ChunksAfter(chunks, StopIndex(file.chunkEncryptor.chunkSize, writePos + |data|, data == []), truncate);
      }
    }

    /** The server's file as a sync finds it: its metadata, and the checksums that come with the second request. */
    function ChecksumsFound(between: Option<Foreign>): Bytes
      reads file.server
    {
      if between.Some? then between.value.snapshot.checksums else file.server.current.checksums
    }

    predicate SyncAccepted(between: Option<Foreign>)
      reads file.server
    {
      var meta := file.server.current.meta;
      Matches(file.chunkEncryptor.crypto, meta.key, meta.hmac, ChecksumsFound(between))
    }

    /** Whether a sync that is accepted moves to a file that this handle can work on: one that is what its metadata
        says, under this handle's own key and chunk size. */
    predicate Syncable(between: Option<Foreign>, known: bool)
      reads file.server
    {
      SyncAccepted(between) ==>
        && known
        && file.server.current.meta.key == file.chunkEncryptor.key
        && file.server.current.meta.chunkSize == file.chunkEncryptor.chunkSize
        && ChecksumsFound(between) == file.server.current.checksums
    }

    /** Moves to the server's version; both positions stay. */
    method Sync(between: Option<Foreign>) returns (r: Result<(), FileError>)
      requires Valid() && Syncable(between, remote.Some?)
      requires between.Some? ==> Truthful(file.chunkEncryptor.crypto, between.value)
      modifies this`remote, this`remoteChunks, file, file.server, file.chunkDataProvider, file.hashList
      modifies file.chunkReader`version, file.chunkReader`lastChunk
      ensures Valid()
      ensures Step(file.chunkEncryptor, old(View()), Command.Sync(between), Reply(r), View())
    {
      if remote.Some? {
        OnServerMatches(file.chunkEncryptor.crypto, file.server.current, remote.value, remoteChunks);
      }
      var found := file.server.StoreFileGet();
      ghost var was, wasChunks, current := remote, remoteChunks, file.server.current;
      if between.Some? {
        OtherClientWrites(between.value);
      }
      if found.Err? {
        return Err(ServerException(found.error));
      }
      var (meta, size, version) := found.value;
      r := FinishSync(meta, GetFileDecryptionParams(meta, size, version), current, was, wasChunks);
    }

    /** The second request of a sync, and what follows it. */
    method FinishSync(meta: FileMeta, params: FileDecryptionParams, ghost s: Snapshot, ghost plain: Option<Bytes>, ghost chunks: nat)
      returns (r: Result<(), FileError>)
      requires Valid()
      requires file.version <= params.version && params.version in file.server.history && file.server.history[params.version] == s
      requires meta == s.meta && params == GetFileDecryptionParams(meta, |s.file|, params.version)
      requires plain.Some? ==> OnServer(file.chunkEncryptor.crypto, s, plain.value, chunks)
      requires params.version == file.server.version ==> plain == remote
      requires Matches(file.chunkEncryptor.crypto, meta.key, meta.hmac, file.server.current.checksums) ==>
                 && plain.Some? && meta.key == file.chunkEncryptor.key && meta.chunkSize == file.chunkEncryptor.chunkSize
                 && file.server.current.checksums == s.checksums
      modifies file, file.chunkDataProvider, file.chunkReader`version, file.chunkReader`lastChunk, file.hashList
      ensures Valid()
      ensures r.Ok? ==> plain.Some? && file.plain == plain.value
      ensures r.Err? ==> file.plain == old(file.plain)
      ensures r.Err? ==> r.error.ServerFailure?
                         || (r.error.HashFailure?
                             && !Matches(file.chunkEncryptor.crypto, meta.key, meta.hmac, file.server.current.checksums))
    {
      r := file.Sync(meta, params, if plain.Some? then plain.value else [], chunks);
    }

    /** Another client's write is accepted by the server. */
    method OtherClientWrites(foreign: Foreign)
      requires Valid() && Truthful(file.chunkEncryptor.crypto, foreign)
      modifies this`remote, this`remoteChunks, file.server
      ensures Valid() && View() == old(View()).(remote := foreign.plain)
      ensures Extends(file.server.history, old(file.server.history))
      ensures file.server.version == old(file.server.version) + 1 && file.server.current == foreign.snapshot
    {
      file.server.Accept(foreign.snapshot);
      remote, remoteChunks := foreign.plain, foreign.chunks;
    }

    /** Executes a command that asks nothing of the server. */
    method ExecuteHere(cmd: Command) returns (answer: Answer)
      requires Valid() && (cmd.Size? || cmd.SeekG? || cmd.SeekP?)
      modifies this`readPos, this`writePos
      ensures Valid() && Step(file.chunkEncryptor, old(View()), cmd, answer, View())
    {
      match cmd
      case Size =>
        var size := Size();
        answer := SizeIs(size);
      case SeekG(pos) =>
        var r := SeekG(pos);
        answer := Reply(r);
      case SeekP(pos) =>
        var r := SeekP(pos);
        answer := Reply(r);
    }

    /** Executes a command that concerns the server's file alone. */
    method ExecuteRemote(cmd: Command) returns (answer: Answer)
      requires Valid() && CommandTruthful(file.chunkEncryptor.crypto, cmd)
      requires cmd.Others? || (cmd.Sync? && Syncable(cmd.between, remote.Some?))
      modifies this`remote, this`remoteChunks, file, file.server, file.chunkDataProvider, file.hashList
      modifies file.chunkReader`version, file.chunkReader`lastChunk
      ensures Valid() && Step(file.chunkEncryptor, old(View()), cmd, answer, View())
      ensures remote.Some? <==> Known(cmd, old(remote.Some?), false)
    {
      match cmd
      case Sync(between) =>
        var r := Sync(between);
        answer := Reply(r);
      case Others(foreign) =>
        OtherClientWrites(foreign);
        answer := Done;
    }

    /** Whether this engine does justice to a command; `known` tells whether the server's file is known to be one. */
    predicate Supported(cmd: Command, known: bool)
      requires file.chunkEncryptor.chunkSize > 0
      reads this, file, file.server
    {
      (cmd.Write? ==> Writable(cmd.data, cmd.truncate)) && (cmd.Sync? ==> Syncable(cmd.between, known))
    }

    /** Executes one command. */
    method Execute(cmd: Command) returns (answer: Answer)
      requires Valid() && CommandTruthful(file.chunkEncryptor.crypto, cmd) && Supported(cmd, remote.Some?)
      modifies this, file, file.server, file.chunkDataProvider, file.hashList
      modifies file.chunkReader`version, file.chunkReader`lastChunk
      ensures Valid() && Step(file.chunkEncryptor, old(View()), cmd, answer, View())
      ensures remote.Some? <==> Known(cmd, old(remote.Some?),
                                      old(cmd.Write? && Several(cmd.data, cmd.truncate)) && file.server.version != old(file.server.version))
    {
      match cmd
      case Read(length) =>
        var r := Read(length);
        answer := match r case Ok(bytes) => Data(bytes) case Err(e) => Failed(e);
      case Write(data, truncate) =>
        var r := Write(data, truncate);
        answer := Reply(r);
      case Sync(_) =>
        answer := ExecuteRemote(cmd);
      case Others(_) =>
        answer := ExecuteRemote(cmd);
      case _ =>
        answer := ExecuteHere(cmd);
    }

    /** Every run of commands is a run of the plain byte array: it goes on to the end, or up to a write that is
        accepted without being faithful, or up to a sync that is accepted although the file is not this handle's. */
    method ExecuteAll(cmds: seq<Command>) returns (answers: seq<Answer>, ghost states: seq<PlainFile>)
      requires Valid() && remote.Some? && AllTruthful(file.chunkEncryptor.crypto, cmds)
      modifies this, file, file.server, file.chunkDataProvider, file.hashList
      modifies file.chunkReader`version, file.chunkReader`lastChunk
      ensures Valid() && Run(file.chunkEncryptor, states, cmds, answers)
      ensures states[0] == old(View()) && states[|answers|] == View()
      ensures |answers| < |cmds| ==> !Supported(cmds[|answers|], remote.Some?)
    {
      answers, states := [], [View()];
      var known := true;
      while |answers| < |cmds|
        invariant Valid() && Run(file.chunkEncryptor, states, cmds, answers)
        invariant states[0] == old(View()) && states[|answers|] == View()
        invariant known == remote.Some?
      {
        var cmd := cmds[|answers|];
        if !Supported(cmd, known) {
          return;
        }
        assert cmd in cmds;
        var version, several := file.server.version, cmd.Write? && Several(cmd.data, cmd.truncate);
        var answer := Execute(cmd);
        RunOneMore(file.chunkEncryptor, states, cmds, answers, answer, View());
        known := Known(cmd, known, several && file.server.version != version);
        answers, states := answers + [answer], states + [View()];
      }
    }
  }

  /** The same for a handle that is opened first. */
  method OpenAndExecuteAll(server: Server, ce: ChunkEncryptor, params: FileDecryptionParams, meta: FileMeta, serverChunkSize: nat,
                           cmds: seq<Command>, ghost plain: Bytes, ghost chunks: nat)
    returns (r: Result<FileHandlerImpl, FileError>, answers: seq<Answer>, ghost states: seq<PlainFile>)
    requires server.Valid() && serverChunkSize > 0 && params.version == server.version
    requires ce == EncryptorOf(ce.crypto, meta) && Describes(params, meta, ce, server, plain, chunks)
    requires AllTruthful(ce.crypto, cmds)
    modifies server
    ensures r.Err? ==> r.error.ServerFailure? || (r.error.FileCorrupted? && !SizesAgree(ce, params))
    ensures r.Ok? ==>
              && r.value.Valid() && r.value.file.chunkEncryptor == ce
              && Run(ce, states, cmds, answers)
              && states[0] == PlainFile(plain, 0, 0, Some(plain)) && states[|answers|] == r.value.View()
              && (|answers| < |cmds| ==> !r.value.Supported(cmds[|answers|], r.value.remote.Some?))
  {
    answers, states := [], [];
    var handler := Open(server, ce, params, meta, serverChunkSize, plain, chunks);
    if handler.Err? {
      return Err(handler.error), answers, states;
    }
    var handle := new FileHandlerImpl(handler.value);
    answers, states := handle.ExecuteAll(cmds);
    r := Ok(handle);
  }
}
