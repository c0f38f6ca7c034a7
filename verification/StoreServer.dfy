/** A model of the server's side of one stored file. Every accepted write makes a new version;
    the ghost `history` remembers what each version held, so that claims about a client can speak
    of the version the client works on even after the server has moved on. */
module StoreServer {
  import opened ByteStrings
  import opened Results

  /** The parts of the file's internal metadata that matter to the file engine: it maintains the first two, and
      the others say how the file is encrypted. */
  datatype FileMeta = FileMeta(hmac: Bytes, size: nat, key: Bytes, chunkSize: nat)

  datatype Snapshot = Snapshot(file: Bytes, checksums: Bytes, meta: FileMeta)

  datatype OperationType = FileData | Checksum

  datatype Operation = Operation(kind: OperationType, pos: nat, data: Bytes, truncate: bool)

  /** `Unavailable` is any failure other than a version mismatch: a refused or lost request. */
  datatype ServerError = VersionMismatch | Unavailable

  function Apply(s: Snapshot, op: Operation): Option<Snapshot> {
    match op.kind
    case FileData =>
      if op.pos <= |s.file| then Some(s.(file := Patch(s.file, op.pos, op.data, op.truncate))) else None
    case Checksum =>
      if op.pos <= |s.checksums| then Some(s.(checksums := Patch(s.checksums, op.pos, op.data, op.truncate))) else None
  }

  function ApplyAll(s: Snapshot, ops: seq<Operation>): Option<Snapshot>
    decreases |ops|
  {
    if ops == [] then Some(s)
    else
      match Apply(s, ops[0])
      case None => None
      case Some(t) => ApplyAll(t, ops[1..])
  }

  /** Later history keeps every version of the earlier one. */
  ghost predicate Extends(later: map<int, Snapshot>, earlier: map<int, Snapshot>) {
    forall v | v in earlier :: v in later && later[v] == earlier[v]
  }

  class Server {
    var version: int
    var current: Snapshot
    ghost var history: map<int, Snapshot>

    ghost predicate Valid()
      reads this
    {
      && version in history && history[version] == current
      && forall v | v in history :: v <= version
    }

    constructor (initial: Snapshot, initialVersion: int)
      ensures Valid() && current == initial && version == initialVersion
    {
      version, current := initialVersion, initial;
      history := map[initialVersion := initial];
    }

    /** Bytes `from`..`to` of the file, if it is still at the version asked for. */
    method StoreFileRead(from: nat, to: nat, version: int) returns (r: Result<Bytes, ServerError>)
      requires from <= to
      ensures r.Ok? ==> version == this.version && r.value == Window(current.file, from, to)
      ensures r.Err? && version != this.version ==> r.error.VersionMismatch?
      ensures r.Err? && r.error.VersionMismatch? ==> version != this.version
    {
      if version != this.version {
        return Err(VersionMismatch);
      }
      if * {
        return Err(Unavailable);
      }
      r := Ok(Window(current.file, from, to));
    }

    /** Metadata, size and version of the file. */
    method StoreFileGet() returns (r: Result<(FileMeta, nat, int), ServerError>)
      ensures r.Ok? ==> r.value == (current.meta, |current.file|, version)
      ensures r.Err? ==> r.error.Unavailable?
    {
      if * {
        return Err(Unavailable);
      }
      var size: nat := |current.file|;
      r := Ok((current.meta, size, version));
    }

    method StoreFileReadChecksums() returns (r: Result<Bytes, ServerError>)
      ensures r.Ok? ==> r.value == current.checksums
      ensures r.Err? ==> r.error.Unavailable?
    {
      if * {
        return Err(Unavailable);
      }
      r := Ok(current.checksums);
    }

    /** Applies the operations in order to the version they were prepared for. A failed request may
        have been applied, if only its answer was lost. */
    method StoreFileWrite(ops: seq<Operation>, meta: FileMeta, version: int) returns (r: Result<(), ServerError>)
      requires Valid()
      modifies this
      ensures Valid() && Extends(history, old(history))
      ensures r.Ok? ==> this.version == version + 1
      ensures unchanged(this)
              || (version == old(this.version) && this.version == version + 1
                  && ApplyAll(old(current), ops).Some?
                  && current == ApplyAll(old(current), ops).value.(meta := meta))
      ensures r.Ok? ==> !unchanged(this)
    {
      if version != this.version {
        return Err(VersionMismatch);
      }
      var applied := ApplyAll(current, ops);
      if applied.None? {
        return Err(Unavailable);
      }
      if * {
        return Err(Unavailable);
      }
      Accept(applied.value.(meta := meta));
      if * {
        return Err(Unavailable);
      }
      r := Ok(());
    }

    /** A new version of the file: also how other clients' writes appear. */
    method Accept(s: Snapshot)
      requires Valid()
      modifies this
      ensures Valid() && Extends(history, old(history))
      ensures version == old(version) + 1 && current == s
    {
      version, current := version + 1, s;
      history := history[version := s];
    }
  }
}
