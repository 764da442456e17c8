/** The state file of a run: an encoded state that is replaced atomically, without durability
    (orchestrator/state.py over orchestrator/_common/io_atomic.py). */
module StateFile {
  import opened Text
  import opened AtomicFile

  /** The JSON text of a state; decoding undoes encoding. */
  datatype Codec<!S> = Codec(encode: S -> Bytes, decode: Bytes -> Option<S>)

  ghost predicate Faithful<S(!new)>(codec: Codec<S>) {
    forall s :: codec.decode(codec.encode(s)) == Some(s)
  }

  /** How a write of the state ends; one that fails or kills the process may have renamed the file or not. */
  datatype End = Finished | Failed(landed: bool) | Killed(landed: bool)

  /** The end of the write, given everything that goes wrong in it. */
  function EndOf(files: Files, temporary: string, payload: Bytes, faults: Faults): End {
    match Ended(files, temporary, payload, false, faults)
    case Done => Finished
    case Raised => Failed(Landed(files, temporary, payload, false, faults))
    case Died => Killed(Landed(files, temporary, payload, false, faults))
  }

  /** The new state is on disk. */
  predicate OnDisk(end: End) {
    end == Finished || end.landed
  }

  lemma EndDecides(files: Files, path: string, temporary: string, payload: Bytes, faults: Faults)
    requires path != temporary
    ensures var (after, outcome) := Replaced(files, path, temporary, payload, false, faults);
            var end := EndOf(files, temporary, payload, faults);
            && Content(after, path) == (if OnDisk(end) then Some(payload) else Content(files, path))
            && (outcome == Done <==> end == Finished) && (outcome == Raised <==> end.Failed?)
            && (end.Failed? && end.landed ==> faults.interrupted)
  {
    ReplacementIsAtomic(files, path, temporary, payload, false, faults);
  }

  class Store<S(!new)> {
    const directory: Directory
    const path: string
    const codec: Codec<S>

    constructor (directory: Directory, path: string, codec: Codec<S>)
      requires Faithful(codec) && path !in directory.files
      ensures this.directory == directory && this.path == path && this.codec == codec
      ensures Valid() && Stored() == None
    {
      this.directory, this.path, this.codec := directory, path, codec;
    }

    ghost predicate Valid()
      reads directory
    {
      Faithful(codec) && (path in directory.files ==> codec.decode(directory.files[path]).Some?)
    }

    /** The state on disk. */
    ghost function Stored(): Option<S>
      reads directory
    {
      if path in directory.files then codec.decode(directory.files[path]) else None
    }

    /** `_write_state`; `end` also says whether a process that died had renamed the file. */
    method Write(s: S, temporary: string, faults: Faults) returns (outcome: Outcome, ghost end: End)
      requires Valid() && temporary != path
      modifies directory
      ensures Valid() && Stored() == if OnDisk(end) then Some(s) else old(Stored())
      ensures end == EndOf(old(directory.files), temporary, codec.encode(s), faults)
      ensures (outcome == Done <==> end == Finished) && (outcome == Raised <==> end.Failed?)
      ensures end.Failed? && !faults.interrupted ==> Stored() == old(Stored())
    {
      EndDecides(directory.files, path, temporary, codec.encode(s), faults);
      end := EndOf(directory.files, temporary, codec.encode(s), faults);
      ghost var before := directory.files;
      outcome := directory.ReplaceBytes(path, temporary, codec.encode(s), false, faults);
      assert Content(directory.files, path) == if OnDisk(end) then Some(codec.encode(s)) else Content(before, path);
    }

    /** `_read_state_from_disk`, if the file exists and can be read. */
    method Read(readable: bool) returns (s: Option<S>)
      requires Valid()
      ensures s == if readable then Stored() else None
    {
      if !readable || path !in directory.files {
        return None;
      }
      s := codec.decode(directory.files[path]);
    }
  }
}
