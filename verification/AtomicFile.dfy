/** Replacing one file atomically, when every primitive may fail and the process may die between any two of them
    (orchestrator/_common/io_atomic.py). What goes wrong is an input, so that every theorem speaks of all faults. */
module AtomicFile {
  import opened Text

  type Bytes = seq<bv8>

  type Files = map<string, Bytes>

  /** How a call or a primitive ends: normally, with an exception, or with the death of the process. */
  datatype Outcome = Done | Raised | Died

  /** One `os.write`: it may be short, and it may write nothing. */
  datatype Write = Wrote(count: nat) | WriteRaises | WriteDies

  /** How each primitive of one replacement ends; when `writes` is used up, one more write takes all that is left.
      `interrupted` is an exception from outside, such as `KeyboardInterrupt`, between the rename and the end; anywhere
      before the rename it is no different from a primitive that raises. `last` is the `finally` block: it closes
      descriptors and removes a temporary file that is still owned. */
  datatype Faults = Faults(
    open: Outcome,
    writes: seq<Write>,
    sync: Outcome,
    close: Outcome,
    rename: Outcome,
    interrupted: bool,
    directorySync: Outcome,
    last: Outcome)

  function Content(files: Files, path: string): Option<Bytes> {
    if path in files then Some(files[path]) else None
  }

  // ---- What a replacement does

  /** The loop of short writes: what the file holds, and how the loop ends. */
  function Written(content: Bytes, remaining: Bytes, writes: seq<Write>): (Bytes, Outcome)
    decreases |writes|
  {
    if remaining == [] then (content, Done)
    else if writes == [] then (content + remaining, Done)
    else
      match writes[0]
      case WriteDies => (content, Died)
      case WriteRaises => (content, Raised)
      case Wrote(count) =>
        if count == 0 then (content, Raised)
        else
          var k := if count < |remaining| then count else |remaining|;
          Written(content + remaining[..k], remaining[k..], writes[1..])
  }

  /** How the steps between opening the temporary file and renaming it end. */
  function Prepared(payload: Bytes, durable: bool, faults: Faults): Outcome {
    var written := Written([], payload, faults.writes).1;
    if written != Done then written
    else if durable && faults.sync != Done then faults.sync
    else faults.close
  }

  /** How the steps up to and including the rename end. */
  function RenameEnds(payload: Bytes, durable: bool, faults: Faults): Outcome {
    if Prepared(payload, durable, faults) == Done then faults.rename else Prepared(payload, durable, faults)
  }

  /** How the steps after the rename end. A durable replacement syncs the directory and then closes its descriptor;
      one that is not durable has nothing left to fail. */
  function AfterRename(durable: bool, faults: Faults): Outcome {
    var synced := if faults.interrupted then Raised else if durable then faults.directorySync else Done;
    if synced == Died || faults.last == Died then Died
    else if synced == Raised || (durable && faults.last == Raised) then Raised
    else Done
  }

  /** How the call ends. */
  function Ended(files: Files, temporary: string, payload: Bytes, durable: bool, faults: Faults): Outcome {
    if faults.open == Died then Died
    else if temporary in files || faults.open == Raised then Raised
    else
      match RenameEnds(payload, durable, faults)
      case Died => Died
      case Raised => if faults.last == Died then Died else Raised
      case Done => AfterRename(durable, faults)
  }

  function Renamed(files: Files, destination: string, temporary: string, payload: Bytes): Files {
    files[destination := payload] - {temporary}
  }

  /** The files afterwards; the clean-up after an exception removes the temporary file, unless it fails as well. */
  function FilesAfter(files: Files, destination: string, temporary: string, payload: Bytes, durable: bool, faults: Faults): Files {
    if faults.open != Done || temporary in files then files
    else
      var begun := files[temporary := Written([], payload, faults.writes).0];
      match RenameEnds(payload, durable, faults)
      case Died => begun
      case Raised => if faults.last == Done then begun - {temporary} else begun
      case Done => Renamed(begun, destination, temporary, payload)
  }

  /** `_replace_bytes` as a function of everything that can go wrong. */
  function Replaced(files: Files, destination: string, temporary: string, payload: Bytes, durable: bool, faults: Faults)
    : (Files, Outcome)
  {
    (FilesAfter(files, destination, temporary, payload, durable, faults), Ended(files, temporary, payload, durable, faults))
  }

  /** The rename took place. */
  predicate Landed(files: Files, temporary: string, payload: Bytes, durable: bool, faults: Faults) {
    && faults.open == Done && temporary !in files
    && RenameEnds(payload, durable, faults) == Done
  }

  // ---- What every replacement guarantees

  /** Under arbitrary short writes the file holds a prefix of the payload, and all of it at the end. */
  lemma {:induction false} WrittenIsPrefix(content: Bytes, remaining: Bytes, writes: seq<Write>)
    ensures var (held, outcome) := Written(content, remaining, writes);
            && content <= held <= content + remaining
            && (outcome == Done ==> held == content + remaining)
    decreases |writes|
  {
    if remaining == [] {
      assert content + remaining == content;
    } else if writes != [] && writes[0].Wrote? && writes[0].count > 0 {
      var k := if writes[0].count < |remaining| then writes[0].count else |remaining|;
      WrittenIsPrefix(content + remaining[..k], remaining[k..], writes[1..]);
      assert content + remaining[..k] + remaining[k..] == content + remaining;
      assert content <= content + remaining[..k];
    }
  }

  predicate AllProgress(writes: seq<Write>) {
    forall i :: 0 <= i < |writes| ==> writes[i].Wrote? && writes[i].count > 0
  }

  function Total(writes: seq<Write>): nat
    requires AllProgress(writes)
  {
    if writes == [] then 0 else writes[0].count + Total(writes[1..])
  }

  /** Writes that make progress are continued: after them the loop is done if they cover the payload, and else goes on
      with the rest of it. */
  lemma {:induction false} ShortWritesAreContinued(content: Bytes, remaining: Bytes, good: seq<Write>, rest: seq<Write>)
    requires AllProgress(good)
    ensures Written(content, remaining, good + rest) ==
            if Total(good) >= |remaining| then (content + remaining, Done)
            else Written(content + remaining[..Total(good)], remaining[Total(good)..], rest)
    decreases |good|
  {
    if remaining == [] {
      assert content + remaining == content;
    } else if good == [] {
      assert good + rest == rest && remaining[..0] == [] && content + [] == content && remaining[0..] == remaining;
    } else {
      var k := if good[0].count < |remaining| then good[0].count else |remaining|;
      var more := content + remaining[..k];
      assert (good + rest)[0] == good[0] && (good + rest)[1..] == good[1..] + rest;
      ShortWritesAreContinued(more, remaining[k..], good[1..], rest);
      assert more + remaining[k..] == content + remaining;
      if Total(good) < |remaining| {
        var n := Total(good[1..]);
        assert more + remaining[k..][..n] == content + remaining[..k + n];
        assert remaining[k..][n..] == remaining[k + n..];
      }
    }
  }

  /** So the loop stops at the first write that fails or makes no progress, and at no other, and has written everything
      before it. */
  lemma LoopStopsExactly(content: Bytes, remaining: Bytes, good: seq<Write>, bad: Write, rest: seq<Write>)
    requires AllProgress(good) && (bad.Wrote? ==> bad.count == 0)
    ensures Written(content, remaining, good) == (content + remaining, Done)
    ensures Written(content, remaining, good + ([bad] + rest)) ==
            if Total(good) >= |remaining| then (content + remaining, Done)
            else (content + remaining[..Total(good)], if bad.WriteDies? then Died else Raised)
  {
    ShortWritesAreContinued(content, remaining, good, [bad] + rest);
    ShortWritesAreContinued(content, remaining, good, []);
    assert good + [] == good;
    if Total(good) < |remaining| {
      assert content + remaining[..Total(good)] + remaining[Total(good)..] == content + remaining;
    }
  }

  /** Without a fault, however short the writes, the file is replaced and nothing else changes. */
  lemma UndisturbedReplacement(files: Files, destination: string, temporary: string, payload: Bytes, durable: bool, writes: seq<Write>)
    requires destination != temporary && temporary !in files && AllProgress(writes)
    ensures Replaced(files, destination, temporary, payload, durable, Faults(Done, writes, Done, Done, Done, false, Done, Done)) ==
            (files[destination := payload], Done)
  {
    var faults := Faults(Done, writes, Done, Done, Done, false, Done, Done);
    LoopStopsExactly([], payload, writes, WriteDies, []);
    DoneMeansReplaced(files, destination, temporary, payload, durable, faults);
  }

  /** Whatever happens, the destination holds the whole payload if the rename took place and its whole old content
      if not; no third file changes; and the temporary file holds a prefix of the payload, if it is there at all, which
      takes the death of the process or a failing clean-up. */
  lemma ReplacementIsAtomic(files: Files, destination: string, temporary: string, payload: Bytes, durable: bool, faults: Faults)
    requires destination != temporary
    ensures var after := Replaced(files, destination, temporary, payload, durable, faults).0;
            && Content(after, destination) ==
                 (if Landed(files, temporary, payload, durable, faults) then Some(payload) else Content(files, destination))
            && (forall other :: other != destination && other != temporary ==> Content(after, other) == Content(files, other))
            && (temporary !in files && temporary in after ==> after[temporary] <= payload)
            && (temporary !in files && temporary in after ==>
                  Ended(files, temporary, payload, durable, faults) == Died || faults.last != Done)
  {
    WrittenIsPrefix([], payload, faults.writes);
    assert [] + payload == payload;
  }

  /** A normal return means that the payload is in place and nothing is left behind. */
  lemma DoneMeansReplaced(files: Files, destination: string, temporary: string, payload: Bytes, durable: bool, faults: Faults)
    requires destination != temporary
    requires Replaced(files, destination, temporary, payload, durable, faults).1 == Done
    ensures Landed(files, temporary, payload, durable, faults)
    ensures Replaced(files, destination, temporary, payload, durable, faults).0 == files[destination := payload]
  {
    var after := Replaced(files, destination, temporary, payload, durable, faults).0;
    assert forall p :: p in after <==> p in files[destination := payload];
    assert forall p :: p in after ==> after[p] == files[destination := payload][p];
  }

  /** After an exception the destination is as it was exactly when the rename did not take place. An exception after the
      rename comes from outside, or from a durable replacement that fails to sync the directory or to close it. */
  lemma RaisedMeansUnchangedExactly(files: Files, destination: string, temporary: string, payload: Bytes, durable: bool, faults: Faults)
    requires destination != temporary && Content(files, destination) != Some(payload)
    requires Ended(files, temporary, payload, durable, faults) == Raised
    ensures Content(FilesAfter(files, destination, temporary, payload, durable, faults), destination) == Content(files, destination)
       <==> !Landed(files, temporary, payload, durable, faults)
    ensures Landed(files, temporary, payload, durable, faults) ==>
              faults.interrupted || (durable && (faults.directorySync == Raised || faults.last == Raised))
  {
    ReplacementIsAtomic(files, destination, temporary, payload, durable, faults);
  }

  /** So a replacement that is neither durable nor interrupted from outside raises only if nothing was replaced. */
  lemma PlainRaiseMeansUnchanged(files: Files, destination: string, temporary: string, payload: Bytes, faults: Faults)
    requires destination != temporary && !faults.interrupted
    requires Ended(files, temporary, payload, false, faults) == Raised
    ensures !Landed(files, temporary, payload, false, faults)
    ensures Content(FilesAfter(files, destination, temporary, payload, false, faults), destination) == Content(files, destination)
  {
    ReplacementIsAtomic(files, destination, temporary, payload, false, faults);
  }

  /** All three cases exist: the file is replaced and the caller sees an exception. */
  lemma RaiseAfterReplacement(files: Files, destination: string, temporary: string, payload: Bytes)
    requires destination != temporary && temporary !in files
    ensures var syncFails := Faults(Done, [], Done, Done, Done, false, Raised, Done);
            var closeFails := Faults(Done, [], Done, Done, Done, false, Done, Raised);
            var interrupt := Faults(Done, [], Done, Done, Done, true, Done, Done);
            && ReplacedAndRaised(files, destination, temporary, payload, true, syncFails)
            && ReplacedAndRaised(files, destination, temporary, payload, true, closeFails)
            && ReplacedAndRaised(files, destination, temporary, payload, false, interrupt)
  {
  }

  predicate ReplacedAndRaised(files: Files, destination: string, temporary: string, payload: Bytes, durable: bool, faults: Faults) {
    var (after, outcome) := Replaced(files, destination, temporary, payload, durable, faults);
    outcome == Raised && Content(after, destination) == Some(payload)
  }

  // ---- The program

  /** A directory of files. */
  class Directory {
    var files: Files

    constructor (files: Files)
      ensures this.files == files
    {
      this.files := files;
    }

    /** `_write_all`: each write may be short; no progress raises. */
    method WriteAll(temporary: string, payload: Bytes, writes: seq<Write>) returns (outcome: Outcome)
      requires Content(files, temporary) == Some([])
      modifies this
      ensures files == old(files)[temporary := Written([], payload, writes).0]
      ensures outcome == Written([], payload, writes).1
    {
      var remaining, i := payload, 0;
      assert writes[0..] == writes;
      while remaining != []
        invariant 0 <= i <= |writes| && temporary in files
        invariant files == old(files)[temporary := files[temporary]]
        invariant Written(files[temporary], remaining, writes[i..]) == Written([], payload, writes)
        decreases |remaining|
      {
        var next := if i < |writes| then writes[i] else Wrote(|remaining|);
        if next.WriteDies? {
          return Died;
        }
        var written := if next.Wrote? then next.count else 0;
        if written <= 0 {
          return Raised;
        }
        var k := if written < |remaining| then written else |remaining|;
        if i == |writes| {
          assert remaining[..k] == remaining && remaining[k..] == [];
        } else {
          assert writes[i..][1..] == writes[i + 1..];
        }
        files := files[temporary := files[temporary] + remaining[..k]];
        remaining := remaining[k..];
        i := if i < |writes| then i + 1 else i;
      }
      outcome := Done;
    }

    /** `_cleanup_nondurable` and the clean-up of a durable replacement, after an exception before the rename. */
    method CleanUp(temporary: string, last: Outcome) returns (outcome: Outcome)
      modifies this
      ensures files == if last == Done then old(files) - {temporary} else old(files)
      ensures outcome == if last == Died then Died else Raised
    {
      if last == Died {
        return Died;
      }
      if last == Done {
        files := files - {temporary};
      }
      outcome := Raised;
    }

    /** `_replace_bytes`. */
    method ReplaceBytes(destination: string, temporary: string, payload: Bytes, durable: bool, faults: Faults)
      returns (outcome: Outcome)
      modifies this
      ensures (files, outcome) == Replaced(old(files), destination, temporary, payload, durable, faults)
    {
      if faults.open == Died {
        return Died;
      }
      if temporary in files || faults.open == Raised {
        return Raised;
      }
      files := files[temporary := []];
      outcome := WriteAll(temporary, payload, faults.writes);
      assert files == old(files)[temporary := Written([], payload, faults.writes).0];
      if outcome == Done && durable {
        outcome := faults.sync;
      }
      if outcome == Done {
        outcome := faults.close;
      }
      if outcome == Done {
        outcome := faults.rename;
      }
      if outcome == Died {
        return;
      }
      if outcome == Raised {
        outcome := CleanUp(temporary, faults.last);
        return;
      }
      files := Renamed(files, destination, temporary, payload);
      if faults.interrupted {
        outcome := Raised;
      } else if durable {
        outcome := faults.directorySync;
      }
      if outcome == Died || faults.last == Died {
        return Died;
      }
      if durable && faults.last == Raised {
        outcome := Raised;
      }
    }
  }
}
