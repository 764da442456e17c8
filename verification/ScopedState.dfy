/** Updating one nested call frame of the run state in one write
    (orchestrator/state.py, `_mutate_scoped_state`). */
module ScopedState {
  import opened Text
  import opened StateFile
  import AtomicFile

  /** A run state; `rest` stands for the fields that a scoped mutation can change at its leaf only. */
  datatype RunState = RunState(
    workflowFile: string,
    status: string,
    currentStep: Option<string>,
    rest: string,
    frames: map<string, Frame>)

  /** A call frame: its identity, the nested state if there is one, and a summary of it. */
  datatype Frame = Frame(id: string, state: Option<RunState>, status: string, currentStep: Option<string>, rest: string)

  type Path = seq<string>

  // ---- The lens

  /** The path enters a frame that is what its key says. */
  predicate Enters(run: RunState, id: string) {
    id != "" && id in run.frames && run.frames[id].id == id && run.frames[id].state.Some?
  }

  /** The state that the path reaches. */
  function Get(run: RunState, path: Path): Option<RunState>
    decreases |path|
  {
    if path == [] then Some(run)
    else if Enters(run, path[0]) then Get(run.frames[path[0]].state.value, path[1..])
    else None
  }

  /** A frame over a new nested state, with its summary brought up to date. */
  function Refresh(frame: Frame, child: RunState): Frame {
    frame.(state := Some(child), status := child.status, currentStep := child.currentStep)
  }

  /** Put a new state at the end of the path. */
  function Put(run: RunState, path: Path, leaf: RunState): RunState
    requires Get(run, path).Some?
    decreases |path|
  {
    if path == [] then leaf
    else
      var frame := run.frames[path[0]];
      run.(frames := run.frames[path[0] := Refresh(frame, Put(frame.state.value, path[1..], leaf))])
  }

  /** The frame at the end of a path. */
  function FrameAt(run: RunState, path: Path): Option<Frame>
    requires path != []
  {
    match Get(run, path[..|path| - 1])
    case None => None
    case Some(parent) =>
      var id := path[|path| - 1];
      if id in parent.frames then Some(parent.frames[id]) else None
  }

  /** The frame repeats its nested state's status and current step. */
  predicate Mirrors(frame: Frame) {
    frame.state.Some? ==> frame.status == frame.state.value.status && frame.currentStep == frame.state.value.currentStep
  }

  /** All frames on the path are up to date. */
  predicate UpToDate(run: RunState, path: Path)
    requires Get(run, path).Some?
    decreases |path|
  {
    path != [] ==> Mirrors(run.frames[path[0]]) && UpToDate(run.frames[path[0]].state.value, path[1..])
  }

  /** Reading back what was put. */
  lemma {:induction false} GetPut(run: RunState, path: Path, leaf: RunState)
    requires Get(run, path).Some?
    ensures Get(Put(run, path, leaf), path) == Some(leaf)
    ensures UpToDate(Put(run, path, leaf), path)
    decreases |path|
  {
    if path != [] {
      GetPut(run.frames[path[0]].state.value, path[1..], leaf);
    }
  }

  /** Putting twice is putting the last. */
  lemma {:induction false} PutPut(run: RunState, path: Path, first: RunState, second: RunState)
    requires Get(run, path).Some?
    ensures Get(Put(run, path, first), path).Some?
    ensures Put(Put(run, path, first), path, second) == Put(run, path, second)
    decreases |path|
  {
    GetPut(run, path, first);
    if path != [] {
      PutPut(run.frames[path[0]].state.value, path[1..], first, second);
    }
  }

  /** Putting back what is there changes nothing exactly when the frames on the path are up to date. */
  lemma {:induction false} PutGet(run: RunState, path: Path)
    requires Get(run, path).Some?
    ensures Put(run, path, Get(run, path).value) == run <==> UpToDate(run, path)
    decreases |path|
  {
    if path != [] {
      var id := path[0];
      var frame := run.frames[id];
      var leaf := Get(run, path).value;
      PutGet(frame.state.value, path[1..]);
      var child := Put(frame.state.value, path[1..], leaf);
      var result := Put(run, path, leaf);
      assert result.frames[id] == Refresh(frame, child);
      if Refresh(frame, child) == frame {
        assert run.frames[id := frame] == run.frames;
      }
    }
  }

  // ---- Off the path

  /** The two paths part ways: neither continues the other. */
  predicate Parted(p: Path, q: Path) {
    exists k :: 0 <= k < |p| && k < |q| && p[k] != q[k] && p[..k] == q[..k]
  }

  lemma PartedTail(p: Path, q: Path)
    requires Parted(p, q) && p[0] == q[0]
    ensures Parted(p[1..], q[1..])
  {
    var k :| 0 <= k < |p| && k < |q| && p[k] != q[k] && p[..k] == q[..k];
    assert p[1..][k - 1] == p[k] && q[1..][k - 1] == q[k];
    assert p[1..][..k - 1] == p[..k][1..] && q[1..][..k - 1] == q[..k][1..];
  }

  /** A path that parts from the updated one reaches the same state as before. */
  lemma {:induction false} OffPathState(run: RunState, path: Path, leaf: RunState, other: Path)
    requires Get(run, path).Some? && Parted(path, other)
    ensures Get(Put(run, path, leaf), other) == Get(run, other)
    decreases |path|
  {
    if path[0] == other[0] {
      PartedTail(path, other);
      OffPathState(run.frames[path[0]].state.value, path[1..], leaf, other[1..]);
    }
  }

  /** The frame itself is unchanged too, summary and all. */
  lemma {:induction false} OffPathFrame(run: RunState, path: Path, leaf: RunState, other: Path)
    requires Get(run, path).Some? && Parted(path, other)
    ensures FrameAt(Put(run, path, leaf), other) == FrameAt(run, other)
    decreases |path|
  {
    var id := other[0];
    if path[0] == id {
      PartedTail(path, other);
      OffPathFrame(run.frames[id].state.value, path[1..], leaf, other[1..]);
      FrameBelow(run, other);
      FrameBelow(Put(run, path, leaf), other);
    } else if |other| > 1 {
      assert Put(run, path, leaf).frames[path[0] := run.frames[path[0]]] == run.frames;
      var before := other[..|other| - 1];
      assert before[0] == other[0];
    }
  }

  /** Above the leaf only the frames on the path change: every ancestor keeps its own fields. */
  lemma {:induction false} AncestorsKeepFields(run: RunState, path: Path, leaf: RunState, k: nat)
    requires Get(run, path).Some? && k < |path|
    ensures Get(run, path[..k]).Some? && Get(Put(run, path, leaf), path[..k]).Some?
    ensures var before := Get(run, path[..k]).value;
            var after := Get(Put(run, path, leaf), path[..k]).value;
            after.(frames := before.frames) == before && after.frames.Keys == before.frames.Keys
    decreases |path|
  {
    if k > 0 {
      AncestorsKeepFields(run.frames[path[0]].state.value, path[1..], leaf, k - 1);
      assert path[..k][1..] == path[1..][..k - 1];
    }
  }

  /** Every frame on the path mirrors its child after a put. */
  lemma {:induction false} OnPathMirrors(run: RunState, path: Path, leaf: RunState, k: nat)
    requires Get(run, path).Some? && 0 < k <= |path|
    ensures var frame := FrameAt(Put(run, path, leaf), path[..k]);
            frame.Some? && frame.value.id == path[k - 1] && frame.value.state.Some? && Mirrors(frame.value)
    decreases |path|
  {
    var after, prefix := Put(run, path, leaf), path[..k];
    assert Enters(after, path[0]) && prefix[0] == path[0];
    if k == 1 {
      assert prefix[..0] == [] && Get(after, prefix[..0]) == Some(after);
      assert FrameAt(after, prefix) == Some(after.frames[path[0]]);
    } else {
      OnPathMirrors(run.frames[path[0]].state.value, path[1..], leaf, k - 1);
      FrameBelow(after, prefix);
      assert prefix[1..] == path[1..][..k - 1];
    }
  }

  lemma FrameBelow(run: RunState, path: Path)
    requires |path| > 1 && Enters(run, path[0])
    ensures FrameAt(run, path) == FrameAt(run.frames[path[0]].state.value, path[1..])
  {
    assert path[..|path| - 1][1..] == path[1..][..|path| - 2];
  }

  // ---- The update as a program

  lemma {:induction false} GetSplit(run: RunState, path: Path, k: nat)
    requires k <= |path|
    ensures Get(run, path) == match Get(run, path[..k]) case None => None case Some(middle) => Get(middle, path[k..])
    decreases k
  {
    if k == 0 {
      assert path[..0] == [] && path[0..] == path;
    } else {
      assert path[..k][1..] == path[1..][..k - 1] && path[1..][k - 1..] == path[k..];
      if Enters(run, path[0]) {
        GetSplit(run.frames[path[0]].state.value, path[1..], k - 1);
      }
    }
  }

  /** The states above the leaf, from the root down: `ancestors[i]` is the state in which `path[i]` is looked up. */
  ghost predicate Ancestry(run: RunState, path: Path, ancestors: seq<RunState>) {
    |ancestors| <= |path| && forall i :: 0 <= i < |ancestors| ==> Get(run, path[..i]) == Some(ancestors[i])
  }

  /** The walk down the path. */
  method Descend(run: RunState, path: Path) returns (ok: bool, leaf: RunState, ancestors: seq<RunState>)
    ensures ok <==> Get(run, path).Some?
    ensures ok ==> Get(run, path) == Some(leaf) && |ancestors| == |path| && Ancestry(run, path, ancestors)
  {
    leaf, ancestors := run, [];
    for i := 0 to |path|
      invariant |ancestors| == i && Ancestry(run, path, ancestors) && Get(run, path[..i]) == Some(leaf)
    {
      GetSplit(run, path, i);
      GetSplit(run, path[..i + 1], i);
      assert path[..i + 1][..i] == path[..i] && path[..i + 1][i..] == [path[i]] && path[i..][0] == path[i];
      if !Enters(leaf, path[i]) {
        return false, leaf, ancestors;
      }
      ancestors := ancestors + [leaf];
      leaf := leaf.frames[path[i]].state.value;
    }
    assert path[..|path|] == path;
    ok := true;
  }

  /** The walk back up, rebuilding every frame on the path. */
  method Ascend(run: RunState, path: Path, ancestors: seq<RunState>, leaf: RunState) returns (root: RunState)
    requires Get(run, path).Some? && |ancestors| == |path| && Ancestry(run, path, ancestors)
    ensures root == Put(run, path, leaf)
  {
    root := leaf;
    var i := |path|;
    GetSplit(run, path, i);
    assert path[i..] == [];
    while i > 0
      invariant 0 <= i <= |path|
      invariant Get(run, path[..i]).Some? && Get(Get(run, path[..i]).value, path[i..]).Some?
      invariant root == Put(Get(run, path[..i]).value, path[i..], leaf)
    {
      i := i - 1;
      GetSplit(run, path, i);
      GetSplit(run, path[..i + 1], i);
      assert path[..i + 1][..i] == path[..i] && path[..i + 1][i..] == [path[i]];
      assert path[i..][0] == path[i] && path[i..][1..] == path[i + 1..];
      var parent := ancestors[i];
      root := parent.(frames := parent.frames[path[i] := Refresh(parent.frames[path[i]], root)]);
    }
    assert path[..0] == [] && path[0..] == path;
  }

  /** How a scoped mutation ends. */
  datatype Outcome =
    | Committed(leaf: RunState)
    | NotInitialized
    | PathInvalid
    | FrameInvalid
    | GuardRejected
    | MutationRaised
    | WriteFailed(reloaded: bool)
    | Died

  /** The candidate that a scoped mutation writes, once every check has passed. */
  predicate Candidate(run: RunState, workflowFile: string, path: Path, guard: RunState -> bool,
                      mutation: RunState -> Option<RunState>, candidate: RunState) {
    && workflowFile == run.workflowFile && path != [] && Get(run, path).Some?
    && guard(Get(run, path).value)
    && mutation(Get(run, path).value).Some?
    && candidate == Put(run, path, mutation(Get(run, path).value).value)
  }

  class StateManager {
    var memory: Option<RunState>
    const file: Store<RunState>

    constructor (file: Store<RunState>)
      requires file.Valid()
      ensures this.file == file && memory == None
    {
      this.file, memory := file, None;
    }

    /** The checks before the write, and the candidate. */
    method Propose(workflowFile: string, path: Path, guard: RunState -> bool, mutation: RunState -> Option<RunState>)
      returns (refusal: Outcome, leaf: RunState, candidate: RunState)
      requires memory.Some?
      ensures var run := memory.value;
              match refusal
              case PathInvalid => workflowFile != run.workflowFile || path == []
              case FrameInvalid => workflowFile == run.workflowFile && path != [] && Get(run, path) == None
              case GuardRejected =>
                workflowFile == run.workflowFile && path != [] && Get(run, path).Some? && !guard(Get(run, path).value)
              case MutationRaised =>
                && workflowFile == run.workflowFile && path != [] && Get(run, path).Some? && guard(Get(run, path).value)
                && mutation(Get(run, path).value) == None
              case Committed(_) =>
                Candidate(run, workflowFile, path, guard, mutation, candidate) && mutation(Get(run, path).value) == Some(leaf)
              case _ => false
    {
      var run := memory.value;
      leaf, candidate := run, run;
      if workflowFile != run.workflowFile || path == [] {
        return PathInvalid, run, run;
      }
      var ok, ancestors;
      ok, leaf, ancestors := Descend(run, path);
      if !ok {
        return FrameInvalid, run, run;
      }
      if !guard(leaf) {
        return GuardRejected, run, run;
      }
      var mutated := mutation(leaf);
      if mutated == None {
        return MutationRaised, run, run;
      }
      candidate := Ascend(run, path, ancestors, mutated.value);
      return Committed(mutated.value), mutated.value, candidate;
    }

    /** `_mutate_scoped_state`. A refusal before the write happens exactly when its check fails and changes nothing. A
        commit puts the mutated leaf at the path, in memory and on disk. A failed write leaves the disk alone unless an
        exception from outside struck after the rename, and memory as it was exactly when the reread gives the old memory
        back or, without a reread, the candidate equals it. */
    method MutateScopedState(workflowFile: string, path: Path, guard: RunState -> bool, mutation: RunState -> Option<RunState>,
                             temporary: string, faults: AtomicFile.Faults, readable: bool)
      returns (outcome: Outcome, ghost candidate: RunState)
      requires file.Valid() && temporary != file.path
      modifies this, file.directory
      ensures file.Valid()
      ensures outcome.NotInitialized? <==> old(memory) == None
      ensures outcome.PathInvalid? <==> old(memory).Some? && (workflowFile != old(memory).value.workflowFile || path == [])
      ensures outcome.FrameInvalid? <==>
                && old(memory).Some? && workflowFile == old(memory).value.workflowFile && path != []
                && Get(old(memory).value, path) == None
      ensures outcome.GuardRejected? <==>
                && old(memory).Some? && workflowFile == old(memory).value.workflowFile && path != []
                && Get(old(memory).value, path).Some? && !guard(Get(old(memory).value, path).value)
      ensures outcome.MutationRaised? <==>
                && old(memory).Some? && workflowFile == old(memory).value.workflowFile && path != []
                && Get(old(memory).value, path).Some? && guard(Get(old(memory).value, path).value)
                && mutation(Get(old(memory).value, path).value) == None
      ensures !Reached(outcome) ==> memory == old(memory) && file.Stored() == old(file.Stored())
      ensures Reached(outcome) ==>
                old(memory).Some? && Candidate(old(memory).value, workflowFile, path, guard, mutation, candidate)
      ensures outcome.Committed? ==>
                && memory == file.Stored() == Some(candidate)
                && mutation(Get(old(memory).value, path).value) == Some(outcome.leaf)
      ensures outcome.WriteFailed? && !faults.interrupted ==> file.Stored() == old(file.Stored())
      ensures outcome.WriteFailed? ==>
                && outcome.reloaded == (readable && file.Stored().Some?)
                && memory == (if outcome.reloaded then file.Stored() else Some(candidate))
      ensures outcome.WriteFailed? ==>
                (memory == old(memory) <==>
                   if outcome.reloaded then file.Stored() == old(memory) else candidate == old(memory).value)
      ensures outcome.Died? ==> memory == None && file.Stored() in [old(file.Stored()), Some(candidate)]
      ensures Reached(outcome) ==>
                var end := EndOf(old(file.directory.files), temporary, file.codec.encode(candidate), faults);
                && (outcome.Committed? <==> end == Finished) && (outcome.WriteFailed? <==> end.Failed?)
                && (file.Stored() == if OnDisk(end) then Some(candidate) else old(file.Stored()))
    {
      if memory == None {
        candidate := RunState("", "", None, "", map[]);
        return NotInitialized, candidate;
      }
      var refusal, leaf, root := Propose(workflowFile, path, guard, mutation);
      candidate := root;
      if !refusal.Committed? {
        return refusal, candidate;
      }
      memory := Some(root);
      var written, end := file.Write(root, temporary, faults);
      if written == AtomicFile.Died {
        memory := None;
        return Died, candidate;
      }
      if written == AtomicFile.Raised {
        var found := file.Read(readable);
        if found.Some? {
          memory := found;
        }
        return WriteFailed(found.Some?), candidate;
      }
      outcome := Committed(leaf);
    }
  }

  /** The call got as far as its write. */
  predicate Reached(outcome: Outcome) {
    outcome.Committed? || outcome.WriteFailed? || outcome.Died?
  }

  /** The candidate equals the old state, so that even a failed write without a reread changes nothing, exactly when the
      mutation leaves its leaf alone and no frame on the path is stale. */
  lemma CandidateUnchangedExactly(run: RunState, workflowFile: string, path: Path, guard: RunState -> bool,
                                  mutation: RunState -> Option<RunState>, candidate: RunState)
    requires Candidate(run, workflowFile, path, guard, mutation, candidate)
    ensures candidate == run <==> mutation(Get(run, path).value) == Get(run, path) && UpToDate(run, path)
  {
    GetPut(run, path, mutation(Get(run, path).value).value);
    PutGet(run, path);
  }

  /** A frame that reports "running" over a nested state that is "done". */
  function StaleRun(): RunState {
    RunState("w", "running", None, "", map["f" := Frame("f", Some(DoneRun()), "running", None, "")])
  }

  function DoneRun(): RunState {
    RunState("w", "done", None, "", map[])
  }

  /** Putting back the leaf of such a run changes the run. */
  lemma PutGetCanChange()
    ensures Get(StaleRun(), ["f"]) == Some(DoneRun()) && Put(StaleRun(), ["f"], DoneRun()) != StaleRun()
  {
    var run := StaleRun();
    assert ["f"][1..] == [] && Get(DoneRun(), []) == Some(DoneRun());
    assert Enters(run, "f") && !Mirrors(run.frames["f"]);
    PutGet(run, ["f"]);
  }

  /** A failed write that changes memory: the temporary file cannot be opened, there is no state file to reread, and the
      mutation leaves its leaf alone, yet memory holds another state than before. */
  method FailedWriteCanChangeMemory(codec: Codec<RunState>) returns (outcome: Outcome, before: RunState, after: Option<RunState>)
    requires Faithful(codec)
    ensures outcome == WriteFailed(false) && after.Some? && after.value != before
  {
    PutGetCanChange();
    var directory := new AtomicFile.Directory(map[]);
    var file := new Store(directory, "state.json", codec);
    var manager := new StateManager(file);
    before := StaleRun();
    manager.memory := Some(before);
    var faults := AtomicFile.Faults(AtomicFile.Raised, [], AtomicFile.Done, AtomicFile.Done, AtomicFile.Done, false,
                                    AtomicFile.Done, AtomicFile.Done);
    ghost var candidate;
    outcome, candidate := manager.MutateScopedState("w", ["f"], run => true, run => Some(run), "temporary", faults, true);
    after := manager.memory;
  }
}
