/** The one-shot protocol behind package preparation and live review slots: any number of processes,
    every interleaving of their file operations, and a crash at any point
    (orchestrator/experiments/_pilot_controller_state.py, orchestrator/experiments/_pilot_review_execution.py). */
module OneShot {
  import opened Text

  /** A file created exclusively; `Partial` is one whose writer has not finished, or died. */
  datatype File<T> = Absent | Partial | Full(value: T)

  /** Package preparation binds the result it returns; a review slot binds the files it finds, refuses a
      slot that holds other evidence, and then publishes a review. */
  datatype Protocol = Preparation | Review

  /** A completion names the intent it belongs to and the artifacts it binds. */
  datatype Record = Record(intent: string, bound: string)

  datatype Launch = Launch(process: nat, intent: string, made: string)

  /** Where a process stands; `mine` is the intent it computed from its own lock and attempt. */
  datatype Pc =
    | Checking(mine: string)
    | Fresh(mine: string)
    | Claiming(mine: string)
    | WritingIntent(mine: string)
    | Launching(mine: string)
    | Launched(mine: string, made: string)
    | Completing(mine: string, made: string, bound: string)
    | WritingCompletion(mine: string, made: string, bound: string)
    | Reading(mine: string)
    | Matching(mine: string)
    | Loading(mine: string)
    | Finished(mine: string, result: string, replayed: bool)
    | Published(mine: string, result: string)
    | Stopped

  datatype State = State(
    protocol: Protocol,
    intent: File<string>,
    artifact: Option<string>,
    completion: File<Record>,
    review: File<string>,
    processes: map<nat, Pc>,
    launches: seq<Launch>,
    publications: seq<string>)

  datatype Action =
    | Spawn(process: nat, mine: string)
    /** The next file operation of the process; `made` is what a launch would leave behind. */
    | Advance(process: nat, made: string)
    /** A crash, or any failed validation. */
    | Stop(process: nat)
    /** Someone else changes the artifact files. */
    | Tamper(artifact: Option<string>)

  function Initial(protocol: Protocol): State {
    State(protocol, Absent, None, Absent, Absent, map[], [], [])
  }

  function At(s: State, p: nat, pc: Pc): State {
    s.(processes := s.processes[p := pc])
  }

  function Step(s: State, action: Action): State {
    match action
    case Spawn(p, mine) => if p in s.processes then s else At(s, p, Checking(mine))
    case Advance(p, made) => if p in s.processes then Move(s, p, s.processes[p], made) else s
    case Stop(p) => if p in s.processes then At(s, p, Stopped) else s
    case Tamper(artifact) => s.(artifact := artifact)
  }

  function Move(s: State, p: nat, pc: Pc, made: string): State {
    match pc
    case Checking(mine) => At(s, p, if s.intent.Absent? then Fresh(mine) else Reading(mine))
    case Fresh(mine) =>
      var dirty := s.protocol == Review && (s.artifact.Some? || !s.review.Absent?);
      At(s, p, if s.completion.Absent? && !dirty then Claiming(mine) else Stopped)
    case Claiming(mine) => if s.intent.Absent? then At(s, p, WritingIntent(mine)).(intent := Partial) else At(s, p, Stopped)
    case WritingIntent(mine) => At(s, p, Launching(mine)).(intent := Full(mine))
    case Launching(mine) =>
      At(s, p, Launched(mine, made)).(launches := s.launches + [Launch(p, mine, made)], artifact := Some(made))
    case Launched(mine, result) =>
      At(s, p, match s.artifact
               case Some(found) =>
                 if s.protocol == Preparation && found != result then Stopped else Completing(mine, result, found)
               case None => Stopped)
    case Completing(mine, result, bound) =>
      if s.completion.Absent? then At(s, p, WritingCompletion(mine, result, bound)).(completion := Partial)
      else At(s, p, Stopped)
    case WritingCompletion(mine, result, bound) =>
      At(s, p, Finished(mine, result, false)).(completion := Full(Record(mine, bound)))
    case Reading(mine) => At(s, p, if s.intent == Full(mine) then Matching(mine) else Stopped)
    case Matching(mine) =>
      At(s, p, if s.completion.Absent? || (s.protocol == Review && !s.review.Absent?) then Stopped else Loading(mine))
    case Loading(mine) =>
      At(s, p, match s.completion
               case Full(record) =>
                 if record.intent == mine && s.artifact == Some(record.bound) then Finished(mine, record.bound, true) else Stopped
               case _ => Stopped)
    case Finished(mine, result, replayed) =>
      if s.protocol == Preparation then s
      else if s.review.Absent? then
        At(s, p, Published(mine, result)).(review := Full(result), publications := s.publications + [result])
      else At(s, p, Stopped)
    case Published(_, _) => s
    case Stopped => s
  }

  function Run(s: State, trace: seq<Action>): State
    decreases |trace|
  {
    if trace == [] then s else Run(Step(s, trace[0]), trace[1..])
  }

  // ---- The invariant

  /** The process has created the intent and not yet finished. */
  predicate Owns(pc: Pc) {
    pc.WritingIntent? || pc.Launching? || pc.Launched? || pc.Completing? || pc.WritingCompletion?
  }

  predicate LaunchedBy(s: State, p: nat, mine: string, made: string) {
    s.launches == [Launch(p, mine, made)] && s.intent == Full(mine)
  }

  /** What holds of a process, given the files. */
  predicate PcOk(s: State, p: nat, pc: Pc) {
    match pc
    case WritingIntent(mine) => s.intent == Partial && s.launches == [] && s.completion == Absent
    case Launching(mine) => s.intent == Full(mine) && s.launches == [] && s.completion == Absent
    case Launched(mine, made) => LaunchedBy(s, p, mine, made) && s.completion == Absent
    case Completing(mine, made, bound) =>
      LaunchedBy(s, p, mine, made) && s.completion == Absent && (s.protocol == Preparation ==> bound == made)
    case WritingCompletion(mine, made, bound) =>
      LaunchedBy(s, p, mine, made) && s.completion == Partial && (s.protocol == Preparation ==> bound == made)
    case Finished(mine, result, replayed) => ResultOk(s, p, mine, result, replayed)
    case Published(mine, result) =>
      s.review == Full(result) && (ResultOk(s, p, mine, result, true) || ResultOk(s, p, mine, result, false))
    case _ => true
  }

  /** A result belongs to the one launch: made by this process, or read from the completion. */
  predicate ResultOk(s: State, p: nat, mine: string, result: string, replayed: bool) {
    && s.completion.Full?
    && |s.launches| == 1
    && s.launches[0].intent == mine
    && (if replayed then result == s.completion.value.bound && p != s.launches[0].process
        else result == s.launches[0].made && p == s.launches[0].process)
  }

  predicate FilesOk(s: State) {
    && |s.launches| <= 1
    && (s.completion != Absent ==> s.launches != [])
    && (s.launches != [] ==> s.intent == Full(s.launches[0].intent))
    && (s.completion.Full? ==>
          && s.completion.value.intent == s.launches[0].intent
          && (s.protocol == Preparation ==> s.completion.value.bound == s.launches[0].made))
    && (if s.review.Full? then s.publications == [s.review.value] else s.publications == [])
    && s.review != Partial
  }

  predicate Invariant(s: State) {
    && FilesOk(s)
    && (forall p :: p in s.processes ==> PcOk(s, p, s.processes[p]))
    && (forall p, q :: p in s.processes && q in s.processes && Owns(s.processes[p]) && Owns(s.processes[q]) ==> p == q)
    && (s.intent == Absent ==> forall p :: p in s.processes ==> !Owns(s.processes[p]))
    && (s.completion.Full? ==> forall p :: p in s.processes ==> !Owns(s.processes[p]))
    && (s.launches != [] ==> s.launches[0].process in s.processes && !Waiting(s.processes[s.launches[0].process]))
  }

  /** The process has not yet claimed the slot and may be resuming it. */
  predicate Waiting(pc: Pc) {
    pc.Checking? || pc.Fresh? || pc.Claiming? || pc.Reading? || pc.Matching? || pc.Loading?
    || pc.WritingIntent? || pc.Launching?
  }

  /** A process that only changes its own position. */
  lemma MovedOnly(s: State, p: nat, pc: Pc)
    requires Invariant(s) && PcOk(s, p, pc)
    requires p in s.processes ==> (Owns(pc) ==> Owns(s.processes[p])) && (Waiting(pc) ==> Waiting(s.processes[p]))
    requires p !in s.processes ==> !Owns(pc)
    ensures Invariant(At(s, p, pc))
  {
    var t := At(s, p, pc);
    forall q | q in t.processes
      ensures PcOk(t, q, t.processes[q])
    {
      if q != p {
        assert PcOk(s, q, s.processes[q]);
      }
    }
  }

  /** The owner changes files in a way that leaves the positions of the others in order. */
  lemma OwnerMoved(s: State, t: State, p: nat, pc: Pc)
    requires Invariant(s) && FilesOk(t) && PcOk(t, p, pc) && t.processes == s.processes[p := pc]
    requires forall q :: q in s.processes && q != p ==> !Owns(s.processes[q])
    requires forall q :: q in s.processes && q != p && PcOk(s, q, s.processes[q]) && !Owns(s.processes[q]) ==>
               PcOk(t, q, s.processes[q])
    requires t.intent == Absent || t.completion.Full? ==> !Owns(pc)
    requires t.launches != [] ==> if t.launches[0].process == p then !Waiting(pc) else t.launches == s.launches
    ensures Invariant(t)
  {
    forall q | q in t.processes
      ensures PcOk(t, q, t.processes[q])
    {
      if q != p {
        assert PcOk(s, q, s.processes[q]);
      }
    }
  }

  lemma ClaimKeeps(s: State, p: nat, made: string)
    requires Invariant(s) && p in s.processes && s.processes[p].Claiming?
    ensures Invariant(Move(s, p, s.processes[p], made))
  {
    if s.intent.Absent? {
      OwnerMoved(s, Move(s, p, s.processes[p], made), p, WritingIntent(s.processes[p].mine));
    } else {
      MovedOnly(s, p, Stopped);
    }
  }

  lemma IntentKeeps(s: State, p: nat, made: string)
    requires Invariant(s) && p in s.processes && s.processes[p].WritingIntent?
    ensures Invariant(Move(s, p, s.processes[p], made))
  {
    assert PcOk(s, p, s.processes[p]);
    OwnerMoved(s, Move(s, p, s.processes[p], made), p, Launching(s.processes[p].mine));
  }

  lemma LaunchKeeps(s: State, p: nat, made: string)
    requires Invariant(s) && p in s.processes && s.processes[p].Launching?
    ensures Invariant(Move(s, p, s.processes[p], made))
  {
    assert PcOk(s, p, s.processes[p]);
    OwnerMoved(s, Move(s, p, s.processes[p], made), p, Launched(s.processes[p].mine, made));
  }

  lemma CompletionKeeps(s: State, p: nat, made: string)
    requires Invariant(s) && p in s.processes
    requires s.processes[p].Completing? || s.processes[p].WritingCompletion?
    ensures Invariant(Move(s, p, s.processes[p], made))
  {
    var pc := s.processes[p];
    assert PcOk(s, p, pc);
    var t := Move(s, p, pc, made);
    OwnerMoved(s, t, p, t.processes[p]);
  }

  lemma PublishKeeps(s: State, p: nat, made: string)
    requires Invariant(s) && p in s.processes && s.processes[p].Finished?
    ensures Invariant(Move(s, p, s.processes[p], made))
  {
    var pc := s.processes[p];
    assert PcOk(s, p, pc);
    if s.protocol == Review {
      if s.review.Absent? {
        PublishedInvariant(s, p, Move(s, p, pc, made));
      } else {
        MovedOnly(s, p, Stopped);
      }
    }
  }

  lemma PublishedInvariant(s: State, p: nat, t: State)
    requires Invariant(s) && p in s.processes && s.processes[p].Finished? && s.review.Absent?
    requires t == At(s, p, Published(s.processes[p].mine, s.processes[p].result))
                  .(review := Full(s.processes[p].result), publications := s.publications + [s.processes[p].result])
    ensures Invariant(t)
  {
    var pc := s.processes[p];
    assert ResultOk(t, p, pc.mine, pc.result, pc.replayed) by {
      assert PcOk(s, p, pc);
    }
    forall q | q in t.processes && q != p
      ensures PcOk(t, q, t.processes[q])
    {
      assert PcOk(s, q, s.processes[q]);
    }
  }

  lemma MoveKeepsInvariant(s: State, p: nat, made: string)
    requires Invariant(s) && p in s.processes
    ensures Invariant(Move(s, p, s.processes[p], made))
  {
    match s.processes[p]
    case Claiming(_) => ClaimKeeps(s, p, made);
    case WritingIntent(_) => IntentKeeps(s, p, made);
    case Launching(_) => LaunchKeeps(s, p, made);
    case Completing(_, _, _) => CompletionKeeps(s, p, made);
    case WritingCompletion(_, _, _) => CompletionKeeps(s, p, made);
    case Finished(_, _, _) => PublishKeeps(s, p, made);
    case Loading(_) => LoadKeeps(s, p, made);
    case Published(_, _) =>
    case Stopped =>
    case _ =>
      assert PcOk(s, p, s.processes[p]);
      MovedOnly(s, p, Move(s, p, s.processes[p], made).processes[p]);
  }

  lemma LoadKeeps(s: State, p: nat, made: string)
    requires Invariant(s) && p in s.processes && s.processes[p].Loading?
    ensures Invariant(Move(s, p, s.processes[p], made))
  {
    MovedOnly(s, p, Move(s, p, s.processes[p], made).processes[p]);
  }

  lemma TamperKeeps(s: State, artifact: Option<string>)
    requires Invariant(s)
    ensures Invariant(s.(artifact := artifact))
  {
    var t := s.(artifact := artifact);
    forall q | q in t.processes
      ensures PcOk(t, q, t.processes[q])
    {
      assert PcOk(s, q, s.processes[q]);
    }
  }

  lemma StepKeepsInvariant(s: State, action: Action)
    requires Invariant(s)
    ensures Invariant(Step(s, action))
  {
    match action
    case Spawn(p, mine) =>
      if p !in s.processes {
        MovedOnly(s, p, Checking(mine));
      }
    case Advance(p, made) =>
      if p in s.processes {
        MoveKeepsInvariant(s, p, made);
      }
    case Stop(p) =>
      if p in s.processes {
        MovedOnly(s, p, Stopped);
      }
    case Tamper(artifact) => TamperKeeps(s, artifact);
  }

  lemma {:induction false} RunKeepsInvariant(s: State, trace: seq<Action>)
    requires Invariant(s)
    ensures Invariant(Run(s, trace))
    decreases |trace|
  {
    if trace != [] {
      StepKeepsInvariant(s, trace[0]);
      RunKeepsInvariant(Step(s, trace[0]), trace[1..]);
    }
  }

  // ---- What every run satisfies

  /** The process has a result. */
  predicate HasResult(pc: Pc) {
    pc.Finished? || pc.Published?
  }

  /** Over all interleavings and crashes: at most one launch and at most one published review. */
  lemma AtMostOnce(protocol: Protocol, trace: seq<Action>)
    ensures var s := Run(Initial(protocol), trace);
            |s.launches| <= 1 && |s.publications| <= 1 && (s.review.Full? <==> |s.publications| == 1)
  {
    RunKeepsInvariant(Initial(protocol), trace);
  }

  /** Every result belongs to the one launch, under the intent that is on file, with its completion fully written;
      in package preparation it is exactly what that launch returned, even if files were changed in between. */
  lemma ResultsBelongToTheLaunch(protocol: Protocol, trace: seq<Action>, p: nat)
    requires var s := Run(Initial(protocol), trace); p in s.processes && HasResult(s.processes[p])
    ensures var s := Run(Initial(protocol), trace);
            && |s.launches| == 1
            && s.intent == Full(s.processes[p].mine)
            && s.launches[0].intent == s.processes[p].mine
            && s.completion.Full? && s.completion.value.intent == s.processes[p].mine
            && s.processes[p].result in {s.launches[0].made, s.completion.value.bound}
            && (protocol == Preparation ==> s.processes[p].result == s.launches[0].made)
  {
    RunKeepsInvariant(Initial(protocol), trace);
    var s := Run(Initial(protocol), trace);
    assert PcOk(s, p, s.processes[p]);
    ProtocolFixed(Initial(protocol), trace);
  }

  lemma {:induction false} ProtocolFixed(s: State, trace: seq<Action>)
    ensures Run(s, trace).protocol == s.protocol
    decreases |trace|
  {
    if trace != [] {
      ProtocolFixed(Step(s, trace[0]), trace[1..]);
    }
  }

  // ---- A process that found the intent

  /** The process found the intent on file and has not yet decided what to do. */
  predicate Resuming(pc: Pc) {
    pc.Reading? || pc.Matching? || pc.Loading?
  }

  /** Where a process can be after it found the intent: a result it has was replayed. */
  predicate Resumed(pc: Pc) {
    Resuming(pc) || (pc.Finished? && pc.replayed) || pc.Published? || pc.Stopped?
  }

  predicate NeverLaunched(s: State, p: nat) {
    forall i :: 0 <= i < |s.launches| ==> s.launches[i].process != p
  }

  /** What the others do leaves a process where it is, and launches only on their own account. */
  lemma OthersLeaveIt(s: State, action: Action, p: nat)
    requires p in s.processes && (action.Tamper? || action.process != p)
    ensures var t := Step(s, action);
            && p in t.processes && t.processes[p] == s.processes[p]
            && (NeverLaunched(s, p) ==> NeverLaunched(t, p))
  {
    if action.Advance? && action.process in s.processes && s.processes[action.process].Launching? {
      var l := Launch(action.process, s.processes[action.process].mine, action.made);
      assert Step(s, action).launches == s.launches + [l];
    }
  }

  lemma StepKeepsResumed(s: State, action: Action, p: nat)
    requires p in s.processes && Resumed(s.processes[p]) && NeverLaunched(s, p)
    ensures var t := Step(s, action);
            && p in t.processes && Resumed(t.processes[p]) && NeverLaunched(t, p)
            && (!t.processes[p].Stopped? ==> !s.processes[p].Stopped? && t.processes[p].mine == s.processes[p].mine)
  {
    if action.Tamper? || action.process != p {
      OthersLeaveIt(s, action, p);
    } else if action.Advance? {
      assert Step(s, action) == Move(s, p, s.processes[p], action.made);
      assert Move(s, p, s.processes[p], action.made).launches == s.launches;
    }
  }

  lemma {:induction false} RunKeepsResumed(s: State, trace: seq<Action>, p: nat)
    requires p in s.processes && Resumed(s.processes[p]) && NeverLaunched(s, p)
    ensures var t := Run(s, trace);
            && p in t.processes && Resumed(t.processes[p]) && NeverLaunched(t, p)
            && (!t.processes[p].Stopped? ==> !s.processes[p].Stopped? && t.processes[p].mine == s.processes[p].mine)
    decreases |trace|
  {
    if trace != [] {
      StepKeepsResumed(s, trace[0], p);
      RunKeepsResumed(Step(s, trace[0]), trace[1..], p);
    }
  }

  /** Once a process has found the intent it never launches, in any continuation: it is still reading, has replayed a
      result under its own intent, or has stopped. */
  lemma ResumedNeverLaunches(protocol: Protocol, before: seq<Action>, after: seq<Action>, p: nat)
    requires var s := Run(Initial(protocol), before); p in s.processes && Resuming(s.processes[p])
    ensures var s := Run(Initial(protocol), before);
            var t := Run(s, after);
            && p in t.processes && NeverLaunched(t, p)
            && (Resuming(t.processes[p]) || (t.processes[p].Finished? && t.processes[p].replayed)
                || t.processes[p].Published? || t.processes[p].Stopped?)
            && (!t.processes[p].Stopped? ==> t.processes[p].mine == s.processes[p].mine)
  {
    RunKeepsInvariant(Initial(protocol), before);
    RunKeepsResumed(Run(Initial(protocol), before), after, p);
  }

  /** At this moment the completion is whole, matches the intent `mine` on file, and binds the artifacts on disk. */
  predicate FullMatch(s: State, mine: string, result: string) {
    s.intent == Full(mine) && s.completion == Full(Record(mine, result)) && s.artifact == Some(result)
  }

  /** One step of a resuming process: it goes on, stops, or replays at a full match. */
  lemma ResumingStep(s: State, action: Action, p: nat)
    requires Invariant(s) && p in s.processes && Resuming(s.processes[p])
    ensures var t := Step(s, action);
            && p in t.processes
            && (Resuming(t.processes[p]) || HasResult(t.processes[p]) || t.processes[p].Stopped?)
            && (Resuming(t.processes[p]) ==> t.processes[p].mine == s.processes[p].mine)
            && (HasResult(t.processes[p]) ==>
                  && action.Advance? && action.process == p
                  && FullMatch(s, s.processes[p].mine, t.processes[p].result))
  {
    if action.Tamper? || action.process != p {
      OthersLeaveIt(s, action, p);
    } else if action.Advance? {
      ResumingMove(s, p, action.made);
    }
  }

  lemma ResumingMove(s: State, p: nat, made: string)
    requires Invariant(s) && p in s.processes && Resuming(s.processes[p])
    ensures var pc := Step(s, Advance(p, made)).processes[p];
            && (Resuming(pc) || HasResult(pc) || pc.Stopped?)
            && (Resuming(pc) ==> pc.mine == s.processes[p].mine)
            && (HasResult(pc) ==> FullMatch(s, s.processes[p].mine, pc.result))
  {
  }

  lemma RunUnfolds(s: State, trace: seq<Action>, j: nat)
    requires j < |trace|
    ensures Run(s, trace[..j + 1]) == Run(Step(s, trace[0]), trace[1..][..j])
  {
    assert trace[..j + 1][1..] == trace[1..][..j];
  }

  lemma {:induction false} ReplayFrom(s: State, trace: seq<Action>, p: nat) returns (k: nat)
    requires Invariant(s) && p in s.processes && Resuming(s.processes[p])
    requires p in Run(s, trace).processes && HasResult(Run(s, trace).processes[p])
    ensures k < |trace| && trace[k].Advance? && trace[k].process == p
    ensures FullMatch(Run(s, trace[..k]), s.processes[p].mine, Run(s, trace).processes[p].result)
    decreases |trace|
  {
    var t := Step(s, trace[0]);
    ResumingStep(s, trace[0], p);
    if Resuming(t.processes[p]) {
      StepKeepsInvariant(s, trace[0]);
      var j := ReplayFrom(t, trace[1..], p);
      RunUnfolds(s, trace, j);
      k := j + 1;
    } else {
      ResultKept(t, trace[1..], p);
      k := 0;
    }
  }

  /** A result does not change any more, and a stopped process has none. */
  lemma {:induction false} ResultKept(s: State, trace: seq<Action>, p: nat)
    requires p in s.processes && (HasResult(s.processes[p]) || s.processes[p].Stopped?)
    ensures var t := Run(s, trace);
            && p in t.processes
            && (HasResult(t.processes[p]) ==> HasResult(s.processes[p]) && t.processes[p].result == s.processes[p].result)
            && (HasResult(t.processes[p]) || t.processes[p].Stopped?)
    decreases |trace|
  {
    if trace != [] {
      ResultKept(Step(s, trace[0]), trace[1..], p);
    }
  }

  /** A resumed process that has a result, in any run, got it at a moment at which the completion was whole and matched
      its own intent, the intent on file and the artifacts on disk. */
  lemma ReplayNeedsFullMatch(protocol: Protocol, before: seq<Action>, after: seq<Action>, p: nat) returns (k: nat)
    requires var s := Run(Initial(protocol), before);
             && p in s.processes && Resuming(s.processes[p])
             && p in Run(s, after).processes && HasResult(Run(s, after).processes[p])
    ensures var s := Run(Initial(protocol), before);
            && k < |after| && after[k].Advance? && after[k].process == p
            && FullMatch(Run(s, after[..k]), s.processes[p].mine, Run(s, after).processes[p].result)
  {
    RunKeepsInvariant(Initial(protocol), before);
    k := ReplayFrom(Run(Initial(protocol), before), after, p);
  }

  /** What a process finds when it loads decides for good: without a full match it never has a result, in any
      continuation; at a full match it has the bound result from then on, unless it stops. */
  lemma LoadingDecides(protocol: Protocol, before: seq<Action>, made: string, after: seq<Action>, p: nat)
    requires var s := Run(Initial(protocol), before); p in s.processes && s.processes[p].Loading?
    ensures var s := Run(Initial(protocol), before);
            var t := Run(Step(s, Advance(p, made)), after);
            && p in t.processes && (HasResult(t.processes[p]) || t.processes[p].Stopped?)
            && (HasResult(t.processes[p]) ==> FullMatch(s, s.processes[p].mine, t.processes[p].result))
            && ((s.completion.Full? && FullMatch(s, s.processes[p].mine, s.completion.value.bound) && protocol == Preparation
                 && (forall i :: 0 <= i < |after| ==> after[i] != Stop(p))) ==> HasResult(t.processes[p]))
  {
    RunKeepsInvariant(Initial(protocol), before);
    ProtocolFixed(Initial(protocol), before);
    var s := Run(Initial(protocol), before);
    ResumingMove(s, p, made);
    ResultKept(Step(s, Advance(p, made)), after, p);
    if HasResult(Step(s, Advance(p, made)).processes[p]) && protocol == Preparation && forall i :: 0 <= i < |after| ==> after[i] != Stop(p) {
      ResultStays(Step(s, Advance(p, made)), after, p);
    }
  }

  /** A process of a preparation that has a result keeps it until it is stopped. */
  lemma {:induction false} ResultStays(s: State, trace: seq<Action>, p: nat)
    requires s.protocol == Preparation && p in s.processes && HasResult(s.processes[p])
    requires forall i :: 0 <= i < |trace| ==> trace[i] != Stop(p)
    ensures p in Run(s, trace).processes && HasResult(Run(s, trace).processes[p])
    decreases |trace|
  {
    if trace != [] {
      assert trace[0] != Stop(p);
      ResultStays(Step(s, trace[0]), trace[1..], p);
    }
  }

  // ---- Without tampering

  predicate Untampered(trace: seq<Action>) {
    forall i :: 0 <= i < |trace| ==> !trace[i].Tamper?
  }

  /** The artifacts are those of the launch, and so is everything bound to them. */
  predicate Intact(s: State) {
    && (s.launches != [] ==> s.artifact == Some(s.launches[0].made))
    && (s.completion.Full? && s.launches != [] ==> s.completion.value.bound == s.launches[0].made)
    && (forall p :: p in s.processes && s.launches != [] && (s.processes[p].Completing? || s.processes[p].WritingCompletion?) ==>
          s.processes[p].bound == s.launches[0].made)
  }

  lemma StepKeepsIntact(s: State, action: Action)
    requires Invariant(s) && Intact(s) && !action.Tamper?
    ensures Intact(Step(s, action))
  {
    if action.Advance? && action.process in s.processes {
      var p := action.process;
      assert PcOk(s, p, s.processes[p]);
      var t := Step(s, action);
      forall q | q in t.processes && t.launches != [] && (t.processes[q].Completing? || t.processes[q].WritingCompletion?)
        ensures t.processes[q].bound == t.launches[0].made
      {
        if q != p {
          assert PcOk(s, q, s.processes[q]);
        }
      }
    }
  }

  lemma {:induction false} RunKeepsIntact(s: State, trace: seq<Action>)
    requires Invariant(s) && Intact(s) && Untampered(trace)
    ensures Invariant(Run(s, trace)) && Intact(Run(s, trace))
    decreases |trace|
  {
    if trace != [] {
      StepKeepsInvariant(s, trace[0]);
      StepKeepsIntact(s, trace[0]);
      RunKeepsIntact(Step(s, trace[0]), trace[1..]);
    }
  }

  /** While nobody else touches the artifacts, all results of a slot are the one result of its launch. */
  lemma ResultsAgree(protocol: Protocol, trace: seq<Action>, p: nat, q: nat)
    requires Untampered(trace)
    requires var s := Run(Initial(protocol), trace);
             p in s.processes && q in s.processes && HasResult(s.processes[p]) && HasResult(s.processes[q])
    ensures var s := Run(Initial(protocol), trace);
            && |s.launches| == 1
            && s.processes[p].result == s.processes[q].result == s.launches[0].made
            && s.processes[p].mine == s.processes[q].mine == s.launches[0].intent
  {
    RunKeepsIntact(Initial(protocol), trace);
    ResultsBelongToTheLaunch(protocol, trace, p);
    ResultsBelongToTheLaunch(protocol, trace, q);
  }

  // ---- A slot whose owner died

  /** The slot was claimed, its completion is not there, and nobody is left to write it. */
  predicate Abandoned(s: State) {
    !s.intent.Absent? && !s.completion.Full? && forall p :: p in s.processes ==> !Owns(s.processes[p]) && !HasResult(s.processes[p])
  }

  /** An abandoned slot stays unfinished in every continuation: nothing is launched and nobody gets a result. */
  lemma {:induction false} AbandonedForever(s: State, trace: seq<Action>)
    requires Invariant(s) && Abandoned(s)
    ensures Abandoned(Run(s, trace)) && Run(s, trace).launches == s.launches
    decreases |trace|
  {
    if trace != [] {
      StepKeepsInvariant(s, trace[0]);
      var t := Step(s, trace[0]);
      assert Abandoned(t) && t.launches == s.launches by {
        if trace[0].Advance? && trace[0].process in s.processes {
          assert PcOk(s, trace[0].process, s.processes[trace[0].process]);
        }
      }
      AbandonedForever(t, trace[1..]);
    }
  }

  // ---- Many slots side by side

  /** A slot on its own directory: the preparation of a block, or one review of it. */
  datatype SlotId = PreparationOf(block: string) | ReviewOf(block: string, reviewer: string)

  function ProtocolOf(id: SlotId): Protocol {
    if id.PreparationOf? then Preparation else Review
  }

  type Slots = map<SlotId, State>

  function SlotState(slots: Slots, id: SlotId): State {
    if id in slots then slots[id] else Initial(ProtocolOf(id))
  }

  /** Processes act on the slots in any order. */
  function RunSlots(slots: Slots, trace: seq<(SlotId, Action)>): Slots
    decreases |trace|
  {
    if trace == [] then slots
    else
      var (id, action) := trace[0];
      RunSlots(slots[id := Step(SlotState(slots, id), action)], trace[1..])
  }

  /** What one slot sees of a trace. */
  function Seen(trace: seq<(SlotId, Action)>, id: SlotId): seq<Action> {
    if trace == [] then [] else (if trace[0].0 == id then [trace[0].1] else []) + Seen(trace[1..], id)
  }

  /** The slots do not interact: each runs the actions meant for it. */
  lemma {:induction false} SlotsRunApart(slots: Slots, trace: seq<(SlotId, Action)>, id: SlotId)
    ensures SlotState(RunSlots(slots, trace), id) == Run(SlotState(slots, id), Seen(trace, id))
    decreases |trace|
  {
    if trace != [] {
      var (other, action) := trace[0];
      var next := slots[other := Step(SlotState(slots, other), action)];
      SlotsRunApart(next, trace[1..], id);
      var seen := Seen(trace[1..], id);
      if other == id {
        assert Seen(trace, id) == [action] + seen && ([action] + seen)[1..] == seen;
      } else {
        assert Seen(trace, id) == seen;
      }
    }
  }

  /** Every block is prepared at most once, and every review slot launches and publishes at most once. */
  lemma AtMostOncePerSlot(trace: seq<(SlotId, Action)>, id: SlotId)
    ensures var s := SlotState(RunSlots(map[], trace), id);
            |s.launches| <= 1 && |s.publications| <= 1
  {
    SlotsRunApart(map[], trace, id);
    AtMostOnce(ProtocolOf(id), Seen(trace, id));
  }

  // ---- What an undisturbed slot does

  /** `n` steps of one process in a row. */
  function Steps(s: State, p: nat, made: string, n: nat): State {
    if n == 0 then s else Step(Steps(s, p, made, n - 1), Advance(p, made))
  }

  lemma {:induction false} StepsAreARun(s: State, p: nat, made: string, n: nat)
    ensures Steps(s, p, made, n) == Run(s, seq(n, _ => Advance(p, made)))
  {
    if n > 0 {
      StepsAreARun(s, p, made, n - 1);
      var go := Advance(p, made);
      assert seq(n, _ => go) == seq(n - 1, _ => go) + [go];
      RunConcat(s, seq(n - 1, _ => go), [go]);
    }
  }

  lemma {:induction false} RunConcat(s: State, a: seq<Action>, b: seq<Action>)
    ensures Run(s, a + b) == Run(Run(s, a), b)
    decreases |a|
  {
    if a == [] {
      assert a + b == b;
    } else {
      assert (a + b)[0] == a[0] && (a + b)[1..] == a[1..] + b;
      RunConcat(Step(s, a[0]), a[1..], b);
    }
  }

  /** Nothing has happened in the slot yet. */
  predicate Untouched(s: State) {
    s.intent == Absent && s.artifact == None && s.completion == Absent && s.review == Absent && s.launches == [] && s.publications == []
  }

  /** A process that has an untouched slot to itself claims it and launches within five steps. */
  lemma LoneProcessLaunches(s: State, p: nat, mine: string, made: string)
    requires Untouched(s) && p in s.processes && s.processes[p] == Checking(mine)
    ensures var t := Steps(s, p, made, 5);
            && p in t.processes && t.processes[p] == Launched(mine, made) && t.launches == [Launch(p, mine, made)]
            && t.intent == Full(mine) && t.artifact == Some(made) && t.completion == Absent && t.review == Absent
            && t.publications == [] && t.protocol == s.protocol
  {
    var s1 := Steps(s, p, made, 1);
    assert Steps(s, p, made, 0) == s && s1.processes[p] == Fresh(mine) && Untouched(s1);
    var s2 := Steps(s, p, made, 2);
    assert s2.processes[p] == Claiming(mine) && Untouched(s2);
    var s3 := Steps(s, p, made, 3);
    assert s3.processes[p] == WritingIntent(mine) && s3.intent == Partial;
    var s4 := Steps(s, p, made, 4);
    assert s4.processes[p] == Launching(mine) && s4.intent == Full(mine);
  }

  /** Having launched, it binds the result and finishes within three more, and a review is published with one more. */
  lemma LaunchedProcessFinishes(s: State, p: nat, mine: string, made: string)
    requires p in s.processes && s.processes[p] == Launched(mine, made) && s.artifact == Some(made) && s.completion == Absent
    ensures Steps(s, p, made, 3) == At(s, p, Finished(mine, made, false)).(completion := Full(Record(mine, made)))
  {
    var s1 := Steps(s, p, made, 1);
    assert Steps(s, p, made, 0) == s && s1 == At(s, p, Completing(mine, made, made));
    var s2 := Steps(s, p, made, 2);
    assert s2.processes[p] == WritingCompletion(mine, made, made);
    assert s2 == At(s, p, WritingCompletion(mine, made, made)).(completion := Partial);
  }

  lemma FinishedReviewPublishes(s: State, p: nat, mine: string, result: string, replayed: bool, made: string)
    requires s.protocol == Review && p in s.processes && s.processes[p] == Finished(mine, result, replayed) && s.review == Absent
    ensures var t := Step(s, Advance(p, made));
            p in t.processes && t.processes[p] == Published(mine, result) && t.review == Full(result)
  {
  }

  /** A second process with the same intent replays a completed slot within four steps. */
  lemma SecondProcessReplays(s: State, q: nat, mine: string, made: string, other: string)
    requires FullMatch(s, mine, made) && s.review == Absent
    requires q in s.processes && s.processes[q] == Checking(mine)
    ensures Steps(s, q, other, 4) == At(s, q, Finished(mine, made, true))
  {
    var s1 := Steps(s, q, other, 1);
    assert Steps(s, q, other, 0) == s && s1 == At(s, q, Reading(mine));
    var s2 := Steps(s, q, other, 2);
    assert s2 == At(s, q, Matching(mine));
    var s3 := Steps(s, q, other, 3);
    assert s3 == At(s, q, Loading(mine));
  }

  lemma LaunchIsFinished(launched: State, p: nat, mine: string, made: string, s: State)
    requires p in launched.processes && launched.processes[p] == Launched(mine, made) && s == Steps(launched, p, made, 3)
    requires launched.intent == Full(mine) && launched.artifact == Some(made) && launched.completion == Absent
    ensures p in s.processes && s.processes[p] == Finished(mine, made, false) && FullMatch(s, mine, made)
    ensures s.review == launched.review && s.launches == launched.launches && s.protocol == launched.protocol
  {
    LaunchedProcessFinishes(launched, p, mine, made);
  }

  lemma FirstProcess(protocol: Protocol, p: nat, mine: string, made: string) returns (s: State)
    ensures s == Steps(Step(Initial(protocol), Spawn(p, mine)), p, made, 8)
    ensures s.processes.Keys == {p} && s.processes[p] == Finished(mine, made, false) && s.protocol == protocol
    ensures FullMatch(s, mine, made) && s.review == Absent && s.launches == [Launch(p, mine, made)]
  {
    var start := Step(Initial(protocol), Spawn(p, mine));
    LoneProcessLaunches(start, p, mine, made);
    StepsAdd(start, p, made, 5, 3);
    OnlyProcess(start, p, made, 8);
    s := Steps(start, p, made, 8);
    LaunchIsFinished(Steps(start, p, made, 5), p, mine, made, s);
  }

  /** An undisturbed slot: the first process launches once and gets its result; after it, a second process with the same
      intent gets the same result without launching; and in a review slot whichever is left publishes it. */
  lemma UndisturbedSlot(protocol: Protocol, p: nat, q: nat, mine: string, made: string, other: string)
    requires p != q
    ensures var s := Steps(Step(Initial(protocol), Spawn(p, mine)), p, made, 8);
            var t := Steps(Step(Step(s, Stop(p)), Spawn(q, mine)), q, other, 4);
            && p in s.processes && s.processes[p] == Finished(mine, made, false) && s.launches == [Launch(p, mine, made)]
            && q in t.processes && t.processes[q] == Finished(mine, made, true) && t.launches == s.launches
            && (protocol == Review ==>
                  var alone, resumed := Step(s, Advance(p, made)), Step(t, Advance(q, other));
                  && p in alone.processes && alone.processes[p] == Published(mine, made) && alone.review == Full(made)
                  && q in resumed.processes && resumed.processes[q] == Published(mine, made) && resumed.review == Full(made))
  {
    var s := FirstProcess(protocol, p, mine, made);
    var next := Step(Step(s, Stop(p)), Spawn(q, mine));
    assert next == At(At(s, p, Stopped), q, Checking(mine));
    SecondProcessReplays(next, q, mine, made, other);
    if protocol == Review {
      FinishedReviewPublishes(s, p, mine, made, false, made);
      FinishedReviewPublishes(Steps(next, q, other, 4), q, mine, made, true, other);
    }
  }

  lemma {:induction false} StepsAdd(s: State, p: nat, made: string, m: nat, n: nat)
    ensures Steps(Steps(s, p, made, m), p, made, n) == Steps(s, p, made, m + n)
  {
    if n > 0 {
      StepsAdd(s, p, made, m, n - 1);
    }
  }

  lemma {:induction false} OnlyProcess(s: State, p: nat, made: string, n: nat)
    requires p in s.processes
    ensures Steps(s, p, made, n).processes.Keys == s.processes.Keys
  {
    if n > 0 {
      OnlyProcess(s, p, made, n - 1);
    }
  }

  // ---- What a slot refuses

  /** A fresh process that finds evidence without an intent stops for good: it never launches, in any continuation. */
  lemma DirtySlotIsRefused(s: State, p: nat, mine: string, made: string, after: seq<Action>)
    requires p in s.processes && s.processes[p] == Fresh(mine) && NeverLaunched(s, p)
    requires s.completion != Absent || (s.protocol == Review && (s.artifact.Some? || s.review != Absent))
    ensures var t := Run(Step(s, Advance(p, made)), after);
            p in t.processes && t.processes[p] == Stopped && NeverLaunched(t, p)
  {
    var u := Step(s, Advance(p, made));
    assert u == At(s, p, Stopped);
    RunKeepsResumed(u, after, p);
  }
}
