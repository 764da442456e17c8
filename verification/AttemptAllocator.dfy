/** The provider-attempt ordinals of the run state: allocation with rollback, over a disk whose writes may fail
    (orchestrator/state.py). */
module AttemptAllocator {
  import opened Text
  import opened StateFile
  import AtomicFile

  /** The record of one scope; `schema` is its prompt-fragment identity authority, if it has one. */
  datatype Entry = Entry(last: nat, schema: Option<string>)

  type Allocations = map<string, Entry>

  /** An ordinal that a caller received. */
  datatype Issue = Issue(scope: string, ordinal: nat, schema: Option<string>)

  datatype Outcome = Allocated(ordinal: nat) | Raised | Died

  // ---- One allocation

  /** The request fits the authority the scope already has. */
  predicate Compatible(a: Allocations, scope: string, schema: Option<string>) {
    scope in a ==> a[scope].schema == schema
  }

  function NextOrdinal(a: Allocations, scope: string): nat {
    if scope in a then a[scope].last + 1 else 1
  }

  /** The allocations after the next ordinal is taken. */
  function Allocate(a: Allocations, scope: string, schema: Option<string>): Allocations
    requires Compatible(a, scope, schema)
  {
    a[scope := Entry(NextOrdinal(a, scope), schema)]
  }

  // ---- What is kept

  /** Every scope of `a` is in `b` with the same authority and at least its ordinal. */
  predicate Extends(b: Allocations, a: Allocations) {
    forall s :: s in a ==> s in b && b[s].schema == a[s].schema && b[s].last >= a[s].last
  }

  /** The ordinals handed out for a scope strictly increase and never change authority. */
  predicate Increasing(log: seq<Issue>) {
    forall i, j :: 0 <= i < j < |log| && log[i].scope == log[j].scope ==>
      log[i].ordinal < log[j].ordinal && log[i].schema == log[j].schema
  }

  /** The record covers everything handed out. */
  predicate Covers(a: Allocations, log: seq<Issue>) {
    forall i :: 0 <= i < |log| ==>
      log[i].scope in a && log[i].ordinal <= a[log[i].scope].last && log[i].schema == a[log[i].scope].schema
  }

  function Recorded(disk: Option<Allocations>): Allocations {
    match disk case Some(a) => a case None => map[]
  }

  lemma ExtendsTransitive(c: Allocations, b: Allocations, a: Allocations)
    requires Extends(c, b) && Extends(b, a)
    ensures Extends(c, a)
  {
  }

  lemma AllocateExtends(a: Allocations, scope: string, schema: Option<string>)
    requires Compatible(a, scope, schema)
    ensures Extends(Allocate(a, scope, schema), a)
  {
  }

  lemma CoversLater(b: Allocations, a: Allocations, log: seq<Issue>)
    requires Extends(b, a) && Covers(a, log)
    ensures Covers(b, log)
  {
  }

  /** Handing out the next ordinal of a record that covers the log keeps the log increasing and covered. */
  lemma IssueKeeps(a: Allocations, scope: string, schema: Option<string>, log: seq<Issue>)
    requires Compatible(a, scope, schema) && Covers(a, log) && Increasing(log)
    ensures Increasing(log + [Issue(scope, NextOrdinal(a, scope), schema)])
    ensures Covers(Allocate(a, scope, schema), log + [Issue(scope, NextOrdinal(a, scope), schema)])
  {
    var b := Allocate(a, scope, schema);
    AllocateExtends(a, scope, schema);
    CoversLater(b, a, log);
  }

  // ---- The manager as a transition system

  /** The allocations in memory, if a state is loaded, and on disk, if there is a state file. */
  datatype Manager = Manager(memory: Option<Allocations>, disk: Option<Allocations>)

  /** What goes wrong in one allocation: the write, and the two rereads of the rollback. */
  datatype Trouble = Trouble(write: End, innerRead: bool, outerRead: bool)

  /** The rollback: reread the file if it exists and can be read. */
  function Reread(m: Manager, readable: bool): Manager {
    if readable && m.disk.Some? then m.(memory := m.disk) else m
  }

  /** A write of the state in memory. */
  function Flushed(m: Manager, end: End): Manager {
    var n := if OnDisk(end) then m.(disk := m.memory) else m;
    if end.Killed? then n.(memory := None) else n
  }

  /** `allocate_provider_attempt`: the inner transaction rolls back, and then the caller once more. */
  function Attempted(m: Manager, scope: string, schema: Option<string>, trouble: Trouble): (Manager, Outcome) {
    if m.memory.None? then (Reread(m, trouble.outerRead), Raised)
    else if !Compatible(m.memory.value, scope, schema) then
      (Reread(Reread(m, trouble.innerRead), trouble.outerRead), Raised)
    else
      var n := Flushed(m.(memory := Some(Allocate(m.memory.value, scope, schema))), trouble.write);
      match trouble.write
      case Finished => (n, Allocated(NextOrdinal(m.memory.value, scope)))
      case Failed(_) => (Reread(Reread(n, trouble.innerRead), trouble.outerRead), Raised)
      case Killed(_) => (n, Died)
  }

  /** What happens to a run, over all its processes. */
  datatype Event =
    | Initialize(write: End)
    | Load(readable: bool)
    | Restart
    /** Any other update of the run state, which writes the allocations along unchanged. */
    | Persist(write: End)
    | Request(scope: string, schema: Option<string>, trouble: Trouble)

  function Apply(m: Manager, event: Event): Manager {
    match event
    case Initialize(write) => if m.disk.None? then Flushed(m.(memory := Some(map[])), write) else m
    case Load(readable) => Reread(m, readable)
    case Restart => m.(memory := None)
    case Persist(write) => if m.memory.Some? then Flushed(m, write) else m
    case Request(scope, schema, trouble) => Attempted(m, scope, schema, trouble).0
  }

  /** The ordinal that the event hands out, if any. */
  function Issued(m: Manager, event: Event): seq<Issue> {
    match event
    case Request(scope, schema, trouble) =>
      (match Attempted(m, scope, schema, trouble).1
       case Allocated(ordinal) => [Issue(scope, ordinal, schema)]
       case _ => [])
    case _ => []
  }

  function ApplyAll(m: Manager, events: seq<Event>): Manager
    decreases |events|
  {
    if events == [] then m else ApplyAll(Apply(m, events[0]), events[1..])
  }

  function IssuedAll(m: Manager, events: seq<Event>): seq<Issue>
    decreases |events|
  {
    if events == [] then [] else Issued(m, events[0]) + IssuedAll(Apply(m, events[0]), events[1..])
  }

  predicate Valid(m: Manager, log: seq<Issue>) {
    && Increasing(log)
    && Covers(Recorded(m.disk), log)
    && (m.memory.Some? ==> Extends(m.memory.value, Recorded(m.disk)))
  }

  lemma FlushKeeps(m: Manager, end: End, log: seq<Issue>)
    requires Valid(m, log) && m.memory.Some?
    ensures Valid(Flushed(m, end), log) && Extends(Recorded(Flushed(m, end).disk), Recorded(m.disk))
  {
    CoversLater(m.memory.value, Recorded(m.disk), log);
  }

  lemma RequestKeeps(m: Manager, scope: string, schema: Option<string>, trouble: Trouble, log: seq<Issue>)
    requires Valid(m, log)
    ensures var event := Request(scope, schema, trouble);
            && Valid(Apply(m, event), log + Issued(m, event))
            && Extends(Recorded(Apply(m, event).disk), Recorded(m.disk))
  {
    assert log + [] == log;
    if m.memory.Some? && Compatible(m.memory.value, scope, schema) {
      CompatibleKeeps(m, scope, schema, trouble, log);
    } else {
      RereadKeeps(m, trouble.innerRead, log);
      RereadKeeps(m, trouble.outerRead, log);
      RereadKeeps(Reread(m, trouble.innerRead), trouble.outerRead, log);
    }
  }

  lemma RereadKeeps(m: Manager, readable: bool, log: seq<Issue>)
    requires Valid(m, log)
    ensures Valid(Reread(m, readable), log) && Reread(m, readable).disk == m.disk
  {
  }

  lemma CompatibleKeeps(m: Manager, scope: string, schema: Option<string>, trouble: Trouble, log: seq<Issue>)
    requires Valid(m, log) && m.memory.Some? && Compatible(m.memory.value, scope, schema)
    ensures var (after, outcome) := Attempted(m, scope, schema, trouble);
            && Valid(after, if outcome.Allocated? then log + [Issue(scope, outcome.ordinal, schema)] else log)
            && Extends(Recorded(after.disk), Recorded(m.disk))
  {
    var candidate := m.(memory := Some(Allocate(m.memory.value, scope, schema)));
    CandidateKeeps(m, scope, schema, log);
    FlushKeeps(candidate, trouble.write, log);
    var n := Flushed(candidate, trouble.write);
    if trouble.write.Failed? {
      RereadKeeps(n, trouble.innerRead, log);
      RereadKeeps(Reread(n, trouble.innerRead), trouble.outerRead, log);
    }
  }

  /** The state with the next ordinal in memory, and with that ordinal handed out once it is on disk. */
  lemma CandidateKeeps(m: Manager, scope: string, schema: Option<string>, log: seq<Issue>)
    requires Valid(m, log) && m.memory.Some? && Compatible(m.memory.value, scope, schema)
    ensures var next := Allocate(m.memory.value, scope, schema);
            && Valid(m.(memory := Some(next)), log)
            && Valid(Manager(Some(next), Some(next)), log + [Issue(scope, NextOrdinal(m.memory.value, scope), schema)])
  {
    var before := m.memory.value;
    AllocateExtends(before, scope, schema);
    ExtendsTransitive(Allocate(before, scope, schema), before, Recorded(m.disk));
    CoversLater(before, Recorded(m.disk), log);
    IssueKeeps(before, scope, schema, log);
  }

  lemma EventKeeps(m: Manager, event: Event, log: seq<Issue>)
    requires Valid(m, log)
    ensures Valid(Apply(m, event), log + Issued(m, event))
    ensures Extends(Recorded(Apply(m, event).disk), Recorded(m.disk))
  {
    match event
    case Request(scope, schema, trouble) => RequestKeeps(m, scope, schema, trouble, log);
    case Initialize(write) =>
      assert log + [] == log;
      if m.disk.None? {
        FlushKeeps(m.(memory := Some(map[])), write, log);
      }
    case Persist(write) =>
      assert log + [] == log;
      if m.memory.Some? {
        FlushKeeps(m, write, log);
      }
    case _ =>
      assert log + [] == log;
  }

  /** Over any history of allocations, other writes, failures, deaths, reloads and restarts: the ordinals handed out
      for a scope strictly increase, the disk covers them, and no record ever loses its authority or an ordinal. */
  lemma {:induction false} HistoryKeeps(m: Manager, events: seq<Event>, log: seq<Issue>)
    requires Valid(m, log)
    ensures Valid(ApplyAll(m, events), log + IssuedAll(m, events))
    ensures Extends(Recorded(ApplyAll(m, events).disk), Recorded(m.disk))
    decreases |events|
  {
    if events == [] {
      assert log + [] == log;
    } else {
      var next := Apply(m, events[0]);
      EventKeeps(m, events[0], log);
      HistoryKeeps(next, events[1..], log + Issued(m, events[0]));
      ExtendsTransitive(Recorded(ApplyAll(m, events).disk), Recorded(next.disk), Recorded(m.disk));
      assert log + Issued(m, events[0]) + IssuedAll(next, events[1..]) == log + IssuedAll(m, events);
    }
  }

  lemma ReachableIsValid(events: seq<Event>)
    ensures Valid(ApplyAll(Manager(None, None), events), IssuedAll(Manager(None, None), events))
  {
    HistoryKeeps(Manager(None, None), events, []);
    assert [] + IssuedAll(Manager(None, None), events) == IssuedAll(Manager(None, None), events);
  }

  /** No ordinal of a scope is handed out twice in any history of a run, and its authority is the same each time. */
  lemma NeverReissued(events: seq<Event>, i: nat, j: nat)
    requires var log := IssuedAll(Manager(None, None), events);
             i < j < |log| && log[i].scope == log[j].scope
    ensures var log := IssuedAll(Manager(None, None), events);
            && log[i].ordinal < log[j].ordinal && log[i].schema == log[j].schema
            && Covers(Recorded(ApplyAll(Manager(None, None), events).disk), log)
  {
    ReachableIsValid(events);
  }

  /** A request is served exactly when a state is loaded, the scope is new or has this authority, and the write succeeds; it
      gets the next ordinal, and then memory and disk both record it and nothing else changes. */
  lemma ServedExactly(m: Manager, scope: string, schema: Option<string>, trouble: Trouble)
    ensures var (after, outcome) := Attempted(m, scope, schema, trouble);
            && (outcome.Allocated? <==> m.memory.Some? && (scope in m.memory.value ==> m.memory.value[scope].schema == schema) && trouble.write.Finished?)
            && (outcome.Allocated? ==>
                  && outcome.ordinal == (if scope in m.memory.value then m.memory.value[scope].last + 1 else 1)
                  && after.memory == after.disk == Some(m.memory.value[scope := Entry(outcome.ordinal, schema)]))
  {
  }

  /** A request whose write succeeds, under the authority that the scope has in `schemas`. */
  predicate Smooth(event: Event, schemas: string -> Option<string>) {
    event.Request? && event.schema == schemas(event.scope) && event.trouble.write.Finished?
  }

  /** The number of requests for a scope. */
  function Requests(events: seq<Event>, scope: string): nat {
    if events == [] then 0
    else (if events[0].Request? && events[0].scope == scope then 1 else 0) + Requests(events[1..], scope)
  }

  /** What the request at `j` gets: the ordinal after those that its scope had in `a` and got in earlier requests. */
  function Due(a: Allocations, events: seq<Event>, schemas: string -> Option<string>, j: nat): Issue
    requires j < |events| && Smooth(events[j], schemas)
  {
    var scope := events[j].scope;
    Issue(scope, NextOrdinal(a, scope) + Requests(events[..j], scope), schemas(scope))
  }

  predicate AllSmooth(events: seq<Event>, schemas: string -> Option<string>) {
    forall i :: 0 <= i < |events| ==> Smooth(events[i], schemas)
  }

  predicate Agrees(a: Allocations, schemas: string -> Option<string>) {
    forall s :: s in a ==> a[s].schema == schemas(s)
  }

  /** Requests that nothing disturbs are all served, in order, and each gets the ordinal after the last one of its scope:
      the ordinals of a scope have no gap. */
  lemma {:induction false} ServedWithoutGaps(m: Manager, events: seq<Event>, schemas: string -> Option<string>)
    requires m.memory.Some? && Agrees(m.memory.value, schemas) && AllSmooth(events, schemas)
    ensures |IssuedAll(m, events)| == |events|
    ensures forall j :: 0 <= j < |events| ==> IssuedAll(m, events)[j] == Due(m.memory.value, events, schemas, j)
    decreases |events|
  {
    if events != [] {
      var next, rest, scope := Apply(m, events[0]), events[1..], events[0].scope;
      assert Smooth(events[0], schemas);
      ServedExactly(m, scope, events[0].schema, events[0].trouble);
      ServedWithoutGaps(next, rest, schemas);
      forall j | 0 <= j < |events|
        ensures Due(m.memory.value, events, schemas, j) ==
                if j == 0 then Issue(scope, NextOrdinal(m.memory.value, scope), schemas(scope)) else Due(next.memory.value, rest, schemas, j - 1)
      {
        DueLater(m.memory.value, events, schemas, j);
      }
    }
  }

  lemma DueLater(a: Allocations, events: seq<Event>, schemas: string -> Option<string>, j: nat)
    requires j < |events| && Agrees(a, schemas) && AllSmooth(events, schemas)
    ensures var scope := events[0].scope;
            Due(a, events, schemas, j) ==
            if j == 0 then Issue(scope, NextOrdinal(a, scope), schemas(scope)) else Due(Allocate(a, scope, schemas(scope)), events[1..], schemas, j - 1)
  {
    assert Smooth(events[0], schemas) && Smooth(events[j], schemas);
    if j > 0 {
      assert events[..j][1..] == events[1..][..j - 1] && events[1..][j - 1] == events[j];
    }
  }

  /** After a failed write the next ordinal is the one after the disk's, if the state file exists and one of the rereads
      succeeds, and else the one after the ordinal that nobody received. */
  lemma FailureConsumesExactly(m: Manager, scope: string, schema: Option<string>, landed: bool, innerRead: bool, outerRead: bool)
    requires m.memory.Some? && Compatible(m.memory.value, scope, schema)
    ensures var (after, outcome) := Attempted(m, scope, schema, Trouble(Failed(landed), innerRead, outerRead));
            && outcome == Raised && after.memory.Some?
            && after.disk == (if landed then Some(Allocate(m.memory.value, scope, schema)) else m.disk)
            && NextOrdinal(after.memory.value, scope) ==
                 if after.disk.Some? && (innerRead || outerRead) then NextOrdinal(Recorded(after.disk), scope)
                 else NextOrdinal(m.memory.value, scope) + 1
  {
  }

  /** So a failure before the rename, of a manager whose memory and disk agree on the scope, consumes no ordinal exactly
      when the state is reread; and a failure after the rename always consumes one. */
  lemma FailureBeforeRename(m: Manager, scope: string, schema: Option<string>, landed: bool, innerRead: bool, outerRead: bool)
    requires m.memory.Some? && Compatible(m.memory.value, scope, schema)
    requires NextOrdinal(Recorded(m.disk), scope) == NextOrdinal(m.memory.value, scope)
    ensures var after := Attempted(m, scope, schema, Trouble(Failed(landed), innerRead, outerRead)).0;
            var consumed := NextOrdinal(after.memory.value, scope) - NextOrdinal(m.memory.value, scope);
            consumed == if !landed && m.disk.Some? && (innerRead || outerRead) then 0 else 1
  {
    FailureConsumesExactly(m, scope, schema, landed, innerRead, outerRead);
  }

  /** The case exists: after one failed write that cannot be reread, the first caller served receives ordinal 2. */
  lemma OrdinalSkipped(scope: string)
    ensures var events := [Initialize(Finished), Request(scope, None, Trouble(Failed(false), false, false)),
                           Request(scope, None, Trouble(Finished, true, true))];
            IssuedAll(Manager(None, None), events) == [Issue(scope, 2, None)]
  {
    var first, second, third := Initialize(Finished), Request(scope, None, Trouble(Failed(false), false, false)),
                                Request(scope, None, Trouble(Finished, true, true));
    var start := Manager(None, None);
    var m := Apply(start, first);
    var n := Apply(m, second);
    assert m == Manager(Some(map[]), Some(map[]));
    assert n == Manager(Some(map[scope := Entry(1, None)]), Some(map[]));
    assert [first, second, third][1..] == [second, third] && [second, third][1..] == [third] && [third][1..] == [];
    assert IssuedAll(n, [third]) == [Issue(scope, 2, None)] + IssuedAll(Apply(n, third), []);
    assert IssuedAll(m, [second, third]) == [] + IssuedAll(n, [third]);
  }

  // ---- The manager as a program

  class StateManager {
    var memory: Option<Allocations>
    const file: Store<Allocations>

    /** The two parts of the state. */
    ghost function View(): Manager
      reads this, file.directory
    {
      Manager(memory, file.Stored())
    }

    constructor (file: Store<Allocations>)
      requires file.Valid()
      ensures this.file == file && memory == None && View() == Manager(None, file.Stored())
    {
      this.file, memory := file, None;
    }

    /** Reread the file if it exists and can be read. */
    method Reload(readable: bool)
      requires file.Valid()
      modifies this
      ensures View() == Reread(old(View()), readable)
    {
      var found := file.Read(readable);
      if found.Some? {
        memory := found;
      }
    }

    /** `initialize`, on a run that has no state file. */
    method InitializeState(temporary: string, faults: AtomicFile.Faults) returns (outcome: AtomicFile.Outcome, ghost end: End)
      requires file.Valid() && file.Stored() == None && temporary != file.path
      modifies this, file.directory
      ensures file.Valid() && View() == Apply(old(View()), Initialize(end))
    {
      memory := Some(map[]);
      outcome, end := file.Write(map[], temporary, faults);
      if outcome == AtomicFile.Died {
        memory := None;
      }
    }

    /** `allocate_provider_attempt`. */
    method AllocateProviderAttempt(scope: string, schema: Option<string>, temporary: string, faults: AtomicFile.Faults,
                                   innerRead: bool, outerRead: bool)
      returns (outcome: Outcome, ghost end: End)
      requires file.Valid() && temporary != file.path
      modifies this, file.directory
      ensures file.Valid()
      ensures (View(), outcome) == Attempted(old(View()), scope, schema, Trouble(end, innerRead, outerRead))
      ensures old(memory).Some? && Compatible(old(memory).value, scope, schema) ==>
                end == EndOf(old(file.directory.files), temporary,
                             file.codec.encode(Allocate(old(memory).value, scope, schema)), faults)
    {
      end := Finished;
      if memory.None? || !Compatible(memory.value, scope, schema) {
        if memory.Some? {
          Reload(innerRead);
        }
        Reload(outerRead);
        return Raised, end;
      }
      var ordinal := NextOrdinal(memory.value, scope);
      var candidate := Allocate(memory.value, scope, schema);
      memory := Some(candidate);
      var written;
      written, end := file.Write(candidate, temporary, faults);
      if written == AtomicFile.Died {
        memory := None;
        return Died, end;
      }
      if written == AtomicFile.Raised {
        Reload(innerRead);
        Reload(outerRead);
        return Raised, end;
      }
      outcome := Allocated(ordinal);
    }
  }
}
