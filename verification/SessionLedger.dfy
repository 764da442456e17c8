/** The ledger of executor sessions: opening, reconciling and closing
    (orchestrator/runtime_observability.py). Times are milliseconds. */
module SessionLedger {
  import opened Text

  datatype Session = Session(id: string, start: int, end: Option<int>, status: string, duration: Option<int>)

  /** Whether a session's process is alive; stable within one call. */
  type Liveness = Session -> bool

  predicate IsOpen(s: Session) {
    s.status == "running" && s.end.None?
  }

  // ---- Session numbers

  function Pad(s: string): string
    decreases 4 - |s|
  {
    if |s| < 4 then Pad("0" + s) else s
  }

  /** `exec-%04d`. */
  function SessionName(n: nat): string {
    "exec-" + Pad(Decimal(n))
  }

  /** The number in a session id, where it has one. */
  function Number(id: string): Option<int> {
    if |id| >= 5 && id[..5] == "exec-" then ParseInt(id[5..]) else None
  }

  lemma {:induction false} LeadingZero(s: string)
    ensures NumeralValue("0" + s) == NumeralValue(s)
  {
    var t := "0" + s;
    if s == [] {
      assert t[..0] == [];
    } else {
      LeadingZero(s[..|s| - 1]);
      assert t[..|t| - 1] == "0" + s[..|s| - 1];
    }
  }

  lemma {:induction false} PadKeepsValue(s: string)
    requires |s| > 0 && forall i :: 0 <= i < |s| ==> IsDigit(s[i])
    ensures |Pad(s)| > 0 && (forall i :: 0 <= i < |Pad(s)| ==> IsDigit(Pad(s)[i]))
    ensures NumeralValue(Pad(s)) == NumeralValue(s)
    decreases 4 - |s|
  {
    if |s| < 4 {
      LeadingZero(s);
      PadKeepsValue("0" + s);
    }
  }

  /** The number of a generated id reads back. */
  lemma NameNumber(n: nat)
    ensures Number(SessionName(n)) == Some(n)
  {
    var padded := Pad(Decimal(n));
    PadKeepsValue(Decimal(n));
    DecimalValue(n);
    ParseDigits(padded);
    var id := SessionName(n);
    assert id[..5] == "exec-" && id[5..] == padded;
  }

  function MaxSeen(sessions: seq<Session>): nat {
    if sessions == [] then 0
    else
      var before := MaxSeen(sessions[..|sessions| - 1]);
      match Number(sessions[|sessions| - 1].id)
      case Some(n) => if n > before then n else before
      case None => before
  }

  lemma {:induction false} MaxSeenBounds(sessions: seq<Session>, i: nat)
    requires i < |sessions| && Number(sessions[i].id).Some?
    ensures Number(sessions[i].id).value <= MaxSeen(sessions)
  {
    if i < |sessions| - 1 {
      MaxSeenBounds(sessions[..|sessions| - 1], i);
    }
  }

  lemma NumberNotNext(sessions: seq<Session>, i: nat)
    requires i < |sessions|
    ensures Number(sessions[i].id) != Some(MaxSeen(sessions) + 1)
  {
    if Number(sessions[i].id).Some? {
      MaxSeenBounds(sessions, i);
    }
  }

  /** In any ledger at all, the next id is one that no session has. */
  lemma NextIsFresh(sessions: seq<Session>, i: nat)
    requires i < |sessions|
    ensures sessions[i].id != SessionName(MaxSeen(sessions) + 1)
  {
    NameNumber(MaxSeen(sessions) + 1);
    NumberNotNext(sessions, i);
    NumbersDiffer(sessions[i].id, SessionName(MaxSeen(sessions) + 1));
  }

  lemma NumbersDiffer(a: string, b: string)
    requires Number(a) != Number(b)
    ensures a != b
  {
  }

  /** `_next_session_id`. */
  method NextSessionId(sessions: seq<Session>) returns (id: string)
    ensures id == SessionName(MaxSeen(sessions) + 1)
    ensures forall i :: 0 <= i < |sessions| ==> sessions[i].id != id
  {
    var maxSeen := 0;
    for i := 0 to |sessions|
      invariant maxSeen == MaxSeen(sessions[..i])
    {
      assert sessions[..i + 1][..i] == sessions[..i];
      var number := Number(sessions[i].id);
      if number.Some? && number.value > maxSeen {
        maxSeen := number.value;
      }
    }
    assert sessions[..|sessions|] == sessions;
    id := SessionName(maxSeen + 1);
    forall i | 0 <= i < |sessions|
      ensures sessions[i].id != id
    {
      NextIsFresh(sessions, i);
    }
  }

  // ---- The operations

  /** `_duration_ms`. */
  function Duration(start: int, end: int): Option<int> {
    if end < start then None else Some(end - start)
  }

  function Ended(s: Session, at: int, status: string): Session {
    s.(end := Some(at), status := status, duration := if at < s.start then s.duration else Duration(s.start, at))
  }

  function Reconciled(s: Session, live: Liveness, fallback: int): Session {
    if IsOpen(s) && !live(s) then Ended(s, fallback, "abandoned") else s
  }

  function ReconcileAll(sessions: seq<Session>, live: Liveness, fallback: int): (r: seq<Session>)
    ensures |r| == |sessions|
    ensures forall i :: 0 <= i < |r| ==> r[i] == Reconciled(sessions[i], live, fallback)
  {
    seq(|sessions|, i requires 0 <= i < |sessions| => Reconciled(sessions[i], live, fallback))
  }

  predicate AnyLive(sessions: seq<Session>, live: Liveness) {
    exists i :: 0 <= i < |sessions| && IsOpen(sessions[i]) && live(sessions[i])
  }

  function Find(sessions: seq<Session>, id: string): (i: nat)
    ensures i <= |sessions|
    ensures forall j :: 0 <= j < i ==> sessions[j].id != id
    ensures i < |sessions| ==> sessions[i].id == id
  {
    if sessions == [] || sessions[0].id == id then 0 else Find(sessions[1..], id) + 1
  }

  /** A call on the ledger, with the clock and the liveness it sees. */
  datatype Call =
    | Reconcile(live: Liveness, fallback: int)
    | Open(live: Liveness, fallback: int, now: int)
    | Close(id: string, status: string, now: int)

  function NewSession(sessions: seq<Session>, now: int): Session {
    Session(SessionName(MaxSeen(sessions) + 1), now, None, "running", None)
  }

  /** The ledger after a call; a call that raises leaves what it had already done. */
  function Apply(sessions: seq<Session>, call: Call): seq<Session> {
    match call
    case Reconcile(live, fallback) => ReconcileAll(sessions, live, fallback)
    case Open(live, fallback, now) =>
      var t := ReconcileAll(sessions, live, fallback);
      if AnyLive(t, live) then t else t + [NewSession(t, now)]
    case Close(id, status, now) =>
      var i := Find(sessions, id);
      if i < |sessions| && sessions[i].end.None? then sessions[i := Ended(sessions[i], now, status)] else sessions
  }

  function ApplyAll(sessions: seq<Session>, calls: seq<Call>): seq<Session>
    decreases |calls|
  {
    if calls == [] then sessions else ApplyAll(Apply(sessions, calls[0]), calls[1..])
  }

  /** The ledger object that the calls update in place. */
  class Ledger {
    var sessions: seq<Session>

    constructor ()
      ensures sessions == []
    {
      sessions := [];
    }

    /** `reconcile_open_sessions`. */
    method ReconcileOpenSessions(live: Liveness, fallback: int)
      modifies this
      ensures sessions == Apply(old(sessions), Reconcile(live, fallback))
      ensures |sessions| == |old(sessions)|
      ensures forall i :: 0 <= i < |sessions| ==>
                var s := old(sessions)[i];
                if s.status == "running" && s.end == None && !live(s)
                then sessions[i] == Session(s.id, s.start, Some(fallback), "abandoned",
                                            if fallback < s.start then s.duration else Some(fallback - s.start))
                else sessions[i] == s
    {
      for i := 0 to |sessions|
        invariant |sessions| == |old(sessions)|
        invariant forall j :: 0 <= j < i ==> sessions[j] == Reconciled(old(sessions)[j], live, fallback)
        invariant forall j :: i <= j < |sessions| ==> sessions[j] == old(sessions)[j]
      {
        var s := sessions[i];
        if IsOpen(s) && !live(s) {
          sessions := sessions[i := Ended(s, fallback, "abandoned")];
        }
      }
    }

    /** `open_executor_session`: it fails exactly when a live open session exists. */
    method OpenExecutorSession(live: Liveness, fallback: int, now: int) returns (id: Option<string>)
      modifies this
      ensures sessions == Apply(old(sessions), Open(live, fallback, now))
      ensures id.None? <==>
                exists i :: 0 <= i < |old(sessions)| && old(sessions)[i].status == "running" && old(sessions)[i].end == None
                            && live(old(sessions)[i])
      ensures |sessions| == |old(sessions)| + if id.Some? then 1 else 0
      ensures id.Some? ==> sessions[|sessions| - 1] == Session(id.value, now, None, "running", None)
      ensures id.Some? ==> forall i :: 0 <= i < |old(sessions)| ==> old(sessions)[i].id != id.value
    {
      ReconcileOpenSessions(live, fallback);
      LiveSurvives(old(sessions), live, fallback);
      ReconcileKeepsIds(old(sessions), live, fallback);
      if AnyLive(sessions, live) {
        return None;
      }
      var next := NextSessionId(sessions);
      sessions := sessions + [Session(next, now, None, "running", None)];
      id := Some(next);
    }

    /** `close_executor_session`: it fails exactly when the id is unknown. */
    method CloseExecutorSession(id: string, status: string, now: int) returns (known: bool)
      modifies this
      ensures sessions == Apply(old(sessions), Close(id, status, now))
      ensures known <==> exists i :: 0 <= i < |old(sessions)| && old(sessions)[i].id == id
      ensures |sessions| == |old(sessions)|
      ensures forall i :: 0 <= i < |sessions| ==>
                var s := old(sessions)[i];
                if s.id == id && s.end == None && forall j :: 0 <= j < i ==> old(sessions)[j].id != id
                then sessions[i] == Session(id, s.start, Some(now), status, if now < s.start then s.duration else Some(now - s.start))
                else sessions[i] == s
    {
      for i := 0 to |sessions|
        invariant sessions == old(sessions)
        invariant forall j :: 0 <= j < i ==> sessions[j].id != id
      {
        if sessions[i].id == id {
          assert Find(sessions, id) == i;
          if sessions[i].end.None? {
            sessions := sessions[i := Ended(sessions[i], now, status)];
          }
          return true;
        }
      }
      known := false;
    }
  }

  lemma ReconcileKeepsIds(sessions: seq<Session>, live: Liveness, fallback: int)
    ensures forall i :: 0 <= i < |sessions| ==> ReconcileAll(sessions, live, fallback)[i].id == sessions[i].id
  {
  }

  /** Reconciling neither hides nor invents a live open session. */
  lemma LiveSurvives(sessions: seq<Session>, live: Liveness, fallback: int)
    ensures AnyLive(ReconcileAll(sessions, live, fallback), live) <==> AnyLive(sessions, live)
  {
    var t := ReconcileAll(sessions, live, fallback);
    forall i | 0 <= i < |sessions|
      ensures IsOpen(t[i]) && live(t[i]) <==> IsOpen(sessions[i]) && live(sessions[i])
    {
    }
  }

  // ---- Every history from the empty ledger

  /** The sessions are numbered in order. */
  predicate Numbered(sessions: seq<Session>) {
    forall i :: 0 <= i < |sessions| ==> sessions[i].id == SessionName(i + 1)
  }

  /** Only the last session can be open, and an open one is running. */
  predicate Tidy(sessions: seq<Session>) {
    && (forall i :: 0 <= i < |sessions| - 1 ==> sessions[i].end.Some?)
    && (forall i :: 0 <= i < |sessions| && sessions[i].end.None? ==> sessions[i].status == "running")
  }

  predicate Orderly(sessions: seq<Session>) {
    Numbered(sessions) && Tidy(sessions)
  }

  lemma {:induction false} MaxSeenIsCount(sessions: seq<Session>)
    requires Numbered(sessions)
    ensures MaxSeen(sessions) == |sessions|
  {
    if sessions != [] {
      MaxSeenIsCount(sessions[..|sessions| - 1]);
      NameNumber(|sessions|);
    }
  }

  /** A call changes open sessions only, and never an id. */
  predicate KeepsClosed(before: seq<Session>, after: seq<Session>) {
    && |before| <= |after|
    && (forall i :: 0 <= i < |before| ==> after[i].id == before[i].id)
    && (forall i :: 0 <= i < |before| && before[i].end.Some? ==> after[i] == before[i])
  }

  lemma ReconcileKeeps(sessions: seq<Session>, live: Liveness, fallback: int)
    requires Tidy(sessions)
    ensures KeepsClosed(sessions, ReconcileAll(sessions, live, fallback)) && Tidy(ReconcileAll(sessions, live, fallback))
  {
  }

  lemma SameIdsNumbered(before: seq<Session>, after: seq<Session>)
    requires Numbered(before) && |after| == |before| && KeepsClosed(before, after)
    ensures Numbered(after)
  {
  }

  lemma AllEnded(sessions: seq<Session>, live: Liveness)
    requires Tidy(sessions) && !AnyLive(sessions, live)
    requires forall i :: 0 <= i < |sessions| && IsOpen(sessions[i]) ==> live(sessions[i])
    ensures forall i :: 0 <= i < |sessions| ==> sessions[i].end.Some?
  {
  }

  lemma AppendKeeps(t: seq<Session>, now: int)
    requires Orderly(t) && forall i :: 0 <= i < |t| ==> t[i].end.Some?
    ensures Orderly(t + [NewSession(t, now)])
  {
    MaxSeenIsCount(t);
  }

  lemma CloseKeeps(sessions: seq<Session>, id: string, status: string, now: int)
    requires Tidy(sessions)
    ensures var t := Apply(sessions, Close(id, status, now));
            |t| == |sessions| && KeepsClosed(sessions, t) && Tidy(t)
  {
  }

  lemma ApplyKeepsOrderly(sessions: seq<Session>, call: Call)
    requires Orderly(sessions)
    ensures Orderly(Apply(sessions, call)) && KeepsClosed(sessions, Apply(sessions, call))
  {
    match call
    case Reconcile(live, fallback) =>
      ReconcileKeeps(sessions, live, fallback);
      SameIdsNumbered(sessions, ReconcileAll(sessions, live, fallback));
    case Open(live, fallback, now) =>
      var t := ReconcileAll(sessions, live, fallback);
      ReconcileKeeps(sessions, live, fallback);
      SameIdsNumbered(sessions, t);
      if !AnyLive(t, live) {
        AllEnded(t, live);
        AppendKeeps(t, now);
      }
    case Close(id, status, now) =>
      CloseKeeps(sessions, id, status, now);
      SameIdsNumbered(sessions, Apply(sessions, call));
  }

  /** Over any sequence of calls: the ledger stays orderly and a closed session is never changed. */
  lemma {:induction false} HistoryKeepsOrderly(sessions: seq<Session>, calls: seq<Call>)
    requires Orderly(sessions)
    ensures Orderly(ApplyAll(sessions, calls)) && KeepsClosed(sessions, ApplyAll(sessions, calls))
    decreases |calls|
  {
    if calls != [] {
      ApplyKeepsOrderly(sessions, calls[0]);
      HistoryKeepsOrderly(Apply(sessions, calls[0]), calls[1..]);
    }
  }

  /** In every reachable ledger ids are pairwise distinct with increasing numbers, and at most one session is open. */
  lemma ReachableLedger(calls: seq<Call>)
    ensures var s := ApplyAll([], calls);
            && (forall i, j :: 0 <= i < j < |s| ==> s[i].id != s[j].id)
            && (forall i, j :: 0 <= i < j < |s| && Number(s[i].id).Some? && Number(s[j].id).Some? ==>
                  Number(s[i].id).value < Number(s[j].id).value)
            && (forall i :: 0 <= i < |s| ==> Number(s[i].id).Some?)
            && (forall i, j :: 0 <= i < |s| && 0 <= j < |s| && IsOpen(s[i]) && IsOpen(s[j]) ==> i == j)
  {
    HistoryKeepsOrderly([], calls);
    var s := ApplyAll([], calls);
    forall i | 0 <= i < |s|
      ensures Number(s[i].id) == Some(i + 1)
    {
      NameNumber(i + 1);
    }
  }
}
