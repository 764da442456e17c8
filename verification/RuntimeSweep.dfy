/** The active and the suspended time of a run, computed from its session ledger
    (orchestrator/runtime_observability.py, `compute_active_runtime`). */
module RuntimeSweep {
  import opened Text
  import opened SessionLedger

  datatype Interval = Interval(start: int, end: Option<int>)

  // ---- Sorting by start

  predicate Sorted(s: seq<Interval>) {
    forall i, j :: 0 <= i < j < |s| ==> s[i].start <= s[j].start
  }

  /** Insert after every interval that starts no later. */
  function Insert(s: seq<Interval>, x: Interval): seq<Interval> {
    if s == [] || s[|s| - 1].start <= x.start then s + [x]
    else Insert(s[..|s| - 1], x) + [s[|s| - 1]]
  }

  /** The stable sort by start. */
  function Sort(s: seq<Interval>): seq<Interval> {
    if s == [] then [] else Insert(Sort(s[..|s| - 1]), s[|s| - 1])
  }

  lemma {:induction false} InsertKeeps(s: seq<Interval>, x: Interval)
    requires Sorted(s)
    ensures Sorted(Insert(s, x)) && |Insert(s, x)| == |s| + 1
    ensures forall v :: v in Insert(s, x) <==> v in s || v == x
  {
    if s != [] && s[|s| - 1].start > x.start {
      var before, last := s[..|s| - 1], s[|s| - 1];
      assert s == before + [last];
      InsertKeeps(before, x);
      var inner := Insert(before, x);
      assert forall v :: v in inner ==> v.start <= last.start;
    }
  }

  lemma {:induction false} SortKeeps(s: seq<Interval>)
    ensures Sorted(Sort(s)) && |Sort(s)| == |s|
    ensures forall v :: v in Sort(s) <==> v in s
  {
    if s != [] {
      var before, last := s[..|s| - 1], s[|s| - 1];
      assert s == before + [last];
      SortKeeps(before);
      InsertKeeps(Sort(before), last);
    }
  }

  // ---- The sweep

  function Later(a: Option<int>, b: Option<int>): Option<int> {
    match (a, b)
    case (Some(x), Some(y)) => if y > x then b else a
    case (None, _) => b
    case (_, None) => a
  }

  /** The latest end among the first `k` intervals. */
  function LatestEnd(s: seq<Interval>, k: nat): Option<int>
    requires k <= |s|
  {
    if k == 0 then None else Later(LatestEnd(s, k - 1), s[k - 1].end)
  }

  /** The gap before the interval at `k`. */
  function GapBefore(s: seq<Interval>, k: nat): nat
    requires k < |s|
  {
    match LatestEnd(s, k)
    case Some(end) => if s[k].start > end then s[k].start - end else 0
    case None => 0
  }

  function Excluded(s: seq<Interval>, k: nat): nat
    requires k <= |s|
  {
    if k == 0 then 0 else Excluded(s, k - 1) + GapBefore(s, k - 1)
  }

  // ---- Time as a set of milliseconds

  predicate Covers(x: Interval, t: int) {
    x.end.Some? && x.start <= t < x.end.value
  }

  predicate Covered(s: seq<Interval>, t: int) {
    exists x :: x in s && Covers(x, t)
  }

  /** The milliseconds of `lo .. hi` that no closed session covers. */
  function Idle(s: seq<Interval>, lo: int, hi: int): set<int> {
    set t: int | lo <= t < hi && !Covered(s, t)
  }

  predicate Inside(t: int, lo: int, hi: int) {
    lo <= t < hi
  }

  function Range(lo: int, hi: int): set<int> {
    set t: int | lo <= t < hi && Inside(t, lo, hi)
  }

  lemma {:induction false} RangeCount(lo: int, hi: int)
    requires lo <= hi
    ensures |Range(lo, hi)| == hi - lo
    decreases hi - lo
  {
    if lo < hi {
      RangeCount(lo, hi - 1);
      assert Range(lo, hi) == Range(lo, hi - 1) + {hi - 1};
    }
  }

  /** A closed session does not end before it starts. */
  predicate Proper(x: Interval) {
    x.end.Some? ==> x.start <= x.end.value
  }

  /** Sorted and proper, with nothing open except possibly the last. */
  predicate Regular(s: seq<Interval>) {
    && Sorted(s)
    && (forall i :: 0 <= i < |s| ==> Proper(s[i]))
    && (forall i :: 0 <= i < |s| - 1 ==> s[i].end.Some?)
  }

  lemma {:induction false} LatestEndIs(s: seq<Interval>, k: nat)
    requires k <= |s|
    ensures LatestEnd(s, k).None? <==> forall i :: 0 <= i < k ==> s[i].end.None?
    ensures forall i :: 0 <= i < k && s[i].end.Some? ==> LatestEnd(s, k).Some? && s[i].end.value <= LatestEnd(s, k).value
    ensures LatestEnd(s, k).Some? ==> exists i :: 0 <= i < k && s[i].end == LatestEnd(s, k)
  {
    if k > 0 {
      LatestEndIs(s, k - 1);
      if LatestEnd(s, k) == LatestEnd(s, k - 1) && LatestEnd(s, k).Some? {
        var i :| 0 <= i < k - 1 && s[i].end == LatestEnd(s, k - 1);
        assert s[i].end == LatestEnd(s, k);
      } else {
        assert s[k - 1].end == LatestEnd(s, k);
      }
    }
  }

  /** Between two starts, what no session covers is what lies after every end before. */
  lemma StretchCovered(s: seq<Interval>, k: nat, t: int)
    requires 0 < k < |s| && Sorted(s) && s[k - 1].start <= t < s[k].start
    ensures Covered(s, t) <==> LatestEnd(s, k).Some? && t < LatestEnd(s, k).value
  {
    LatestEndIs(s, k);
    LaterDoNotCover(s, k, t);
    if LatestEnd(s, k).Some? && t < LatestEnd(s, k).value {
      var i :| 0 <= i < k && s[i].end == LatestEnd(s, k);
      assert s[i] in s[..k] && Covers(s[i], t);
    }
  }

  /** Sessions that start after `t` do not cover it. */
  lemma LaterDoNotCover(s: seq<Interval>, k: nat, t: int)
    requires k <= |s| && (forall i :: k <= i < |s| ==> t < s[i].start)
    ensures Covered(s, t) <==> Covered(s[..k], t)
  {
    if Covered(s, t) {
      var x :| x in s && Covers(x, t);
      var i :| 0 <= i < |s| && s[i] == x;
      assert i < k;
      assert s[..k][i] == x;
    }
  }

  /** Where the idle time before the interval at `k` begins, counted from the start before it. */
  function IdleFrom(s: seq<Interval>, k: nat): int
    requires 0 < k < |s|
  {
    match LatestEnd(s, k)
    case None => s[k - 1].start
    case Some(end) => if end < s[k - 1].start then s[k - 1].start else if end < s[k].start then end else s[k].start
  }

  lemma IdleStep(s: seq<Interval>, k: nat)
    requires Sorted(s) && 0 < k < |s|
    ensures s[k - 1].start <= IdleFrom(s, k) <= s[k].start
    ensures Idle(s, s[0].start, s[k].start) == Idle(s, s[0].start, s[k - 1].start) + Range(IdleFrom(s, k), s[k].start)
  {
    forall t | s[k - 1].start <= t < s[k].start
      ensures !Covered(s, t) <==> IdleFrom(s, k) <= t
    {
      StretchCovered(s, k, t);
    }
  }

  // ---- How far the sweep is off

  /** The error of one step: too much when the start before lies after every end so far, and too little, namely
      nothing, while no end has been seen. */
  function ErrorAt(s: seq<Interval>, k: nat): int
    requires 0 < k < |s|
  {
    match LatestEnd(s, k)
    case None => s[k - 1].start - s[k].start
    case Some(end) => if s[k - 1].start > end then s[k - 1].start - end else 0
  }

  function Error(s: seq<Interval>, k: nat): int
    requires k <= |s|
  {
    if k <= 1 then 0 else Error(s, k - 1) + ErrorAt(s, k - 1)
  }

  lemma GapError(s: seq<Interval>, k: nat)
    requires Sorted(s) && 0 < k < |s|
    ensures GapBefore(s, k) == (s[k].start - IdleFrom(s, k)) + ErrorAt(s, k)
  {
  }

  /** For any sorted intervals, open or closed, proper or not, the sweep is off by exactly `Error`. */
  lemma {:induction false} SweepIsOffBy(s: seq<Interval>, k: nat)
    requires Sorted(s) && 0 < k <= |s|
    ensures Excluded(s, k) == |Idle(s, s[0].start, s[k - 1].start)| + Error(s, k)
  {
    if k == 1 {
      assert Idle(s, s[0].start, s[0].start) == {};
      assert Excluded(s, 0) == 0 && LatestEnd(s, 0) == None;
    } else {
      SweepIsOffBy(s, k - 1);
      IdleStep(s, k - 1);
      GapError(s, k - 1);
      RangeCount(IdleFrom(s, k - 1), s[k - 1].start);
      assert Idle(s, s[0].start, s[k - 2].start) !! Range(IdleFrom(s, k - 1), s[k - 1].start);
    }
  }

  /** The interval starts no later than some end up to and including its own. */
  predicate CaughtAt(s: seq<Interval>, i: nat)
    requires i < |s|
  {
    LatestEnd(s, i + 1).Some? && s[i].start <= LatestEnd(s, i + 1).value
  }

  /** All of the first `k` intervals but the last are caught. */
  predicate Caught(s: seq<Interval>, k: nat)
    requires k <= |s|
  {
    forall i :: 0 <= i < k - 1 ==> CaughtAt(s, i)
  }

  lemma {:induction false} ErrorIsZeroExactly(s: seq<Interval>, k: nat)
    requires Sorted(s) && 0 < k <= |s| && s[0].end.Some?
    ensures Error(s, k) >= 0 && (Error(s, k) == 0 <==> Caught(s, k))
  {
    if k > 1 {
      ErrorIsZeroExactly(s, k - 1);
      LatestEndIs(s, k - 1);
      assert ErrorAt(s, k - 1) == 0 <==> CaughtAt(s, k - 2);
      assert Caught(s, k) <==> Caught(s, k - 1) && CaughtAt(s, k - 2);
    }
  }

  /** The sweep over any intervals is right exactly when its errors cancel; and given that the first interval is closed,
      exactly when every interval but the last starts no later than some end up to its own. */
  lemma SweepIsRightExactly(s: seq<Interval>)
    requires s != []
    ensures |Sort(s)| == |s|
    ensures var t := Sort(s);
            var right := Excluded(t, |t|) == |Idle(s, t[0].start, t[|t| - 1].start)|;
            (right <==> Error(t, |t|) == 0) && (t[0].end.Some? ==> (right <==> Caught(t, |t|)))
  {
    var t := Sort(s);
    SortKeeps(s);
    SweepIsOffBy(t, |t|);
    SameIdle(s, t, t[0].start, t[|t| - 1].start);
    if t[0].end.Some? {
      ErrorIsZeroExactly(t, |t|);
    }
  }

  /** For proper intervals that condition is about the open ones only: each but the last must start no later than the
      latest end before it. */
  lemma CaughtWhenProper(s: seq<Interval>)
    requires forall i :: 0 <= i < |s| ==> Proper(s[i])
    ensures Caught(s, |s|) <==> forall i :: 0 <= i < |s| - 1 && s[i].end.None? ==> BeforeAnEnd(s, i)
  {
    forall i | 0 <= i < |s| - 1
      ensures CaughtAt(s, i) <==> s[i].end.Some? || BeforeAnEnd(s, i)
    {
      LatestEndIs(s, i + 1);
      if s[i].end.None? {
        assert LatestEnd(s, i + 1) == LatestEnd(s, i);
      }
    }
  }

  predicate BeforeAnEnd(s: seq<Interval>, i: nat)
    requires i < |s|
  {
    LatestEnd(s, i).Some? && s[i].start <= LatestEnd(s, i).value
  }

  // ---- Any ledger whose only open session is the last to start

  /** All closed but possibly the last, which starts no earlier than any other. */
  predicate LastMayBeOpen(s: seq<Interval>) {
    && (forall i :: 0 <= i < |s| ==> Proper(s[i]))
    && (forall i :: 0 <= i < |s| - 1 ==> s[i].end.Some? && s[i].start <= s[|s| - 1].start)
  }

  lemma AppendRegular(s: seq<Interval>, last: Interval)
    requires Sorted(s) && Proper(last)
    requires forall v :: v in s ==> v.start <= last.start && v.end.Some? && Proper(v)
    ensures Insert(s, last) == s + [last] && Regular(s + [last])
  {
    forall i | 0 <= i < |s|
      ensures s[i].start <= last.start && s[i].end.Some? && Proper(s[i])
    {
      assert s[i] in s;
    }
  }

  lemma SortedIsRegular(s: seq<Interval>)
    requires s != [] && LastMayBeOpen(s)
    ensures Regular(Sort(s)) && |Sort(s)| == |s| && Sort(s)[|s| - 1] == s[|s| - 1]
  {
    var before, last := s[..|s| - 1], s[|s| - 1];
    SortKeeps(before);
    AppendRegular(Sort(before), last);
  }

  lemma SameIdle(s: seq<Interval>, t: seq<Interval>, lo: int, hi: int)
    requires forall v :: v in s <==> v in t
    ensures Idle(s, lo, hi) == Idle(t, lo, hi)
  {
    forall ms: int | lo <= ms < hi
      ensures Covered(s, ms) <==> Covered(t, ms)
    {
    }
  }

  lemma RegularHasNoError(s: seq<Interval>)
    requires s != [] && Regular(s)
    ensures Error(s, |s|) == 0
  {
    if |s| > 1 {
      CaughtWhenProper(s);
      ErrorIsZeroExactly(s, |s|);
    }
  }

  /** The sorted sweep measures exactly the milliseconds between the earliest and the latest start that no
      closed session covers. */
  lemma SweepMeasuresIdleTime(s: seq<Interval>, earliest: int, latest: int)
    requires s != [] && LastMayBeOpen(s)
    requires (exists i :: 0 <= i < |s| && s[i].start == earliest) && forall i :: 0 <= i < |s| ==> earliest <= s[i].start
    requires (exists i :: 0 <= i < |s| && s[i].start == latest) && forall i :: 0 <= i < |s| ==> s[i].start <= latest
    ensures |Sort(s)| == |s|
    ensures Excluded(Sort(s), |s|) == |Idle(s, earliest, latest)|
  {
    SortedIsRegular(s);
    SortKeeps(s);
    var t := Sort(s);
    assert t[0] in t && t[0] in s;
    var i :| 0 <= i < |s| && s[i].start == earliest;
    assert s[i] in t;
    assert t[0].start == earliest && t[|t| - 1].start == latest;
    RegularHasNoError(t);
    SweepIsOffBy(t, |t|);
    SameIdle(s, t, earliest, latest);
  }

  /** Three ways to be off: an open session in the middle counts 10 milliseconds again, an open session in front hides
      20, and a session that ends before it starts adds 10. */
  lemma SweepCanBeOff()
    ensures var s := [Interval(0, Some(10)), Interval(20, None), Interval(30, Some(40))];
            Excluded(s, 3) == |Idle(s, 0, 30)| + 10
    ensures var s := [Interval(0, None), Interval(20, Some(30))];
            Excluded(s, 2) == |Idle(s, 0, 20)| - 20
    ensures var s := [Interval(10, Some(0)), Interval(20, Some(30))];
            Excluded(s, 2) == |Idle(s, 10, 20)| + 10
  {
    var a, b, c := [Interval(0, Some(10)), Interval(20, None), Interval(30, Some(40))],
                   [Interval(0, None), Interval(20, Some(30))], [Interval(10, Some(0)), Interval(20, Some(30))];
    ThreeOff(a);
    SweepIsOffBy(a, 3);
    TwoOff(b);
    SweepIsOffBy(b, 2);
    TwoOff(c);
    SweepIsOffBy(c, 2);
  }

  lemma TwoOff(s: seq<Interval>)
    requires |s| == 2
    ensures Error(s, 2) == match s[0].end
                           case None => s[0].start - s[1].start
                           case Some(end) => if s[0].start > end then s[0].start - end else 0
  {
    assert LatestEnd(s, 0) == None && LatestEnd(s, 1) == s[0].end;
    assert Error(s, 1) == 0;
  }

  lemma ThreeOff(s: seq<Interval>)
    requires |s| == 3 && s[0] == Interval(0, Some(10)) && s[1] == Interval(20, None)
    ensures Error(s, 3) == 10
  {
    assert LatestEnd(s, 0) == None && LatestEnd(s, 1) == Some(10) && LatestEnd(s, 2) == Some(10);
    assert Error(s, 1) == 0 && Error(s, 2) == 0;
  }

  // ---- Reachable ledgers under a monotone clock

  /** Sessions follow one another in time, none reaching beyond the clock, and carry their durations. */
  predicate Timed(s: seq<Session>, clock: int) {
    && (forall i :: 0 <= i < |s| ==> s[i].start <= clock)
    && (forall i :: 0 <= i < |s| && s[i].end.Some? ==>
          s[i].start <= s[i].end.value <= clock && s[i].duration == Some(s[i].end.value - s[i].start))
    && (forall i :: 0 <= i < |s| && s[i].end.None? ==> s[i].duration.None?)
    && (forall i, j :: 0 <= i < j < |s| && s[i].end.Some? ==> s[i].end.value <= s[j].start)
  }

  /** The clock after a call. */
  function Tick(call: Call, clock: int): int {
    match call
    case Reconcile(_, fallback) => if fallback > clock then fallback else clock
    case Open(_, _, now) => now
    case Close(_, _, now) => now
  }

  /** The call's clock has not gone back, and a fallback end is not before the start of a session it may end. */
  predicate Timely(s: seq<Session>, call: Call, clock: int) {
    match call
    case Reconcile(_, fallback) => forall i :: 0 <= i < |s| && IsOpen(s[i]) ==> s[i].start <= fallback
    case Open(_, fallback, now) =>
      clock <= now && forall i :: 0 <= i < |s| && IsOpen(s[i]) ==> s[i].start <= fallback <= now
    case Close(_, _, now) => clock <= now
  }

  predicate TimelyAll(s: seq<Session>, calls: seq<Call>, clock: int)
    decreases |calls|
  {
    calls == [] || (Timely(s, calls[0], clock) && TimelyAll(Apply(s, calls[0]), calls[1..], Tick(calls[0], clock)))
  }

  lemma ReconcileKeepsTimed(s: seq<Session>, live: Liveness, fallback: int, clock: int, later: int)
    requires Tidy(s) && Timed(s, clock) && clock <= later
    requires forall i :: 0 <= i < |s| && IsOpen(s[i]) ==> s[i].start <= fallback <= later
    ensures Timed(ReconcileAll(s, live, fallback), later)
  {
  }

  lemma CloseKeepsTimed(s: seq<Session>, id: string, status: string, now: int, clock: int)
    requires Tidy(s) && Timed(s, clock) && clock <= now
    ensures Timed(Apply(s, Close(id, status, now)), now)
  {
    var i := Find(s, id);
    if i < |s| && s[i].end.None? {
      EndKeepsTimed(s, i, status, now, clock);
    }
  }

  lemma EndKeepsTimed(s: seq<Session>, i: nat, status: string, now: int, clock: int)
    requires Timed(s, clock) && clock <= now && i == |s| - 1 && s[i].end.None?
    ensures Timed(s[i := Ended(s[i], now, status)], now)
  {
  }

  lemma AppendKeepsTimed(t: seq<Session>, next: Session, now: int)
    requires Timed(t, now) && next.start == now && next.end.None? && next.duration.None?
    ensures Timed(t + [next], now)
  {
  }

  lemma ApplyKeepsTimed(s: seq<Session>, call: Call, clock: int)
    requires Orderly(s) && Timed(s, clock) && Timely(s, call, clock)
    ensures Timed(Apply(s, call), Tick(call, clock))
  {
    match call
    case Reconcile(live, fallback) => ReconcileKeepsTimed(s, live, fallback, clock, Tick(call, clock));
    case Open(live, fallback, now) =>
      var t := ReconcileAll(s, live, fallback);
      ReconcileKeepsTimed(s, live, fallback, clock, now);
      if !AnyLive(t, live) {
        ReconcileKeeps(s, live, fallback);
        AllEnded(t, live);
        AppendKeepsTimed(t, NewSession(t, now), now);
      }
    case Close(id, status, now) => CloseKeepsTimed(s, id, status, now, clock);
  }

  lemma {:induction false} HistoryKeepsTimed(s: seq<Session>, calls: seq<Call>, clock: int) returns (later: int)
    requires Orderly(s) && Timed(s, clock) && TimelyAll(s, calls, clock)
    ensures Orderly(ApplyAll(s, calls)) && Timed(ApplyAll(s, calls), later)
    decreases |calls|
  {
    later := clock;
    if calls != [] {
      ApplyKeepsTimed(s, calls[0], clock);
      ApplyKeepsOrderly(s, calls[0]);
      later := HistoryKeepsTimed(Apply(s, calls[0]), calls[1..], Tick(calls[0], clock));
    }
  }

  function Intervals(sessions: seq<Session>): (r: seq<Interval>)
    ensures |r| == |sessions| && forall i :: 0 <= i < |r| ==> r[i] == Interval(sessions[i].start, sessions[i].end)
  {
    seq(|sessions|, i requires 0 <= i < |sessions| => Interval(sessions[i].start, sessions[i].end))
  }

  lemma TimedIntervals(s: seq<Session>, clock: int)
    requires Tidy(s) && Timed(s, clock)
    ensures Regular(Intervals(s)) && LastMayBeOpen(Intervals(s))
  {
  }

  /** In every ledger reached with a monotone clock, the excluded time is the number of milliseconds between the first
      and the last start that no closed session covers. */
  lemma ReachableSweep(calls: seq<Call>, clock: int)
    requires TimelyAll([], calls, clock) && ApplyAll([], calls) != []
    ensures var s := Intervals(ApplyAll([], calls));
            |Sort(s)| == |s| && Excluded(Sort(s), |s|) == |Idle(s, s[0].start, s[|s| - 1].start)|
  {
    var later := HistoryKeepsTimed([], calls, clock);
    var s := Intervals(ApplyAll([], calls));
    TimedIntervals(ApplyAll([], calls), later);
    SweepMeasuresIdleTime(s, s[0].start, s[|s| - 1].start);
  }

  // ---- The whole computation

  /** A session's part of the active time: its duration, or the time since its start while it is open and alive. */
  function Contribution(s: Session, now: int, live: Liveness): int {
    if s.duration.Some? && s.duration.value >= 0 then s.duration.value
    else if IsOpen(s) && live(s) && now > s.start then now - s.start
    else 0
  }

  function Active(sessions: seq<Session>, k: nat, now: int, live: Liveness): int
    requires k <= |sessions|
  {
    if k == 0 then 0 else Active(sessions, k - 1, now, live) + Contribution(sessions[k - 1], now, live)
  }

  /** `compute_active_runtime`: the active time, unknown for an empty ledger, and the excluded time. */
  method ComputeActiveRuntime(sessions: seq<Session>, now: int, live: Liveness) returns (active: Option<int>, excluded: nat)
    ensures active == if sessions == [] then None else Some(Active(sessions, |sessions|, now, live))
    ensures |Sort(Intervals(sessions))| == |sessions|
    ensures excluded == Excluded(Sort(Intervals(sessions)), |sessions|)
  {
    SortKeeps(Intervals(sessions));
    excluded := 0;
    if sessions == [] {
      return None, 0;
    }
    var total := 0;
    var normalized: seq<Interval> := [];
    for i := 0 to |sessions|
      invariant total == Active(sessions, i, now, live)
      invariant |normalized| == i && forall j :: 0 <= j < i ==> normalized[j] == Interval(sessions[j].start, sessions[j].end)
    {
      total := total + Contribution(sessions[i], now, live);
      normalized := normalized + [Interval(sessions[i].start, sessions[i].end)];
    }
    assert normalized == Intervals(sessions);
    var sorted := Sort(normalized);
    var previousEnd: Option<int> := None;
    for k := 0 to |sorted|
      invariant previousEnd == LatestEnd(sorted, k) && excluded == Excluded(sorted, k)
    {
      if previousEnd.Some? && sorted[k].start > previousEnd.value {
        excluded := excluded + (sorted[k].start - previousEnd.value);
      }
      if sorted[k].end.Some? && (previousEnd.None? || sorted[k].end.value > previousEnd.value) {
        previousEnd := sorted[k].end;
      }
    }
    active := Some(total);
  }

  lemma {:induction false} SortOfSorted(s: seq<Interval>)
    requires Sorted(s)
    ensures Sort(s) == s
  {
    if s != [] {
      var before, last := s[..|s| - 1], s[|s| - 1];
      SortOfSorted(before);
      InsertLast(before, last);
      assert s == before + [last];
    }
  }

  lemma InsertLast(s: seq<Interval>, x: Interval)
    requires s != [] ==> s[|s| - 1].start <= x.start
    ensures Insert(s, x) == s + [x]
  {
  }

  /** Active and excluded time of the first `k` sessions together span them without a remainder. */
  lemma {:induction false} TimeSpans(s: seq<Session>, k: nat, clock: int, now: int, live: Liveness)
    requires Timed(s, clock) && 0 < k <= |s| && forall i :: 0 <= i < k ==> s[i].end.Some?
    ensures LatestEnd(Intervals(s), k) == s[k - 1].end
    ensures Active(s, k, now, live) + Excluded(Intervals(s), k) == s[k - 1].end.value - s[0].start
  {
    if k > 1 {
      TimeSpans(s, k - 1, clock, now, live);
      assert s[k - 2].end.value <= s[k - 1].start;
    } else {
      assert LatestEnd(Intervals(s), 0) == None;
      assert Active(s, 0, now, live) == 0 && Excluded(Intervals(s), 0) == 0;
    }
  }

  /** Where the active time of the ledger ends: at the end of the last session, at now if it is still alive, and at its
      start if it is open and its process is dead, or if the clock is behind it. */
  function ActiveUntil(last: Session, now: int, live: Liveness): int {
    if last.end.Some? then last.end.value else if live(last) && now > last.start then now else last.start
  }

  /** Conservation of time: in every reachable ledger, active plus excluded time is the time from the first start to
      where the active time ends. */
  lemma TimeIsConserved(calls: seq<Call>, clock: int, now: int, live: Liveness)
    requires TimelyAll([], calls, clock) && ApplyAll([], calls) != []
    ensures var s := ApplyAll([], calls);
            && |Sort(Intervals(s))| == |s|
            && Active(s, |s|, now, live) + Excluded(Sort(Intervals(s)), |s|) ==
                 ActiveUntil(s[|s| - 1], now, live) - s[0].start
  {
    var later := HistoryKeepsTimed([], calls, clock);
    var s := ApplyAll([], calls);
    TimedIntervals(s, later);
    SortOfSorted(Intervals(s));
    Conserved(s, later, now, live);
  }

  lemma Conserved(s: seq<Session>, clock: int, now: int, live: Liveness)
    requires Tidy(s) && Timed(s, clock) && s != []
    ensures Active(s, |s|, now, live) + Excluded(Intervals(s), |s|) == ActiveUntil(s[|s| - 1], now, live) - s[0].start
  {
    var n := |s|;
    if s[n - 1].end.Some? {
      TimeSpans(s, n, clock, now, live);
    } else if n > 1 {
      TimeSpans(s, n - 1, clock, now, live);
      assert s[n - 2].end.value <= s[n - 1].start;
      assert IsOpen(s[n - 1]);
    } else {
      assert LatestEnd(Intervals(s), 0) == None;
      assert Active(s, 0, now, live) == 0 && Excluded(Intervals(s), 0) == 0;
    }
  }

  /** Without a live open session the active time does not depend on the clock. */
  lemma {:induction false} DeadTimeStandsStill(s: seq<Session>, k: nat, now: int, later: int, live: Liveness)
    requires k <= |s| && forall i :: 0 <= i < |s| && IsOpen(s[i]) ==> !live(s[i])
    ensures Active(s, k, now, live) == Active(s, k, later, live)
  {
    if k > 0 {
      DeadTimeStandsStill(s, k - 1, now, later, live);
    }
  }

  /** A live open session without a recorded duration adds one millisecond a millisecond, from its start on. */
  lemma LiveTimeRuns(s: Session, now: int, later: int, live: Liveness)
    requires IsOpen(s) && s.duration.None? && live(s) && s.start <= now <= later
    ensures Contribution(s, later, live) - Contribution(s, now, live) == later - now && Contribution(s, s.start, live) == 0
  {
  }
}
