/** The pilot controller over a whole history of runs, each of which may crash anywhere
    (orchestrator/experiments/_pilot_controller.py). */
module PilotController {
  import opened Text

  datatype Status = Started | Valid | Invalid | Aborted

  /** A block's evidence: a directory without a record yet, or a record. */
  datatype Attempt = DirectoryOnly | Recorded(status: Status)

  datatype Lock = Lock(
    smokeId: string,
    liveIds: seq<string>,
    target: nat,
    maximum: nat,
    reviewers: seq<string>,
    calibration: set<string>)

  type Attempts = map<string, Attempt>

  /** One review slot: a block and a reviewer. */
  type Slot = (string, string)

  predicate Distinct(s: seq<string>) {
    forall i, j :: 0 <= i < j < |s| ==> s[i] != s[j]
  }

  /** The locked identifiers are pairwise distinct. */
  predicate LockOk(lock: Lock) {
    lock.smokeId !in lock.liveIds && Distinct(lock.liveIds)
  }

  function Limit(lock: Lock): nat {
    if lock.maximum < |lock.liveIds| then lock.maximum else |lock.liveIds|
  }

  /** The blocks among the first `n` live ids that have a VALID record, in order. */
  function ValidBlocks(a: Attempts, ids: seq<string>, n: nat): (blocks: seq<string>)
    requires n <= |ids|
    ensures |blocks| <= n
  {
    if n == 0 then []
    else
      ValidBlocks(a, ids, n - 1) +
      (if ids[n - 1] in a && a[ids[n - 1]] == Recorded(Valid) then [ids[n - 1]] else [])
  }

  lemma {:induction false} ValidBlocksSame(a: Attempts, b: Attempts, ids: seq<string>, n: nat)
    requires n <= |ids|
    requires forall i :: 0 <= i < n ==> (ids[i] in a <==> ids[i] in b) && (ids[i] in a ==> a[ids[i]] == b[ids[i]])
    ensures ValidBlocks(a, ids, n) == ValidBlocks(b, ids, n)
  {
    if n > 0 {
      ValidBlocksSame(a, b, ids, n - 1);
    }
  }

  // ---- What reachable evidence looks like

  /** The live attempts are the first `n` locked ids; each was begun after a VALID smoke and with the
      denominator not yet reached, and only the last can lack its record. */
  predicate PrefixOf(lock: Lock, a: Attempts, n: nat) {
    && n <= Limit(lock)
    && (forall i :: 0 <= i < |lock.liveIds| ==> (lock.liveIds[i] in a <==> i < n))
    && (forall i :: 0 <= i < n - 1 ==> a[lock.liveIds[i]].Recorded?)
    && (n > 0 ==> lock.smokeId in a && a[lock.smokeId] == Recorded(Valid))
    && (forall i :: 0 <= i < n ==> |ValidBlocks(a, lock.liveIds, i)| < lock.target)
  }

  /** No further live attempt will be made. */
  predicate Settled(lock: Lock, a: Attempts, n: nat) {
    && PrefixOf(lock, a, n)
    && (n == Limit(lock) || |ValidBlocks(a, lock.liveIds, n)| >= lock.target)
    && (n > 0 ==> a[lock.liveIds[n - 1]].Recorded?)
  }

  lemma ValidNeverExceedsTarget(lock: Lock, a: Attempts, n: nat)
    requires PrefixOf(lock, a, n)
    ensures |ValidBlocks(a, lock.liveIds, n)| <= lock.target
    ensures n <= lock.maximum
  {
    if n > 0 {
      assert |ValidBlocks(a, lock.liveIds, n - 1)| < lock.target;
    }
  }

  /** The next attempt keeps the prefix, whatever becomes of it. */
  lemma PrefixExtends(lock: Lock, a: Attempts, n: nat, attempt: Attempt)
    requires LockOk(lock) && PrefixOf(lock, a, n) && n < Limit(lock)
    requires lock.smokeId in a && a[lock.smokeId] == Recorded(Valid)
    requires n > 0 ==> a[lock.liveIds[n - 1]].Recorded?
    requires |ValidBlocks(a, lock.liveIds, n)| < lock.target
    ensures PrefixOf(lock, a[lock.liveIds[n] := attempt], n + 1)
    ensures ValidBlocks(a[lock.liveIds[n] := attempt], lock.liveIds, n) == ValidBlocks(a, lock.liveIds, n)
  {
    var b := a[lock.liveIds[n] := attempt];
    forall i | 0 <= i <= n
      ensures ValidBlocks(b, lock.liveIds, i) == ValidBlocks(a, lock.liveIds, i)
    {
      ValidBlocksSame(a, b, lock.liveIds, i);
    }
  }

  // ---- The loader

  datatype LoadError = Incomplete | Gap | AfterFailedSmoke | AfterDenominator

  /** The smoke record, if any, and the statuses of the live records in order. */
  datatype Loaded = Loaded(smoke: Option<Status>, live: seq<Status>) | Rejected(error: LoadError)

  /** `_read_optional_attempt`, for records that the locked runner wrote. */
  function ReadAttempt(a: Attempts, id: string): Option<Attempt> {
    if id in a then Some(a[id]) else None
  }

  /** What the loader accepts: complete records that form a prefix begun after a VALID smoke and
      never beyond the denominator. */
  predicate Loadable(lock: Lock, a: Attempts, n: nat) {
    && n <= |lock.liveIds|
    && (lock.smokeId in a ==> a[lock.smokeId].Recorded?)
    && (forall i :: 0 <= i < |lock.liveIds| ==> (lock.liveIds[i] in a <==> i < n))
    && (forall i :: 0 <= i < n ==> a[lock.liveIds[i]].Recorded?)
    && (n > 0 ==> lock.smokeId in a && a[lock.smokeId] == Recorded(Valid))
    && (forall i :: 0 <= i < n ==> |ValidBlocks(a, lock.liveIds, i)| < lock.target)
  }

  function Statuses(a: Attempts, ids: seq<string>, n: nat): seq<Status>
    requires n <= |ids|
    requires forall i :: 0 <= i < n ==> ids[i] in a && a[ids[i]].Recorded?
  {
    if n == 0 then [] else Statuses(a, ids, n - 1) + [a[ids[n - 1]].status]
  }

  /** What the loader knows after `i` live ids, `count` of which have records. */
  ghost predicate LoadedSoFar(lock: Lock, a: Attempts, i: nat, count: nat, valid: nat, gapSeen: bool) {
    && count <= i <= |lock.liveIds|
    && (lock.smokeId in a ==> a[lock.smokeId].Recorded?)
    && (forall j :: 0 <= j < i ==> (lock.liveIds[j] in a <==> j < count))
    && (forall j :: 0 <= j < count ==> a[lock.liveIds[j]].Recorded?)
    && (count > 0 ==> lock.smokeId in a && a[lock.smokeId] == Recorded(Valid))
    && (forall j :: 0 <= j < count ==> |ValidBlocks(a, lock.liveIds, j)| < lock.target)
    && valid == |ValidBlocks(a, lock.liveIds, count)|
    && (gapSeen <==> lock.smokeId !in a || count < i)
  }

  /** One more id: without evidence, or with a record that may follow. */
  lemma LoadedStep(lock: Lock, a: Attempts, i: nat, count: nat, valid: nat, gapSeen: bool)
    requires LoadedSoFar(lock, a, i, count, valid, gapSeen) && i < |lock.liveIds|
    ensures lock.liveIds[i] !in a ==> LoadedSoFar(lock, a, i + 1, count, valid, true)
    ensures (lock.liveIds[i] in a && a[lock.liveIds[i]].Recorded? && !gapSeen && a[lock.smokeId] == Recorded(Valid) && valid < lock.target) ==>
              LoadedSoFar(lock, a, i + 1, count + 1, if a[lock.liveIds[i]].status == Valid then valid + 1 else valid, gapSeen)
  {
  }

  /** What the loader refuses is neither loadable nor, unless incomplete, reachable. */
  lemma RefusedRightly(lock: Lock, a: Attempts, i: nat, count: nat, valid: nat, gapSeen: bool, n: nat)
    requires LoadedSoFar(lock, a, i, count, valid, gapSeen) && i < |lock.liveIds| && lock.liveIds[i] in a
    requires gapSeen || a[lock.smokeId] != Recorded(Valid) || valid >= lock.target
    ensures !Loadable(lock, a, n) && !PrefixOf(lock, a, n)
  {
    assert count < i ==> lock.liveIds[count] !in a;
  }

  /** `load_attempt_prefix`: it succeeds exactly on loadable evidence, and on reachable evidence the only
      error it can report is an incomplete attempt. */
  method LoadAttemptPrefix(lock: Lock, a: Attempts) returns (r: Loaded)
    ensures r.Loaded? ==> Loadable(lock, a, |r.live|) && r.live == Statuses(a, lock.liveIds, |r.live|)
    ensures r.Loaded? ==> r.smoke == if lock.smokeId in a then Some(a[lock.smokeId].status) else None
    ensures r.Rejected? ==> forall n :: !Loadable(lock, a, n)
    ensures r.Rejected? && r.error != Incomplete ==> forall n :: !PrefixOf(lock, a, n)
  {
    var found := ReadAttempt(a, lock.smokeId);
    if found == Some(DirectoryOnly) {
      return Rejected(Incomplete);
    }
    var smoke := if found.Some? then Some(found.value.status) else None;
    var live: seq<Status> := [];
    var gapSeen, valid := smoke.None?, 0;
    for i := 0 to |lock.liveIds|
      invariant LoadedSoFar(lock, a, i, |live|, valid, gapSeen)
      invariant live == Statuses(a, lock.liveIds, |live|)
    {
      LoadedStep(lock, a, i, |live|, valid, gapSeen);
      match ReadAttempt(a, lock.liveIds[i])
      case Some(DirectoryOnly) => return Rejected(Incomplete);
      case None => gapSeen := true;
      case Some(Recorded(status)) =>
        if gapSeen || smoke != Some(Valid) || valid >= lock.target {
          forall n ensures !Loadable(lock, a, n) && !PrefixOf(lock, a, n) {
            RefusedRightly(lock, a, i, |live|, valid, gapSeen, n);
          }
          return Rejected(if gapSeen then Gap else if smoke != Some(Valid) then AfterFailedSmoke else AfterDenominator);
        }
        live := live + [status];
        if status == Valid {
          valid := valid + 1;
        }
    }
    r := Loaded(smoke, live);
  }

  // ---- Reviews

  /** The first review slot that a run would visit. */
  predicate FirstSlot(lock: Lock, a: Attempts, n: nat, slot: Slot)
    requires n <= |lock.liveIds|
  {
    var blocks := ValidBlocks(a, lock.liveIds, n);
    blocks != [] && lock.reviewers != [] && slot == (blocks[0], lock.reviewers[0])
  }

  /** Published sessions are new and pairwise distinct. */
  predicate SessionsOk(lock: Lock, reviews: map<Slot, string>) {
    && (forall k :: k in reviews ==> reviews[k] !in lock.calibration)
    && (forall k, l :: k in reviews && l in reviews && k != l ==> reviews[k] != reviews[l])
  }

  /** Once anything is published, the attempts are settled and the first slot is among the published ones. */
  ghost predicate ReviewsOk(lock: Lock, a: Attempts, reviews: map<Slot, string>) {
    && SessionsOk(lock, reviews)
    && (reviews != map[] ==> exists n, slot :: Settled(lock, a, n) && FirstSlot(lock, a, n, slot) && slot in reviews)
  }

  lemma PrefixLengthUnique(lock: Lock, a: Attempts, n: nat, m: nat)
    requires PrefixOf(lock, a, n) && PrefixOf(lock, a, m)
    ensures n == m
  {
    assert n < |lock.liveIds| ==> lock.liveIds[n] !in a;
    assert m < |lock.liveIds| ==> lock.liveIds[m] !in a;
  }

  /** Distinct new sessions, all published by one and the same run. */
  ghost predicate Consistent(lock: Lock, reviews: map<Slot, string>, publisher: map<Slot, nat>) {
    && SessionsOk(lock, reviews)
    && publisher.Keys == reviews.Keys
    && forall k, l :: k in publisher && l in publisher ==> publisher[k] == publisher[l]
  }

  ghost predicate EvidenceOk(lock: Lock, a: Attempts, reviews: map<Slot, string>, publisher: map<Slot, nat>) {
    && (exists n :: PrefixOf(lock, a, n))
    && ReviewsOk(lock, a, reviews)
    && Consistent(lock, reviews, publisher)
  }

  lemma UnsettledHasNoReviews(lock: Lock, a: Attempts, reviews: map<Slot, string>, n: nat)
    requires ReviewsOk(lock, a, reviews) && PrefixOf(lock, a, n)
    requires n < Limit(lock) && |ValidBlocks(a, lock.liveIds, n)| < lock.target
    ensures reviews == map[]
  {
    if reviews != map[] {
      var m, slot :| Settled(lock, a, m) && FirstSlot(lock, a, m, slot) && slot in reviews;
      PrefixLengthUnique(lock, a, n, m);
    }
  }

  /** The attempt phase after `n` complete live attempts, with the packaged blocks. */
  ghost predicate Underway(lock: Lock, a: Attempts, reviews: map<Slot, string>, n: nat, packages: seq<string>) {
    && LockOk(lock)
    && PrefixOf(lock, a, n)
    && packages == ValidBlocks(a, lock.liveIds, n)
    && (n > 0 ==> a[lock.liveIds[n - 1]].Recorded?)
    && lock.smokeId in a && a[lock.smokeId] == Recorded(Valid)
    && ReviewsOk(lock, a, reviews)
  }

  // ---- What an undisturbed run does

  /** What a run meets: whether anything stops it or fails by itself, how blocks end, and the sessions that reviewers get. */
  datatype World = World(calm: bool, status: string -> Status, session: Slot -> string)

  /** How a block ends when its runner returns; never as STARTED. */
  function Ends(world: World, id: string): (status: Status)
    ensures status != Started
  {
    if world.status(id) == Started then Aborted else world.status(id)
  }

  /** The run may be stopped here, unless the world is calm. */
  method Stops(world: World) returns (stop: bool)
    ensures world.calm ==> !stop
  {
    stop := *;
    if world.calm {
      stop := false;
    }
  }

  /** What the evidence holds about review slots: launch intents, transport completions with their sessions, reviews with
      theirs, and the run that published each review. */
  datatype Kept = Kept(intents: set<Slot>, transports: map<Slot, string>, reviews: map<Slot, string>, publisher: map<Slot, nat>)

  /** Nothing was begun for this slot, or only its review is missing. */
  predicate SlotOpen(e: Kept, slot: Slot) {
    slot !in e.reviews && (slot in e.intents <==> slot in e.transports)
  }

  /** The session of a slot: the one on file, or the one that the reviewer gets. */
  function SlotSession(e: Kept, world: World, slot: Slot): string {
    if slot in e.transports then e.transports[slot] else world.session(slot)
  }

  /** Every slot is open and listed once, and the sessions are new and pairwise distinct. */
  ghost predicate Ready(lock: Lock, e: Kept, world: World, slots: seq<Slot>) {
    && (forall i :: 0 <= i < |slots| ==> SlotOpen(e, slots[i]) && SlotSession(e, world, slots[i]) !in lock.calibration)
    && (forall i, j :: 0 <= i < j < |slots| ==>
          slots[i] != slots[j] && SlotSession(e, world, slots[i]) != SlotSession(e, world, slots[j]))
  }

  ghost function SlotSessions(e: Kept, world: World, slots: seq<Slot>): map<Slot, string> {
    map slot | slot in slots :: SlotSession(e, world, slot)
  }

  ghost function ByRun(slots: seq<Slot>, run: nat): map<Slot, nat> {
    map slot | slot in slots :: run
  }

  /** The evidence after `run` has reviewed all `slots`. */
  ghost function Reviewed(e: Kept, world: World, slots: seq<Slot>, run: nat): Kept {
    var sessions := SlotSessions(e, world, slots);
    Kept(e.intents + sessions.Keys, e.transports + sessions, e.reviews + sessions, e.publisher + ByRun(slots, run))
  }

  /** The slots of a block for the first `n` reviewers, and those of the first `n` blocks, in the order of the visits. */
  function BlockSlots(block: string, reviewers: seq<string>, n: nat): (slots: seq<Slot>)
    requires n <= |reviewers|
    ensures |slots| == n && forall i :: 0 <= i < n ==> slots[i] == (block, reviewers[i])
  {
    seq(n, i requires 0 <= i < n => (block, reviewers[i]))
  }

  function AllSlots(blocks: seq<string>, reviewers: seq<string>, n: nat): seq<Slot>
    requires n <= |blocks|
  {
    if n == 0 then []
    else Visited(AllSlots(blocks, reviewers, n - 1), blocks[n - 1], reviewers, |reviewers|)
  }

  /** `done`, and then the slots of a block for the first `n` reviewers. */
  function Visited(done: seq<Slot>, block: string, reviewers: seq<string>, n: nat): seq<Slot>
    requires n <= |reviewers|
  {
    done + BlockSlots(block, reviewers, n)
  }

  /** The first slot of all is `first`. */
  ghost predicate StartsWith(done: seq<Slot>, block: string, reviewers: seq<string>, first: Slot) {
    if done == [] then reviewers != [] ==> first == (block, reviewers[0]) else done[0] == first
  }

  lemma {:induction false} SlotsStartWith(blocks: seq<string>, reviewers: seq<string>, n: nat)
    requires n <= |blocks|
    ensures var slots := AllSlots(blocks, reviewers, n);
            if n == 0 || reviewers == [] then slots == [] else slots != [] && slots[0] == (blocks[0], reviewers[0])
  {
    if n > 0 {
      SlotsStartWith(blocks, reviewers, n - 1);
    }
  }

  /** The slots are those of every block with every reviewer. */
  lemma {:induction false} AllSlotsAreAll(blocks: seq<string>, reviewers: seq<string>, n: nat, slot: Slot)
    requires n <= |blocks|
    ensures slot in AllSlots(blocks, reviewers, n) <==> slot.0 in blocks[..n] && slot.1 in reviewers
  {
    if n > 0 {
      AllSlotsAreAll(blocks, reviewers, n - 1, slot);
      var own := BlockSlots(blocks[n - 1], reviewers, |reviewers|);
      assert blocks[..n] == blocks[..n - 1] + [blocks[n - 1]];
      if slot.0 == blocks[n - 1] && slot.1 in reviewers {
        var i :| 0 <= i < |reviewers| && reviewers[i] == slot.1;
        assert own[i] == slot;
      }
    }
  }

  lemma ReadyPrefix(lock: Lock, e: Kept, world: World, slots: seq<Slot>, more: seq<Slot>)
    requires Ready(lock, e, world, slots + more)
    ensures Ready(lock, e, world, slots)
  {
    assert forall i :: 0 <= i < |slots| ==> slots[i] == (slots + more)[i];
  }

  /** The state of a review phase after `done`: all of it went well, and the ledger holds its sessions. */
  ghost predicate SlotsDone(lock: Lock, e: Kept, world: World, done: seq<Slot>, run: nat, now: Kept, used: set<string>) {
    && Ready(lock, e, world, done)
    && now == Reviewed(e, world, done, run)
    && used == lock.calibration + SlotSessions(e, world, done).Values
  }

  /** What `run_live_review_slot` needs to succeed. */
  predicate SlotFree(now: Kept, world: World, slot: Slot, used: set<string>) {
    SlotOpen(now, slot) && SlotSession(now, world, slot) !in used
  }

  /** Reviewing `done` leaves every other slot as it was. */
  lemma OthersKept(e: Kept, world: World, done: seq<Slot>, run: nat, slot: Slot)
    ensures slot in done ==> slot in Reviewed(e, world, done, run).reviews
    ensures slot !in done ==> var now := Reviewed(e, world, done, run);
                              SlotOpen(now, slot) == SlotOpen(e, slot) && SlotSession(now, world, slot) == SlotSession(e, world, slot)
  {
  }

  lemma ReadyStep(lock: Lock, e: Kept, world: World, done: seq<Slot>, slot: Slot)
    requires Ready(lock, e, world, done)
    ensures Ready(lock, e, world, done + [slot]) <==>
              && slot !in done && SlotOpen(e, slot) && SlotSession(e, world, slot) !in lock.calibration
              && (forall i :: 0 <= i < |done| ==> SlotSession(e, world, done[i]) != SlotSession(e, world, slot))
  {
    var more := done + [slot];
    assert more[|done|] == slot && forall i :: 0 <= i < |done| ==> more[i] == done[i];
    if slot in done {
      var i :| 0 <= i < |done| && done[i] == slot;
      assert more[i] == more[|done|];
    }
  }

  /** A slot after `done` is free exactly when the evidence was ready for it from the start. */
  lemma SlotFreeExactly(lock: Lock, e: Kept, world: World, done: seq<Slot>, run: nat, now: Kept, used: set<string>, slot: Slot)
    requires SlotsDone(lock, e, world, done, run, now, used)
    ensures Ready(lock, e, world, done + [slot]) <==> SlotFree(now, world, slot, used)
    ensures SlotFree(now, world, slot, used) ==> slot !in done && SlotSession(now, world, slot) == SlotSession(e, world, slot)
  {
    ReadyStep(lock, e, world, done, slot);
    OthersKept(e, world, done, run, slot);
    SessionTaken(e, world, done, SlotSession(e, world, slot));
  }

  lemma SessionTaken(e: Kept, world: World, done: seq<Slot>, session: string)
    ensures session in SlotSessions(e, world, done).Values <==> exists i :: 0 <= i < |done| && SlotSession(e, world, done[i]) == session
  {
    var sessions := SlotSessions(e, world, done);
    if session in sessions.Values {
      var other :| other in sessions && sessions[other] == session;
      var i :| 0 <= i < |done| && done[i] == other;
      assert SlotSession(e, world, done[i]) == session;
    }
    if i :| 0 <= i < |done| && SlotSession(e, world, done[i]) == session {
      assert sessions[done[i]] in sessions.Values;
    }
  }

  lemma SlotsDoneStep(lock: Lock, e: Kept, world: World, done: seq<Slot>, run: nat, now: Kept, used: set<string>, slot: Slot, next: Kept, session: string)
    requires SlotsDone(lock, e, world, done, run, now, used) && SlotDone(now, world, slot, used, run, next, session)
    ensures SlotsDone(lock, e, world, done + [slot], run, next, used + {session})
  {
    SlotFreeExactly(lock, e, world, done, run, now, used, slot);
    LedgerStep(lock, e, world, done, used, slot);
    ReviewedStep(e, world, done, slot, run);
  }

  lemma LedgerStep(lock: Lock, e: Kept, world: World, done: seq<Slot>, used: set<string>, slot: Slot)
    requires slot !in done && used == lock.calibration + SlotSessions(e, world, done).Values
    ensures used + {SlotSession(e, world, slot)} == lock.calibration + SlotSessions(e, world, done + [slot]).Values
  {
    SessionsStep(e, world, done, slot);
  }

  lemma ReviewedStep(e: Kept, world: World, done: seq<Slot>, slot: Slot, run: nat)
    requires slot !in done
    ensures Reviewed(e, world, done + [slot], run) == AddReview(Reviewed(e, world, done, run), slot, SlotSession(e, world, slot), run)
  {
    SessionsStep(e, world, done, slot);
    Appended(Reviewed(e, world, done, run), SlotSessions(e, world, done), ByRun(done, run), e, slot, SlotSession(e, world, slot), run);
    assert ByRun(done + [slot], run) == ByRun(done, run)[slot := run];
  }

  lemma SessionsStep(e: Kept, world: World, done: seq<Slot>, slot: Slot)
    requires slot !in done
    ensures SlotSessions(e, world, done + [slot]) == SlotSessions(e, world, done)[slot := SlotSession(e, world, slot)]
    ensures SlotSessions(e, world, done + [slot]).Values == SlotSessions(e, world, done).Values + {SlotSession(e, world, slot)}
  {
    var before, after, session := SlotSessions(e, world, done), SlotSessions(e, world, done + [slot]), SlotSession(e, world, slot);
    assert after == before[slot := session];
    forall v | v in before.Values
      ensures v in after.Values
    {
      var k :| k in before && before[k] == v;
      assert after[k] == v;
    }
    assert after[slot] == session;
  }

  lemma Appended(now: Kept, sessions: map<Slot, string>, byRun: map<Slot, nat>, e: Kept, slot: Slot, session: string, run: nat)
    requires now == Kept(e.intents + sessions.Keys, e.transports + sessions, e.reviews + sessions, e.publisher + byRun)
    ensures var more := sessions[slot := session];
            && e.intents + more.Keys == now.intents + {slot}
            && e.transports + more == now.transports[slot := session]
            && e.reviews + more == now.reviews[slot := session]
    ensures e.publisher + byRun[slot := run] == now.publisher[slot := run]
  {
  }

  lemma NothingReviewed(lock: Lock, e: Kept, world: World, run: nat)
    ensures SlotsDone(lock, e, world, [], run, e, lock.calibration)
  {
    assert SlotSessions(e, world, []) == map[] && ByRun([], run) == map[];
    assert e.intents + {} == e.intents && e.transports + map[] == e.transports;
    assert e.reviews + map[] == e.reviews && e.publisher + map[] == e.publisher;
  }

  lemma BlockSlotsStep(done: seq<Slot>, block: string, reviewers: seq<string>, i: nat)
    requires i < |reviewers|
    ensures Visited(done, block, reviewers, i + 1) == Visited(done, block, reviewers, i) + [(block, reviewers[i])]
  {
  }

  /** The prior records of a block fit a slot: other reviewers, and sessions in the ledger. */
  ghost predicate PriorFits(prior: seq<(string, string)>, slot: Slot, used: set<string>) {
    forall i :: 0 <= i < |prior| ==> prior[i].0 != slot.1 && prior[i].1 in used
  }

  /** The prior records of a block are among the published reviews. */
  ghost predicate PriorOf(prior: seq<(string, string)>, block: string, reviews: map<Slot, string>, used: set<string>) {
    forall i :: 0 <= i < |prior| ==> (block, prior[i].0) in reviews && prior[i].1 in used
  }

  /** The evidence with one more review. */
  ghost function AddReview(now: Kept, slot: Slot, session: string, run: nat): Kept {
    Kept(now.intents + {slot}, now.transports[slot := session], now.reviews[slot := session], now.publisher[slot := run])
  }

  /** A slot that was free has been reviewed with its session. */
  ghost predicate SlotDone(now: Kept, world: World, slot: Slot, used: set<string>, run: nat, next: Kept, session: string) {
    && SlotFree(now, world, slot, used) && session == SlotSession(now, world, slot)
    && next == AddReview(now, slot, session, run)
  }

  // ---- What a review phase keeps

  /** `slot` gets its review by `run` with a session not used before. */
  ghost predicate Publishes(reviews: map<Slot, string>, next: map<Slot, string>, publisher: map<Slot, nat>, nextPublisher: map<Slot, nat>,
                            slot: Slot, session: string, used: set<string>, run: nat) {
    slot !in reviews && session !in used && next == reviews[slot := session] && nextPublisher == publisher[slot := run]
  }

  /** One slot's effect on the published reviews: none, or one publication of a session not used before. */
  ghost predicate MayPublish(reviews: map<Slot, string>, next: map<Slot, string>, publisher: map<Slot, nat>, nextPublisher: map<Slot, nat>,
                             slot: Slot, used: set<string>, run: nat) {
    || (next == reviews && nextPublisher == publisher)
    || (exists session :: Publishes(reviews, next, publisher, nextPublisher, slot, session, used, run))
  }

  /** Published sessions are consistent, and if there are any, the first slot has one. */
  ghost predicate PhaseOk(lock: Lock, first: Slot, e: Kept) {
    Consistent(lock, e.reviews, e.publisher) && (e.reviews == map[] || first in e.reviews)
  }

  /** However the phase ends: it keeps that, and adds nothing to what an earlier phase published. */
  ghost predicate PhaseEnded(lock: Lock, first: Slot, e: Kept, now: Kept) {
    PhaseOk(lock, first, now) && (e.reviews != map[] ==> now.reviews == e.reviews && now.publisher == e.publisher)
  }

  /** A phase that has reviewed `done` began without reviews. */
  lemma DoneKeepsRun(lock: Lock, first: Slot, e: Kept, world: World, done: seq<Slot>, run: nat, now: Kept, used: set<string>)
    requires SlotsDone(lock, e, world, done, run, now, used) && PhaseOk(lock, first, e)
    requires done != [] ==> done[0] == first
    ensures PhaseEnded(lock, first, e, now)
    ensures done == [] ==> now.reviews == e.reviews && now.publisher == e.publisher
    ensures done != [] ==> e.reviews == map[] && first in now.reviews
    ensures done != [] ==> forall k :: k in now.reviews ==> now.reviews[k] in used && now.publisher[k] == run
  {
    if done == [] {
      assert SlotSessions(e, world, done) == map[] && ByRun(done, run) == map[];
    } else {
      assert SlotOpen(e, done[0]);
      NewKeepsRun(lock, e, world, done, run, now, used);
    }
  }

  lemma NewKeepsRun(lock: Lock, e: Kept, world: World, done: seq<Slot>, run: nat, now: Kept, used: set<string>)
    requires SlotsDone(lock, e, world, done, run, now, used) && e.reviews == map[] && e.publisher == map[]
    ensures Consistent(lock, now.reviews, now.publisher)
    ensures forall k :: k in now.reviews <==> k in done
    ensures forall k :: k in now.reviews ==> now.reviews[k] in used && now.publisher[k] == run
  {
    FromNothing(e.reviews, SlotSessions(e, world, done));
    FromNothing(e.publisher, ByRun(done, run));
    SessionsAreNew(lock, e, world, done);
  }

  lemma FromNothing<T>(before: map<Slot, T>, added: map<Slot, T>)
    requires before == map[]
    ensures before + added == added
  {
  }

  lemma SessionsAreNew(lock: Lock, e: Kept, world: World, done: seq<Slot>)
    requires Ready(lock, e, world, done)
    ensures SessionsOk(lock, SlotSessions(e, world, done))
  {
    var sessions := SlotSessions(e, world, done);
    forall k, l | k in sessions && l in sessions && k != l
      ensures sessions[k] != sessions[l]
    {
      var i :| 0 <= i < |done| && done[i] == k;
      var j :| 0 <= j < |done| && done[j] == l;
      assert i < j || j < i;
    }
  }

  /** A new session keeps the published ones consistent. */
  lemma PublishKeeps(lock: Lock, reviews: map<Slot, string>, next: map<Slot, string>, publisher: map<Slot, nat>, nextPublisher: map<Slot, nat>,
                     slot: Slot, session: string, used: set<string>, run: nat)
    requires Consistent(lock, reviews, publisher) && lock.calibration <= used
    requires forall k :: k in reviews ==> reviews[k] in used && publisher[k] == run
    requires Publishes(reviews, next, publisher, nextPublisher, slot, session, used, run)
    ensures Consistent(lock, next, nextPublisher) && slot in next && reviews.Keys <= next.Keys
  {
  }

  /** One more slot, stopped anywhere, keeps sessions distinct and from one run, and adds nothing to an earlier phase. */
  lemma SlotKeepsRun(lock: Lock, first: Slot, e: Kept, world: World, done: seq<Slot>, run: nat, now: Kept, used: set<string>, slot: Slot, next: Kept)
    requires SlotsDone(lock, e, world, done, run, now, used) && PhaseOk(lock, first, e)
    requires if done == [] then slot == first else done[0] == first
    requires MayPublish(now.reviews, next.reviews, now.publisher, next.publisher, slot, used, run)
    ensures PhaseEnded(lock, first, e, next)
  {
    DoneKeepsRun(lock, first, e, world, done, run, now, used);
    if !(next.reviews == now.reviews && next.publisher == now.publisher) {
      var session :| Publishes(now.reviews, next.reviews, now.publisher, next.publisher, slot, session, used, run);
      PublishKeeps(lock, now.reviews, next.reviews, now.publisher, next.publisher, slot, session, used, run);
    }
  }

  /** A slot that fails in a calm world was not ready, and then its block is not. */
  lemma SlotFailed(lock: Lock, e: Kept, world: World, visited: seq<Slot>, run: nat, now: Kept, used: set<string>,
                   done: seq<Slot>, block: string, i: nat, prior: seq<(string, string)>)
    requires SlotsDone(lock, e, world, visited, run, now, used) && PriorOf(prior, block, now.reviews, used)
    requires i < |lock.reviewers| && visited == Visited(done, block, lock.reviewers, i)
    ensures var slot := (block, lock.reviewers[i]);
            || (SlotFree(now, world, slot, used) && PriorFits(prior, slot, used))
            || !Ready(lock, e, world, Visited(done, block, lock.reviewers, |lock.reviewers|))
  {
    var slot, all := (block, lock.reviewers[i]), Visited(done, block, lock.reviewers, |lock.reviewers|);
    SlotFreeExactly(lock, e, world, visited, run, now, used, slot);
    BlockSlotsStep(done, block, lock.reviewers, i);
    assert all == (visited + [slot]) + all[|visited| + 1..];
    if Ready(lock, e, world, all) {
      ReadyPrefix(lock, e, world, visited + [slot], all[|visited| + 1..]);
    }
  }

  lemma {:induction false} NotReadyEarly(lock: Lock, e: Kept, world: World, blocks: seq<string>, n: nat)
    requires n <= |blocks| && !Ready(lock, e, world, AllSlots(blocks, lock.reviewers, n))
    ensures !Ready(lock, e, world, AllSlots(blocks, lock.reviewers, |blocks|))
    decreases |blocks| - n
  {
    if n < |blocks| {
      if Ready(lock, e, world, AllSlots(blocks, lock.reviewers, n + 1)) {
        ReadyPrefix(lock, e, world, AllSlots(blocks, lock.reviewers, n), BlockSlots(blocks[n], lock.reviewers, |lock.reviewers|));
      }
      NotReadyEarly(lock, e, world, blocks, n + 1);
    }
  }

  /** With nothing on file, distinct blocks and reviewers, and new distinct sessions, every slot can be reviewed. */
  lemma FreshIsReady(lock: Lock, world: World, blocks: seq<string>)
    requires Distinct(blocks)
    requires Distinct(lock.reviewers)
    requires NewSessions(lock, world)
    ensures Ready(lock, Kept({}, map[], map[], map[]), world, AllSlots(blocks, lock.reviewers, |blocks|))
  {
    var slots := AllSlots(blocks, lock.reviewers, |blocks|);
    forall i, j | 0 <= i < j < |slots|
      ensures slots[i] != slots[j]
    {
      SlotsDistinct(blocks, lock.reviewers, |blocks|, i, j);
    }
  }

  /** The sessions that reviewers get are new and pairwise distinct. */
  ghost predicate NewSessions(lock: Lock, world: World) {
    && (forall slot :: world.session(slot) !in lock.calibration)
    && (forall a, b :: a != b ==> world.session(a) != world.session(b))
  }

  lemma {:induction false} SlotsDistinct(blocks: seq<string>, reviewers: seq<string>, n: nat, i: nat, j: nat)
    requires Distinct(blocks)
    requires Distinct(reviewers)
    requires n <= |blocks| && i < j < |AllSlots(blocks, reviewers, n)|
    ensures AllSlots(blocks, reviewers, n)[i] != AllSlots(blocks, reviewers, n)[j]
  {
    var earlier := AllSlots(blocks, reviewers, n - 1);
    if j < |earlier| {
      SlotsDistinct(blocks, reviewers, n - 1, i, j);
    } else if i < |earlier| {
      AllSlotsAreAll(blocks, reviewers, n - 1, earlier[i]);
    }
  }

  // ---- Packages

  function Members<T>(s: seq<T>): set<T> {
    set x | x in s
  }

  /** No preparation of these blocks was left half done. */
  predicate PackagesOpen(preparing: set<string>, prepared: set<string>, ids: seq<string>) {
    forall id :: id in ids ==> (id in preparing <==> id in prepared)
  }

  /** Since `preparing` and `prepared`, exactly `ids` have been packaged. */
  ghost predicate PackagedSince(preparing: set<string>, prepared: set<string>, ids: seq<string>, preparingNow: set<string>, preparedNow: set<string>) {
    && PackagesOpen(preparing, prepared, ids)
    && preparingNow == preparing + Members(ids)
    && preparedNow == prepared + Members(ids)
  }

  lemma PackagedStep(preparing: set<string>, prepared: set<string>, ids: seq<string>, preparingNow: set<string>, preparedNow: set<string>, id: string)
    requires PackagedSince(preparing, prepared, ids, preparingNow, preparedNow)
    ensures (id in preparingNow <==> id in preparedNow) <==> PackagesOpen(preparing, prepared, ids + [id])
    ensures (id in preparingNow <==> id in preparedNow) ==>
              PackagedSince(preparing, prepared, ids + [id], preparingNow + {id}, preparedNow + {id})
  {
    assert forall x :: x in ids + [id] <==> x in ids || x == id;
    assert Members(ids + [id]) == Members(ids) + {id};
  }

  // ---- How a run ends

  datatype Verdict = NotViable | Complete | Insufficient

  predicate SmokeValid(lock: Lock, a: Attempts) {
    lock.smokeId in a && a[lock.smokeId] == Recorded(Valid)
  }

  /** The loader accepts this evidence. */
  ghost predicate Startable(lock: Lock, a: Attempts) {
    exists n :: Loadable(lock, a, n)
  }

  /** Nothing was lost, and every new attempt was run to its end. */
  ghost predicate RanSince(world: World, before: Attempts, now: Attempts) {
    && (forall id :: id in before ==> id in now && now[id] == before[id])
    && (forall id :: id in now && id !in before ==> now[id] == Recorded(Ends(world, id)))
  }

  lemma RanTwice(world: World, first: Attempts, second: Attempts, third: Attempts)
    requires RanSince(world, first, second) && RanSince(world, second, third)
    ensures RanSince(world, first, third)
  {
  }

  /** The smoke block ended badly and nothing else was attempted. */
  ghost predicate StoppedAtSmoke(lock: Lock, a: Attempts) {
    && lock.smokeId in a && a[lock.smokeId] != Recorded(Valid)
    && forall i :: 0 <= i < |lock.liveIds| ==> lock.liveIds[i] !in a
  }

  /** The live attempts are complete, and the verdict says whether enough are VALID. */
  ghost predicate PilotDone(lock: Lock, a: Attempts, n: nat, verdict: Verdict) {
    && SmokeValid(lock, a) && Settled(lock, a, n)
    && (verdict == Complete <==> |ValidBlocks(a, lock.liveIds, n)| == lock.target)
  }

  /** The slots of the VALID blocks. */
  function AllValidSlots(lock: Lock, a: Attempts, n: nat): seq<Slot>
    requires n <= |lock.liveIds|
  {
    var blocks := ValidBlocks(a, lock.liveIds, n);
    AllSlots(blocks, lock.reviewers, |blocks|)
  }

  /** There is a calibration, and every slot of these blocks is ready. */
  ghost predicate SlotsReady(lock: Lock, e: Kept, world: World, blocks: seq<string>) {
    lock.calibration != {} && Ready(lock, e, world, AllSlots(blocks, lock.reviewers, |blocks|))
  }

  /** No package of a VALID block was left half prepared, and its slots are ready. */
  ghost predicate Clear(lock: Lock, world: World, e: Kept, preparing: set<string>, prepared: set<string>, a: Attempts, n: nat) {
    && n <= |lock.liveIds|
    && PackagesOpen(preparing, prepared, [lock.smokeId] + ValidBlocks(a, lock.liveIds, n))
    && SlotsReady(lock, e, world, ValidBlocks(a, lock.liveIds, n))
  }

  lemma SmokePackaged(preparing: set<string>, prepared: set<string>, id: string)
    requires id in preparing <==> id in prepared
    ensures PackagedSince(preparing, prepared, [id] + [], preparing + {id}, prepared + {id})
  {
    assert [id] + [] == [id] && Members([id]) == {id};
  }

  lemma {:induction false} ValidBlocksGrow(a: Attempts, ids: seq<string>, n: nat, m: nat, id: string)
    requires n <= m <= |ids| && id in ValidBlocks(a, ids, n)
    ensures id in ValidBlocks(a, ids, m)
    decreases m
  {
    if n < m {
      ValidBlocksGrow(a, ids, n, m - 1, id);
    }
  }

  lemma OpenEarlier(preparing: set<string>, prepared: set<string>, smoke: string, a: Attempts, ids: seq<string>, n: nat, m: nat)
    requires n <= m <= |ids|
    ensures PackagesOpen(preparing, prepared, [smoke] + ValidBlocks(a, ids, m)) ==>
              PackagesOpen(preparing, prepared, [smoke] + ValidBlocks(a, ids, n))
  {
    forall id | id in [smoke] + ValidBlocks(a, ids, n)
      ensures id in [smoke] + ValidBlocks(a, ids, m)
    {
      if id in ValidBlocks(a, ids, n) {
        ValidBlocksGrow(a, ids, n, m, id);
      }
    }
  }

  /** The VALID blocks are distinct ids among the first `n`. */
  lemma {:induction false} ValidBlocksDistinct(a: Attempts, ids: seq<string>, n: nat)
    requires n <= |ids| && Distinct(ids)
    ensures forall id :: id in ValidBlocks(a, ids, n) <==> id in ids[..n] && id in a && a[id] == Recorded(Valid)
    ensures Distinct(ValidBlocks(a, ids, n))
  {
    if n > 0 {
      ValidBlocksDistinct(a, ids, n - 1);
      assert ids[..n] == ids[..n - 1] + [ids[n - 1]] && ids[n - 1] !in ids[..n - 1];
      var earlier := ValidBlocks(a, ids, n - 1);
      assert forall i :: 0 <= i < |earlier| ==> earlier[i] in earlier;
    }
  }

  lemma FreshIsClear(lock: Lock, world: World, a: Attempts, n: nat)
    requires LockOk(lock) && n <= |lock.liveIds| && lock.calibration != {} && NewSessions(lock, world)
    requires Distinct(lock.reviewers)
    ensures Clear(lock, world, Kept({}, map[], map[], map[]), {}, {}, a, n)
  {
    ValidBlocksDistinct(a, lock.liveIds, n);
    FreshIsReady(lock, world, ValidBlocks(a, lock.liveIds, n));
  }

  lemma FreshReviews(lock: Lock, world: World, blocks: seq<string>, run: nat)
    ensures var reviews := Reviewed(Kept({}, map[], map[], map[]), world, AllSlots(blocks, lock.reviewers, |blocks|), run).reviews;
            forall slot: Slot :: && (slot in reviews <==> slot.0 in blocks && slot.1 in lock.reviewers)
                                 && (slot in reviews ==> reviews[slot] == world.session(slot))
  {
    forall slot: Slot
      ensures slot in AllSlots(blocks, lock.reviewers, |blocks|) <==> slot.0 in blocks && slot.1 in lock.reviewers
    {
      AllSlotsAreAll(blocks, lock.reviewers, |blocks|, slot);
      assert blocks[..|blocks|] == blocks;
    }
  }

  /** The evidence directory, which outlives every run. */
  class Evidence {
    const lock: Lock
    var attempts: Attempts
    /** Blocks with a package-preparation intent, and those with its completion. */
    var preparing: set<string>
    var prepared: set<string>
    /** Slots with a launch intent, a transport completion (naming its session), a review. */
    var intents: set<Slot>
    var transports: map<Slot, string>
    var reviews: map<Slot, string>
    /** The number of runs begun, and the run that published each review. */
    ghost var runs: nat
    ghost var publisher: map<Slot, nat>

    constructor (lock: Lock)
      requires LockOk(lock)
      ensures Reachable() && this.lock == lock && Current() == Kept({}, map[], map[], map[])
      ensures attempts == map[] && preparing == {} && prepared == {}
    {
      this.lock := lock;
      attempts, preparing, prepared := map[], {}, {};
      intents, transports, reviews := {}, map[], map[];
      runs, publisher := 0, map[];
      new;
      assert PrefixOf(lock, attempts, 0);
    }

    /** What every reachable evidence directory satisfies. */
    ghost predicate Reachable()
      reads this
    {
      LockOk(lock) && EvidenceOk(lock, attempts, reviews, publisher)
    }

    /** What is on file about review slots. */
    ghost function Current(): Kept
      reads this`intents, this`transports, this`reviews, this`publisher
    {
      Kept(intents, transports, reviews, publisher)
    }

    /** `run_block`: the directory appears, then a STARTED record, then a terminal one; it may stop in between. */
    method RunBlock(world: World, id: string) returns (r: Option<Status>)
      requires id !in attempts
      modifies this`attempts
      ensures attempts == old(attempts) || (id in attempts && attempts == old(attempts)[id := attempts[id]])
      ensures r.Some? ==> r.value == Ends(world, id) && attempts == old(attempts)[id := Recorded(r.value)]
      ensures world.calm ==> r.Some?
    {
      var stop := Stops(world);
      if stop {
        return None;
      }
      attempts := attempts[id := DirectoryOnly];
      stop := Stops(world);
      if stop {
        return None;
      }
      attempts := attempts[id := Recorded(Started)];
      stop := Stops(world);
      if stop {
        return None;
      }
      attempts := attempts[id := Recorded(Ends(world, id))];
      stop := Stops(world);
      r := if stop then None else Some(Ends(world, id));
    }

    /** `prepare_or_load_block_package`, reduced to which files exist. */
    method PreparePackage(world: World, id: string) returns (ok: bool)
      modifies this`preparing, this`prepared
      ensures preparing == old(preparing) + {id} || (!ok && preparing == old(preparing))
      ensures prepared == old(prepared) || prepared == old(prepared) + {id}
      ensures id in old(preparing) ==> prepared == old(prepared)
      ensures ok ==> prepared == old(prepared) + {id} && (id in old(preparing) <==> id in old(prepared))
      ensures world.calm ==> (ok <==> (id in old(preparing) <==> id in old(prepared)))
    {
      var stop := Stops(world);
      if id in preparing {
        return id in prepared && !stop;
      }
      if id in prepared {
        return false;
      }
      preparing := preparing + {id};
      if stop {
        return false;
      }
      prepared := prepared + {id};
      stop := Stops(world);
      ok := !stop;
    }

    /** `_finalize_review`: refuse a used session, then publish exclusively; the run may die on either side. */
    method FinalizeReview(world: World, slot: Slot, session: string, used: set<string>, prior: seq<(string, string)>)
      returns (r: Option<string>)
      requires slot !in reviews
      modifies this`reviews, this`publisher
      ensures MayPublish(old(reviews), reviews, old(publisher), publisher, slot, used, runs)
      ensures r.Some? ==> r.value == session && Publishes(old(reviews), reviews, old(publisher), publisher, slot, session, used, runs)
      ensures world.calm ==> (r.Some? <==> session !in used && forall i :: 0 <= i < |prior| ==> prior[i].1 != session)
    {
      if session in used || exists i :: 0 <= i < |prior| && prior[i].1 == session {
        return None;
      }
      var stop := Stops(world);
      if stop {
        return None;
      }
      reviews := reviews[slot := session];
      publisher := publisher[slot := runs];
      assert Publishes(old(reviews), reviews, old(publisher), publisher, slot, session, used, runs);
      stop := Stops(world);
      r := if stop then None else Some(session);
    }

    /** `run_live_review_slot`. */
    method RunReviewSlot(world: World, slot: Slot, used: set<string>, prior: seq<(string, string)>) returns (r: Option<string>)
      modifies this`intents, this`transports, this`reviews, this`publisher
      ensures slot in old(reviews) ==> r.None? && reviews == old(reviews) && publisher == old(publisher)
      ensures MayPublish(old(reviews), reviews, old(publisher), publisher, slot, used, runs)
      ensures r.Some? ==> lock.calibration <= used && SlotDone(old(Current()), world, slot, used, runs, Current(), r.value)
      ensures world.calm && SlotFree(old(Current()), world, slot, used) && lock.calibration <= used && PriorFits(prior, slot, used) ==> r.Some?
      ensures slot in old(intents) ==> intents == old(intents) && transports == old(transports)
      ensures intents == old(intents) || intents == old(intents) + {slot}
      ensures transports == old(transports) || (slot in intents && slot in transports && transports == old(transports)[slot := transports[slot]])
    {
      r := None;
      var claimed := slot in intents;
      if !claimed && (slot in transports || slot in reviews) {
        return;
      }
      if (exists i :: 0 <= i < |prior| && prior[i].0 == slot.1) || !(lock.calibration <= used) {
        return;
      }
      var stop := Stops(world);
      if stop {
        return;
      }
      if claimed {
        if slot !in transports || slot in reviews {
          return;
        }
        r := FinalizeReview(world, slot, transports[slot], used, prior);
        return;
      }
      intents := intents + {slot};
      var session := world.session(slot);
      stop := Stops(world);
      if stop {
        return;
      }
      if session in used || exists i :: 0 <= i < |prior| && prior[i].1 == session {
        return;
      }
      transports := transports[slot := session];
      stop := Stops(world);
      if stop {
        return;
      }
      r := FinalizeReview(world, slot, session, used, prior);
    }

    /** The next slot of a block; `done` are the slots reviewed since `begun` in earlier blocks. */
    method ReviewNext(world: World, block: string, i: nat, used: set<string>, prior: seq<(string, string)>,
                      ghost first: Slot, ghost begun: Kept, ghost done: seq<Slot>)
      returns (session: Option<string>)
      requires i < |lock.reviewers| && PriorOf(prior, block, reviews, used)
      requires PhaseOk(lock, first, begun) && StartsWith(done, block, lock.reviewers, first)
      requires SlotsDone(lock, begun, world, Visited(done, block, lock.reviewers, i), runs, Current(), used)
      modifies this`intents, this`transports, this`reviews, this`publisher
      ensures session.Some? ==>
                && SlotsDone(lock, begun, world, Visited(done, block, lock.reviewers, i + 1), runs, Current(), used + {session.value})
                && PriorOf(prior + [(lock.reviewers[i], session.value)], block, reviews, used + {session.value})
      ensures session.None? ==> PhaseEnded(lock, first, begun, Current())
      ensures world.calm && session.None? ==> !Ready(lock, begun, world, Visited(done, block, lock.reviewers, |lock.reviewers|))
    {
      ghost var now, visited := Current(), Visited(done, block, lock.reviewers, i);
      var slot := (block, lock.reviewers[i]);
      session := RunReviewSlot(world, slot, used, prior);
      if session.None? {
        SlotKeepsRun(lock, first, begun, world, visited, runs, now, used, slot, Current());
        SlotFailed(lock, begun, world, visited, runs, now, used, done, block, i, prior);
      } else {
        BlockSlotsStep(done, block, lock.reviewers, i);
        SlotsDoneStep(lock, begun, world, visited, runs, now, used, slot, Current(), session.value);
      }
    }

    /** All slots of one block, in order; `done` are the slots reviewed since `begun` in earlier blocks. */
    method ReviewBlock(world: World, block: string, ledger: set<string>, ghost first: Slot, ghost begun: Kept, ghost done: seq<Slot>)
      returns (ok: bool, used: set<string>)
      requires PhaseOk(lock, first, begun) && StartsWith(done, block, lock.reviewers, first)
      requires SlotsDone(lock, begun, world, done, runs, Current(), ledger)
      modifies this`intents, this`transports, this`reviews, this`publisher
      ensures ok ==> SlotsDone(lock, begun, world, Visited(done, block, lock.reviewers, |lock.reviewers|), runs, Current(), used)
      ensures !ok ==> lock.reviewers != [] && PhaseEnded(lock, first, begun, Current())
      ensures world.calm && !ok ==> !Ready(lock, begun, world, Visited(done, block, lock.reviewers, |lock.reviewers|))
    {
      used := ledger;
      var prior := [];
      assert Visited(done, block, lock.reviewers, 0) == done;
      for i := 0 to |lock.reviewers|
        invariant SlotsDone(lock, begun, world, Visited(done, block, lock.reviewers, i), runs, Current(), used)
        invariant PriorOf(prior, block, reviews, used)
      {
        var session := ReviewNext(world, block, i, used, prior, first, begun, done);
        if session.None? {
          return false, used;
        }
        used := used + {session.value};
        prior := prior + [(lock.reviewers[i], session.value)];
      }
      ok := true;
    }

    /** The review phase: every packaged block in order, with a session ledger that starts from the calibration. */
    method ReviewAll(world: World, blocks: seq<string>, ghost first: Slot) returns (ok: bool)
      requires PhaseOk(lock, first, Current())
      requires blocks != [] && lock.reviewers != [] ==> first == (blocks[0], lock.reviewers[0])
      modifies this`intents, this`transports, this`reviews, this`publisher
      ensures PhaseEnded(lock, first, old(Current()), Current())
      ensures blocks == [] || lock.reviewers == [] ==> reviews == old(reviews)
      ensures ok ==> Ready(lock, old(Current()), world, AllSlots(blocks, lock.reviewers, |blocks|))
      ensures ok ==> Current() == Reviewed(old(Current()), world, AllSlots(blocks, lock.reviewers, |blocks|), runs)
      ensures world.calm && !ok ==> !Ready(lock, old(Current()), world, AllSlots(blocks, lock.reviewers, |blocks|))
    {
      var used := lock.calibration;
      ghost var begun := Current();
      NothingReviewed(lock, begun, world, runs);
      for i := 0 to |blocks|
        invariant SlotsDone(lock, begun, world, AllSlots(blocks, lock.reviewers, i), runs, Current(), used)
      {
        SlotsStartWith(blocks, lock.reviewers, i);
        var done, ledger := ReviewBlock(world, blocks[i], used, first, begun, AllSlots(blocks, lock.reviewers, i));
        if !done {
          if world.calm {
            NotReadyEarly(lock, begun, world, blocks, i + 1);
          }
          return false;
        }
        used := ledger;
      }
      SlotsStartWith(blocks, lock.reviewers, |blocks|);
      DoneKeepsRun(lock, first, begun, world, AllSlots(blocks, lock.reviewers, |blocks|), runs, Current(), used);
      ok := true;
    }

    /** Package the VALID attempts that already exist; the blocks packaged, in order. The smoke block is packaged, and
        nothing else since `preparing0` and `prepared0`. */
    method PackageExisting(world: World, n: nat, ghost preparing0: set<string>, ghost prepared0: set<string>)
      returns (ok: bool, packages: seq<string>)
      requires n <= |lock.liveIds| && forall i :: 0 <= i < n ==> lock.liveIds[i] in attempts && attempts[lock.liveIds[i]].Recorded?
      requires Packaged(preparing0, prepared0, [])
      modifies this`preparing, this`prepared
      ensures ok ==> packages == ValidBlocks(attempts, lock.liveIds, n) && Packaged(preparing0, prepared0, packages)
      ensures world.calm && !ok ==> !PackagesOpen(preparing0, prepared0, [lock.smokeId] + ValidBlocks(attempts, lock.liveIds, n))
    {
      packages := [];
      for i := 0 to n
        invariant packages == ValidBlocks(attempts, lock.liveIds, i) && Packaged(preparing0, prepared0, packages)
      {
        if attempts[lock.liveIds[i]].status == Valid {
          var done := PackageNext(world, lock.liveIds[i], packages, preparing0, prepared0);
          packages := packages + [lock.liveIds[i]];
          if !done {
            OpenEarlier(preparing0, prepared0, lock.smokeId, attempts, lock.liveIds, i + 1, n);
            return false, packages;
          }
        }
      }
      ok := true;
    }

    /** Since `preparing0` and `prepared0` exactly the smoke block and `packages` have been packaged. */
    ghost predicate Packaged(preparing0: set<string>, prepared0: set<string>, packages: seq<string>)
      reads this`preparing, this`prepared
    {
      PackagedSince(preparing0, prepared0, [lock.smokeId] + packages, preparing, prepared)
    }

    /** The package of one further block. */
    method PackageNext(world: World, id: string, packages: seq<string>, ghost preparing0: set<string>, ghost prepared0: set<string>)
      returns (ok: bool)
      requires Packaged(preparing0, prepared0, packages)
      modifies this`preparing, this`prepared
      ensures ok ==> Packaged(preparing0, prepared0, packages + [id])
      ensures world.calm && !ok ==> !PackagesOpen(preparing0, prepared0, [lock.smokeId] + (packages + [id]))
    {
      PackagedStep(preparing0, prepared0, [lock.smokeId] + packages, preparing, prepared, id);
      assert [lock.smokeId] + (packages + [id]) == ([lock.smokeId] + packages) + [id];
      ok := PreparePackage(world, id);
    }

    /** One further live attempt; `n` attempts exist afterwards. */
    method RunNextBlock(world: World, start: nat, existing: seq<string>, ghost preparing0: set<string>, ghost prepared0: set<string>)
      returns (ok: bool, n: nat, packages: seq<string>)
      requires Underway(lock, attempts, reviews, start, existing) && start < Limit(lock) && |existing| < lock.target
      requires Packaged(preparing0, prepared0, existing)
      modifies this`attempts, this`preparing, this`prepared
      ensures reviews == map[] && PrefixOf(lock, attempts, n) && ReviewsOk(lock, attempts, reviews)
      ensures ok ==> n == start + 1 && Underway(lock, attempts, reviews, n, packages) && Packaged(preparing0, prepared0, packages)
      ensures ok || world.calm ==> RanSince(world, old(attempts), attempts) && SmokeValid(lock, attempts)
      ensures world.calm && !ok ==> !PackagesOpen(preparing0, prepared0, [lock.smokeId] + ValidBlocks(attempts, lock.liveIds, n))
    {
      UnsettledHasNoReviews(lock, attempts, reviews, start);
      n, packages := start, existing;
      ghost var before := attempts;
      var id := lock.liveIds[start];
      var outcome := RunBlock(world, id);
      if id in attempts {
        PrefixExtends(lock, before, start, attempts[id]);
        n := start + 1;
      }
      ok := outcome.Some?;
      if ok && outcome.value == Valid {
        ok := PackageNext(world, id, packages, preparing0, prepared0);
        packages := packages + [id];
      }
    }

    /** The attempt phase: further live blocks until enough are VALID or the attempts are used up. */
    method RunLiveBlocks(world: World, start: nat, existing: seq<string>, ghost preparing0: set<string>, ghost prepared0: set<string>)
      returns (ok: bool, n: nat, packages: seq<string>)
      requires Underway(lock, attempts, reviews, start, existing) && Packaged(preparing0, prepared0, existing)
      modifies this`attempts, this`preparing, this`prepared
      ensures PrefixOf(lock, attempts, n) && ReviewsOk(lock, attempts, reviews)
      ensures ok ==> Settled(lock, attempts, n) && packages == ValidBlocks(attempts, lock.liveIds, n)
      ensures ok ==> Packaged(preparing0, prepared0, packages)
      ensures ok || world.calm ==> RanSince(world, old(attempts), attempts) && SmokeValid(lock, attempts)
      ensures world.calm && !ok ==> !PackagesOpen(preparing0, prepared0, [lock.smokeId] + ValidBlocks(attempts, lock.liveIds, n))
      ensures reviews != map[] ==> attempts == old(attempts)
    {
      n, packages := start, existing;
      while n < Limit(lock) && |packages| < lock.target
        invariant Underway(lock, attempts, reviews, n, packages) && Packaged(preparing0, prepared0, packages)
        invariant RanSince(world, old(attempts), attempts)
        invariant reviews != map[] ==> attempts == old(attempts)
        decreases Limit(lock) - n
      {
        ghost var before := attempts;
        ok, n, packages := RunNextBlock(world, n, packages, preparing0, prepared0);
        if ok || world.calm {
          RanTwice(world, old(attempts), before, attempts);
        }
        if !ok {
          return;
        }
      }
      ok := true;
    }

    /** Load the attempts and make sure that there is a smoke record; its status and the number of live records. */
    method BeginRun(world: World) returns (smoke: Option<Status>, n: nat)
      requires Reachable()
      modifies this`attempts
      ensures Reachable()
      ensures reviews != map[] ==> attempts == old(attempts)
      ensures smoke.Some? ==> Startable(lock, old(attempts)) && Loadable(lock, attempts, n) && PrefixOf(lock, attempts, n)
                              && lock.smokeId in attempts && attempts[lock.smokeId] == Recorded(smoke.value)
      ensures smoke.Some? ==> RanSince(world, old(attempts), attempts)
      ensures world.calm ==> (smoke.Some? <==> Startable(lock, old(attempts)))
      ensures smoke.None? && world.calm ==> attempts == old(attempts)
    {
      n := 0;
      var loaded := LoadAttemptPrefix(lock, attempts);
      if loaded.Rejected? {
        assert loaded.error == Incomplete;
        return None, 0;
      }
      var stop := Stops(world);
      if stop {
        return None, 0;
      }
      n := |loaded.live|;
      LoadableIsPrefix(lock, attempts, n);
      smoke := loaded.smoke;
      if smoke.None? {
        smoke := RunSmoke(world, n);
      }
    }

    /** The review phase on settled attempts. */
    method ReviewSettled(world: World, n: nat, packages: seq<string>) returns (ok: bool)
      requires Reachable() && Settled(lock, attempts, n) && packages == ValidBlocks(attempts, lock.liveIds, n)
      modifies this`intents, this`transports, this`reviews, this`publisher
      ensures Reachable()
      ensures old(reviews) != map[] ==> reviews == old(reviews)
      ensures ok ==> SlotsReady(lock, old(Current()), world, packages)
      ensures ok ==> Current() == Reviewed(old(Current()), world, AllSlots(packages, lock.reviewers, |packages|), runs)
      ensures world.calm && !ok ==> !SlotsReady(lock, old(Current()), world, packages)
    {
      if lock.calibration == {} {
        return false;
      }
      if reviews != map[] {
        SettledFirstSlot(lock, attempts, reviews, n);
      }
      ghost var first := if packages != [] && lock.reviewers != [] then (packages[0], lock.reviewers[0]) else ("", "");
      ok := ReviewAll(world, packages, first);
      assert reviews != map[] ==> FirstSlot(lock, attempts, n, (packages[0], lock.reviewers[0]));
    }

    /** `execute_pilot`: one run of the controller, which may stop at any point; without a verdict it raised or died.
        In a calm world it has a verdict exactly when the evidence it found was loadable and, after a VALID smoke,
        nothing that it needs was left half done. */
    method ExecutePilot(world: World) returns (verdict: Option<Verdict>, n: nat)
      requires Reachable()
      modifies this
      ensures Reachable() && runs == old(runs) + 1
      ensures old(reviews) != map[] ==> reviews == old(reviews) && attempts == old(attempts)
      ensures verdict.Some? || world.calm ==> RanSince(world, old(attempts), attempts)
      ensures verdict == Some(NotViable) ==> StoppedAtSmoke(lock, attempts) && Current() == old(Current())
      ensures verdict.Some? && verdict.value != NotViable ==>
                && PilotDone(lock, attempts, n, verdict.value)
                && prepared == old(prepared) + Members([lock.smokeId] + ValidBlocks(attempts, lock.liveIds, n))
                && Current() == Reviewed(old(Current()), world, AllValidSlots(lock, attempts, n), runs)
      ensures verdict.Some? ==> Startable(lock, old(attempts))
                                && (SmokeValid(lock, attempts) ==> Clear(lock, world, old(Current()), old(preparing), old(prepared), attempts, n))
      ensures world.calm && verdict.None? && Startable(lock, old(attempts)) ==>
                SmokeValid(lock, attempts) && PrefixOf(lock, attempts, n)
                && !Clear(lock, world, old(Current()), old(preparing), old(prepared), attempts, n)
    {
      runs := runs + 1;
      verdict := None;
      var smoke;
      smoke, n := BeginRun(world);
      if smoke.None? {
        return;
      }
      if smoke.value != Valid {
        var stop := Stops(world);
        return if stop then None else Some(NotViable), n;
      }
      ghost var begun := attempts;
      verdict, n := CompletePilot(world, n);
      if verdict.Some? || world.calm {
        RanTwice(world, old(attempts), begun, attempts);
      }
    }

    /** The run after a VALID smoke. */
    method CompletePilot(world: World, existing: nat) returns (verdict: Option<Verdict>, n: nat)
      requires Reachable() && Loadable(lock, attempts, existing) && PrefixOf(lock, attempts, existing)
      requires SmokeValid(lock, attempts)
      modifies this`attempts, this`preparing, this`prepared, this`intents, this`transports, this`reviews, this`publisher
      ensures Reachable()
      ensures old(reviews) != map[] ==> reviews == old(reviews) && attempts == old(attempts)
      ensures verdict.Some? || world.calm ==> RanSince(world, old(attempts), attempts) && SmokeValid(lock, attempts) && PrefixOf(lock, attempts, n)
      ensures verdict.Some? ==>
                && verdict.value != NotViable && PilotDone(lock, attempts, n, verdict.value)
                && prepared == old(prepared) + Members([lock.smokeId] + ValidBlocks(attempts, lock.liveIds, n))
                && Current() == Reviewed(old(Current()), world, AllValidSlots(lock, attempts, n), runs)
                && Clear(lock, world, old(Current()), old(preparing), old(prepared), attempts, n)
      ensures world.calm && verdict.None? ==> !Clear(lock, world, old(Current()), old(preparing), old(prepared), attempts, n)
    {
      verdict := None;
      var ok, packages;
      ok, n, packages := FinishAttempts(world, existing);
      if !ok {
        return;
      }
      ok := ReviewSettled(world, n, packages);
      var stop := Stops(world);
      if ok && !stop {
        ValidNeverExceedsTarget(lock, attempts, n);
        verdict := Some(if |packages| >= lock.target then Complete else Insufficient);
      }
    }

    /** Package what exists, then run the attempts that are still due. */
    method FinishAttempts(world: World, existing: nat) returns (ok: bool, n: nat, packages: seq<string>)
      requires Reachable() && Loadable(lock, attempts, existing) && PrefixOf(lock, attempts, existing)
      requires SmokeValid(lock, attempts)
      modifies this`attempts, this`preparing, this`prepared
      ensures Reachable()
      ensures reviews != map[] ==> attempts == old(attempts)
      ensures ok ==> Settled(lock, attempts, n) && packages == ValidBlocks(attempts, lock.liveIds, n)
      ensures ok ==> Packaged(old(preparing), old(prepared), packages)
      ensures ok || world.calm ==> RanSince(world, old(attempts), attempts) && SmokeValid(lock, attempts) && PrefixOf(lock, attempts, n)
      ensures world.calm && !ok ==> !PackagesOpen(old(preparing), old(prepared), [lock.smokeId] + ValidBlocks(attempts, lock.liveIds, n))
    {
      n, packages := existing, [];
      ghost var preparing0, prepared0 := preparing, prepared;
      ok := PreparePackage(world, lock.smokeId);
      if !ok {
        return;
      }
      SmokePackaged(preparing0, prepared0, lock.smokeId);
      ok, packages := PackageExisting(world, n, preparing0, prepared0);
      if !ok {
        return;
      }
      ok, n, packages := RunLiveBlocks(world, n, packages, preparing0, prepared0);
    }

    /** The smoke block, when there is no evidence yet. */
    method RunSmoke(world: World, n: nat) returns (outcome: Option<Status>)
      requires Reachable() && Loadable(lock, attempts, n) && PrefixOf(lock, attempts, n) && lock.smokeId !in attempts
      modifies this`attempts
      ensures Reachable() && PrefixOf(lock, attempts, n) && n == 0 && reviews == map[]
      ensures outcome.Some? ==> lock.smokeId in attempts && attempts[lock.smokeId] == Recorded(outcome.value)
                                && Loadable(lock, attempts, n) && RanSince(world, old(attempts), attempts)
      ensures world.calm ==> outcome.Some?
    {
      NoReviewsBeforeSmoke(lock, attempts, reviews, n);
      outcome := RunBlock(world, lock.smokeId);
      assert PrefixOf(lock, attempts, 0);
    }

    /** Any number of runs, one after the other, each in its own world. */
    method RunHistory(worlds: seq<World>)
      requires Reachable()
      modifies this
      ensures Reachable() && runs == old(runs) + |worlds|
    {
      for i := 0 to |worlds|
        invariant Reachable() && runs == old(runs) + i
      {
        var verdict, n := ExecutePilot(worlds[i]);
      }
    }
  }

  /** A first run that nothing disturbs, whose reviewers get new and distinct sessions, ends with a verdict. After a VALID
      smoke it has run live blocks until enough are VALID or none may follow, packaged the VALID ones, and published a review of each
      by every reviewer. */
  method UndisturbedPilot(lock: Lock, world: World) returns (evidence: Evidence, verdict: Verdict, n: nat)
    requires LockOk(lock) && lock.calibration != {} && world.calm && NewSessions(lock, world)
    requires Distinct(lock.reviewers)
    ensures evidence.lock == lock && evidence.Reachable()
    ensures verdict == NotViable <==> Ends(world, lock.smokeId) != Valid
    ensures forall id :: id in evidence.attempts ==> evidence.attempts[id] == Recorded(Ends(world, id))
    ensures verdict == NotViable ==> StoppedAtSmoke(lock, evidence.attempts) && evidence.reviews == map[]
    ensures verdict != NotViable ==>
              && PilotDone(lock, evidence.attempts, n, verdict)
              && evidence.prepared == Members([lock.smokeId] + ValidBlocks(evidence.attempts, lock.liveIds, n))
              && forall slot: Slot :: && (slot in evidence.reviews <==> slot.0 in ValidBlocks(evidence.attempts, lock.liveIds, n) && slot.1 in lock.reviewers)
                                      && (slot in evidence.reviews ==> evidence.reviews[slot] == world.session(slot))
  {
    evidence := new Evidence(lock);
    assert Loadable(lock, evidence.attempts, 0);
    var outcome;
    outcome, n := evidence.ExecutePilot(world);
    if SmokeValid(lock, evidence.attempts) && n <= |lock.liveIds| {
      FreshIsClear(lock, world, evidence.attempts, n);
    }
    verdict := outcome.value;
    if verdict != NotViable {
      FreshReviews(lock, world, ValidBlocks(evidence.attempts, lock.liveIds, n), evidence.runs);
    }
  }

  lemma LoadableIsPrefix(lock: Lock, a: Attempts, n: nat)
    requires Loadable(lock, a, n) && exists m :: PrefixOf(lock, a, m)
    ensures PrefixOf(lock, a, n)
  {
    var m: nat :| PrefixOf(lock, a, m);
    assert n < |lock.liveIds| ==> lock.liveIds[n] !in a;
    assert m < |lock.liveIds| ==> lock.liveIds[m] !in a;
  }

  lemma NoReviewsBeforeSmoke(lock: Lock, a: Attempts, reviews: map<Slot, string>, n: nat)
    requires ReviewsOk(lock, a, reviews) && PrefixOf(lock, a, n) && lock.smokeId !in a
    ensures n == 0 && reviews == map[]
  {
  }

  lemma SettledFirstSlot(lock: Lock, a: Attempts, reviews: map<Slot, string>, n: nat)
    requires ReviewsOk(lock, a, reviews) && Settled(lock, a, n) && reviews != map[]
    ensures ValidBlocks(a, lock.liveIds, n) != [] && lock.reviewers != []
    ensures (ValidBlocks(a, lock.liveIds, n)[0], lock.reviewers[0]) in reviews
  {
    var m, slot :| Settled(lock, a, m) && FirstSlot(lock, a, m, slot) && slot in reviews;
    PrefixLengthUnique(lock, a, n, m);
  }

  /** What every reachable evidence directory says: the live attempts are a bounded prefix after a VALID smoke, and the
      published reviews carry new, pairwise distinct sessions that all come from one run. */
  lemma ReachableEvidence(lock: Lock, a: Attempts, reviews: map<Slot, string>, publisher: map<Slot, nat>) returns (n: nat)
    requires LockOk(lock) && EvidenceOk(lock, a, reviews, publisher)
    ensures forall i :: 0 <= i < |lock.liveIds| ==> (lock.liveIds[i] in a <==> i < n)
    ensures n > 0 ==> lock.smokeId in a && a[lock.smokeId] == Recorded(Valid)
    ensures n <= lock.maximum && n <= |lock.liveIds| && |ValidBlocks(a, lock.liveIds, n)| <= lock.target
    ensures reviews != map[] ==> n == Limit(lock) || |ValidBlocks(a, lock.liveIds, n)| == lock.target
    ensures forall k, l :: k in reviews && l in reviews && k != l ==> reviews[k] != reviews[l]
    ensures forall k :: k in reviews ==> reviews[k] !in lock.calibration
    ensures forall k, l :: k in reviews && l in reviews ==> k in publisher && l in publisher && publisher[k] == publisher[l]
  {
    n :| PrefixOf(lock, a, n);
    ValidNeverExceedsTarget(lock, a, n);
    if reviews != map[] {
      var m, slot :| Settled(lock, a, m) && FirstSlot(lock, a, m, slot) && slot in reviews;
      PrefixLengthUnique(lock, a, n, m);
    }
  }
}
