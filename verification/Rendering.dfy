/** The byte-capped prompt block: complete sections, at most one cut section, and a truncation
    summary whose size feeds back into the space left for the sections. */
module Rendering {
  import opened Utf8
  import opened SnapshotTypes
  import opened Fitting

  datatype Body = Body(bytes: seq<Byte>, truncations: seq<Truncation>)

  function FullHeader(lay: Layout, g: Group): seq<Byte> {
    lay.header(g.target, g.totalBytes, g.totalBytes)
  }

  function OmittedTruncation(g: Group): Truncation {
    Truncation(g.target, Omitted, 0, g.totalBytes)
  }

  function CompleteTruncation(g: Group): Truncation {
    Truncation(g.target, Complete, g.totalBytes, g.totalBytes)
  }

  function AllOmitted(groups: seq<Group>): (t: seq<Truncation>)
    ensures |t| == |groups|
    ensures forall i :: 0 <= i < |groups| ==> t[i] == OmittedTruncation(groups[i])
  {
    seq(|groups|, i requires 0 <= i < |groups| => OmittedTruncation(groups[i]))
  }

  /** The whole group is retained and fits with its full header. */
  predicate FitsWhole(lay: Layout, g: Group, room: int) {
    |g.bytes| == g.totalBytes && |FullHeader(lay, g)| + |g.bytes| <= room
  }

  /** The sections that fit in `room` bytes: whole groups, then at most one cut group. */
  function Sections(lay: Layout, groups: seq<Group>, room: int): (b: Body)
    requires AllRenderable(groups)
    ensures |b.truncations| == |groups|
  {
    if groups == [] then Body([], [])
    else
      var g := groups[0];
      if FitsWhole(lay, g, room) then
        var rest := Sections(lay, groups[1..], room - |FullHeader(lay, g)| - |g.bytes|);
        Body(FullHeader(lay, g) + g.bytes + rest.bytes, [CompleteTruncation(g)] + rest.truncations)
      else
        var shown := FitLength(lay, g, room);
        if shown > 0 then
          Body(lay.header(g.target, shown, g.totalBytes) + g.bytes[..shown] + lay.marker,
               [Truncation(g.target, Truncated, shown, g.totalBytes)] + AllOmitted(groups[1..]))
        else
          Body([], AllOmitted(groups))
  }

  /** What `_render_truncated_body` produces for one summary budget. */
  function TruncatedBody(lay: Layout, groups: seq<Group>, instruction: seq<Byte>, budget: int): (b: Body)
    requires AllRenderable(groups)
    ensures |b.truncations| == |groups|
  {
    var s := Sections(lay, groups, MAX_INJECTION_BYTES - budget - |instruction|);
    Body(instruction + s.bytes, s.truncations)
  }

  /** `goal` is what has been emitted so far followed by what `rest` contributes. */
  ghost predicate Emits(goal: Body, block: seq<Byte>, truncations: seq<Truncation>, rest: Body) {
    goal.bytes == block + rest.bytes && goal.truncations == truncations + rest.truncations
  }

  lemma EmitsMore(goal: Body, block: seq<Byte>, truncations: seq<Truncation>, rest: Body,
                  section: seq<Byte>, t: Truncation, tail: Body)
    requires Emits(goal, block, truncations, rest)
    requires rest.bytes == section + tail.bytes && rest.truncations == [t] + tail.truncations
    ensures Emits(goal, block + section, truncations + [t], tail)
  {
    assert block + (section + tail.bytes) == (block + section) + tail.bytes;
    assert truncations + ([t] + tail.truncations) == (truncations + [t]) + tail.truncations;
  }

  lemma OmittedUnfolds(groups: seq<Group>)
    requires groups != []
    ensures AllOmitted(groups) == [OmittedTruncation(groups[0])] + AllOmitted(groups[1..])
  {
  }

  /** What the remaining groups contribute once the loop has stopped, or before. */
  ghost function Remaining(lay: Layout, groups: seq<Group>, stopped: bool, room: int): Body
    requires AllRenderable(groups)
  {
    if stopped then Body([], AllOmitted(groups)) else Sections(lay, groups, room)
  }

  /** The section, truncation record and stop flag for the first of the remaining groups. */
  method RenderGroup(lay: Layout, groups: seq<Group>, stopped: bool, room: int)
    returns (section: seq<Byte>, t: Truncation, stops: bool)
    requires Orderly(lay)
    requires groups != [] && AllRenderable(groups)
    ensures var rest := Remaining(lay, groups, stopped, room);
            var tail := Remaining(lay, groups[1..], stops, room - |section|);
            rest.bytes == section + tail.bytes && rest.truncations == [t] + tail.truncations
  {
    var g := groups[0];
    OmittedUnfolds(groups);
    if stopped {
      return [], OmittedTruncation(g), true;
    }
    var fullHeader := FullHeader(lay, g);
    if |g.bytes| == g.totalBytes && |fullHeader| + |g.bytes| <= room {
      assert FitsWhole(lay, g, room);
      section, t, stops := fullHeader + g.bytes, CompleteTruncation(g), false;
      assert room - |section| == room - |fullHeader| - |g.bytes|;
      return;
    }
    var prefix := LargestFittingPrefix(lay, g, room);
    if prefix != [] {
      section := lay.header(g.target, |prefix|, g.totalBytes) + prefix + lay.marker;
      t, stops := Truncation(g.target, Truncated, |prefix|, g.totalBytes), true;
      assert section + [] == section;
    } else {
      section, t, stops := [], OmittedTruncation(g), true;
    }
  }

  /** `_render_truncated_body`: the loop over groups that stops at the first one that does not fit. */
  method RenderTruncatedBody(lay: Layout, groups: seq<Group>, instruction: seq<Byte>, budget: int) returns (b: Body)
    requires Orderly(lay) && AllRenderable(groups)
    ensures b == TruncatedBody(lay, groups, instruction, budget)
  {
    var renderLimit := MAX_INJECTION_BYTES - budget;
    var block := instruction;
    var renderedBytes := |instruction|;
    var truncations: seq<Truncation> := [];
    var stopped := false;
    ghost var goal := TruncatedBody(lay, groups, instruction, budget);
    var left := groups;
    while left != []
      invariant AllRenderable(left) && renderedBytes == |block|
      invariant Emits(goal, block, truncations, Remaining(lay, left, stopped, renderLimit - renderedBytes))
      decreases |left|
    {
      var room := renderLimit - renderedBytes;
      var section, t, stops := RenderGroup(lay, left, stopped, room);
      EmitsMore(goal, block, truncations, Remaining(lay, left, stopped, room), section, t,
                Remaining(lay, left[1..], stops, room - |section|));
      block := block + section;
      renderedBytes := renderedBytes + |section|;
      truncations := truncations + [t];
      stopped := stops;
      left := left[1..];
    }
    b := Body(block, truncations);
  }

  // ---- The truncation summary

  function CountStatus(truncations: seq<Truncation>, status: Status): (n: nat)
    ensures n <= |truncations|
  {
    if truncations == [] then 0
    else (if truncations[0].status == status then 1 else 0) + CountStatus(truncations[1..], status)
  }

  function ShownBytes(truncations: seq<Truncation>): nat {
    if truncations == [] then 0 else truncations[0].shownBytes + ShownBytes(truncations[1..])
  }

  // ---- The search for a summary budget

  datatype Candidate = Candidate(budget: nat, body: Body, summary: seq<Byte>)

  function CandidateAt(lay: Layout, groups: seq<Group>, instruction: seq<Byte>, budget: nat): Candidate
    requires AllRenderable(groups)
  {
    var body := TruncatedBody(lay, groups, instruction, budget);
    Candidate(budget, body, lay.summarize(body.truncations))
  }

  function BlockBytes(c: Candidate): nat {
    |c.body.bytes| + |c.summary|
  }

  function Feasible(cycle: seq<Candidate>): (f: seq<Candidate>)
    ensures forall c :: c in f <==> c in cycle && BlockBytes(c) <= MAX_INJECTION_BYTES
  {
    if cycle == [] then []
    else (if BlockBytes(cycle[0]) <= MAX_INJECTION_BYTES then [cycle[0]] else []) + Feasible(cycle[1..])
  }

  /** `a` beats `b` in the cycle: more content shown, then a longer body. */
  predicate Beats(a: Candidate, b: Candidate) {
    || ShownBytes(a.body.truncations) > ShownBytes(b.body.truncations)
    || (ShownBytes(a.body.truncations) == ShownBytes(b.body.truncations) && |a.body.bytes| > |b.body.bytes|)
  }

  /** The best candidate; the earliest one among equals. */
  function Best(candidates: seq<Candidate>): (c: Candidate)
    requires |candidates| > 0
    ensures c in candidates
    ensures forall d :: d in candidates ==> !Beats(d, c)
  {
    if |candidates| == 1 then candidates[0]
    else
      var rest := Best(candidates[1..]);
      assert forall d :: d in candidates ==> d == candidates[0] || d in candidates[1..];
      if Beats(rest, candidates[0]) then rest else candidates[0]
  }

  function Budgets(candidates: seq<Candidate>): set<nat> {
    set i | 0 <= i < |candidates| :: candidates[i].budget
  }

  predicate InReserve(b: nat) {
    b <= TRUNCATION_SUMMARY_RESERVE_BYTES
  }

  function AllBudgets(): set<nat> {
    set b: nat | b <= TRUNCATION_SUMMARY_RESERVE_BYTES && InReserve(b)
  }

  function IndexOfBudget(candidates: seq<Candidate>, budget: nat): (i: nat)
    requires budget in Budgets(candidates)
    ensures i < |candidates| && candidates[i].budget == budget
    ensures forall j :: 0 <= j < i ==> candidates[j].budget != budget
  {
    if candidates[0].budget == budget then 0
    else
      var k :| 0 <= k < |candidates| && candidates[k].budget == budget;
      assert candidates[1..][k - 1].budget == budget;
      1 + IndexOfBudget(candidates[1..], budget)
  }

  /** The search as a recursion: stop at a fixpoint, or pick the best feasible member of a cycle. */
  function Search(lay: Layout, groups: seq<Group>, instruction: seq<Byte>, tried: seq<Candidate>, budget: nat)
    : (r: Result<Candidate, RenderError>)
    requires AllRenderable(groups)
    requires budget <= TRUNCATION_SUMMARY_RESERVE_BYTES && budget !in Budgets(tried)
    decreases AllBudgets() - Budgets(tried)
  {
    var c := CandidateAt(lay, groups, instruction, budget);
    var next := |c.summary|;
    var all := tried + [c];
    if next > TRUNCATION_SUMMARY_RESERVE_BYTES then Err(SummaryExceedsReserve)
    else if next == budget then Ok(c)
    else if next in Budgets(all) then
      var feasible := Feasible(all[IndexOfBudget(all, next)..]);
      if feasible == [] then Err(NoFeasibleRender) else Ok(Best(feasible))
    else
      assert all[|tried|].budget == budget;
      assert budget in Budgets(all);
      assert forall i :: 0 <= i < |tried| ==> all[i] == tried[i];
      assert Budgets(tried) < Budgets(all);
      assert budget in AllBudgets() - Budgets(tried);
      Search(lay, groups, instruction, all, next)
  }

  // ---- The whole render

  function FullSize(lay: Layout, groups: seq<Group>): nat {
    if groups == [] then 0
    else |FullHeader(lay, groups[0])| + groups[0].totalBytes + FullSize(lay, groups[1..])
  }

  function AllComplete(lay: Layout, groups: seq<Group>): Body {
    if groups == [] then Body([], [])
    else
      var rest := AllComplete(lay, groups[1..]);
      Body(FullHeader(lay, groups[0]) + groups[0].bytes + rest.bytes,
           [CompleteTruncation(groups[0])] + rest.truncations)
  }

  predicate ContentRetained(groups: seq<Group>) {
    forall i :: 0 <= i < |groups| ==> |groups[i].bytes| == groups[i].totalBytes
  }

  /** `render_content_snapshot` for an already selected instruction text. */
  function Render(lay: Layout, groups: seq<Group>, instructionText: string): Result<Rendered, RenderError>
    requires AllRenderable(groups)
  {
    var instruction := Encode(instructionText);
    if |instruction| > MAX_INSTRUCTION_BYTES then Err(InstructionExceedsLimit)
    else
      var full := |instruction| + FullSize(lay, groups);
      if full <= MAX_INJECTION_BYTES && ContentRetained(groups) then
        var body := AllComplete(lay, groups);
        Ok(Rendered(instruction + body.bytes, full, false, [], body.truncations))
      else
        match Search(lay, groups, instruction, [], TRUNCATION_SUMMARY_RESERVE_BYTES)
        case Err(e) => Err(e)
        case Ok(c) =>
          if BlockBytes(c) > MAX_INJECTION_BYTES then Err(BlockExceedsLimit)
          else Ok(Rendered(c.body.bytes + c.summary, full, true, c.summary, c.body.truncations))
  }

  /** The untruncated branch of `render_content_snapshot`. */
  method RenderComplete(lay: Layout, groups: seq<Group>, instruction: seq<Byte>) returns (b: Body)
    ensures b.bytes == instruction + AllComplete(lay, groups).bytes
    ensures b.truncations == AllComplete(lay, groups).truncations
  {
    var block, truncations := instruction, [];
    ghost var goal := Body(instruction + AllComplete(lay, groups).bytes, AllComplete(lay, groups).truncations);
    assert groups[0..] == groups;
    for i := 0 to |groups|
      invariant Emits(goal, block, truncations, AllComplete(lay, groups[i..]))
    {
      assert groups[i..][1..] == groups[i + 1..];
      var section := FullHeader(lay, groups[i]) + groups[i].bytes;
      EmitsMore(goal, block, truncations, AllComplete(lay, groups[i..]), section, CompleteTruncation(groups[i]),
                AllComplete(lay, groups[i + 1..]));
      block := block + section;
      truncations := truncations + [CompleteTruncation(groups[i])];
    }
    assert groups[|groups|..] == [];
    b := Body(block, truncations);
  }

  /** The budget loop: candidates in order, and the index at which each budget was tried. */
  method SearchBudget(lay: Layout, groups: seq<Group>, instruction: seq<Byte>) returns (r: Result<Candidate, RenderError>)
    requires Orderly(lay) && AllRenderable(groups)
    ensures r == Search(lay, groups, instruction, [], TRUNCATION_SUMMARY_RESERVE_BYTES)
  {
    var budget: nat := TRUNCATION_SUMMARY_RESERVE_BYTES;
    var seen: map<nat, nat> := map[];
    var candidates: seq<Candidate> := [];
    while true
      invariant budget <= TRUNCATION_SUMMARY_RESERVE_BYTES && budget !in Budgets(candidates)
      invariant seen.Keys == Budgets(candidates)
      invariant forall b :: b in seen ==> seen[b] == IndexOfBudget(candidates, b)
      invariant Search(lay, groups, instruction, candidates, budget)
             == Search(lay, groups, instruction, [], TRUNCATION_SUMMARY_RESERVE_BYTES)
      decreases AllBudgets() - Budgets(candidates)
    {
      var body := RenderTruncatedBody(lay, groups, instruction, budget);
      var summary := lay.summarize(body.truncations);
      if |summary| > TRUNCATION_SUMMARY_RESERVE_BYTES {
        return Err(SummaryExceedsReserve);
      }
      var c := Candidate(budget, body, summary);
      SeenStaysExact(seen, candidates, c);
      BudgetsOfAppend(candidates, c);
      seen := seen[budget := |candidates|];
      ghost var before := Budgets(candidates);
      candidates := candidates + [c];
      if |summary| == budget {
        return Ok(c);
      }
      var next := |summary|;
      if next in seen {
        var feasible := Feasible(candidates[seen[next]..]);
        if feasible == [] {
          return Err(NoFeasibleRender);
        }
        return Ok(Best(feasible));
      }
      assert budget in AllBudgets() - before;
      budget := next;
    }
  }

  lemma IndexOfBudgetUnique(candidates: seq<Candidate>, i: nat)
    requires i < |candidates|
    requires forall j :: 0 <= j < i ==> candidates[j].budget != candidates[i].budget
    ensures candidates[i].budget in Budgets(candidates)
    ensures IndexOfBudget(candidates, candidates[i].budget) == i
  {
  }

  lemma BudgetsOfAppend(candidates: seq<Candidate>, c: Candidate)
    ensures Budgets(candidates + [c]) == Budgets(candidates) + {c.budget}
  {
    var all := candidates + [c];
    assert all[|candidates|] == c;
    forall b | b in Budgets(candidates)
      ensures b in Budgets(all)
    {
      var i :| 0 <= i < |candidates| && candidates[i].budget == b;
      assert all[i].budget == b;
    }
  }

  lemma SeenStaysExact(seen: map<nat, nat>, candidates: seq<Candidate>, c: Candidate)
    requires seen.Keys == Budgets(candidates) && c.budget !in Budgets(candidates)
    requires forall b :: b in seen ==> seen[b] == IndexOfBudget(candidates, b)
    ensures seen[c.budget := |candidates|].Keys == Budgets(candidates + [c])
    ensures forall b :: b in seen[c.budget := |candidates|] ==>
              seen[c.budget := |candidates|][b] == IndexOfBudget(candidates + [c], b)
  {
    var all := candidates + [c];
    BudgetsOfAppend(candidates, c);
    forall b | b in Budgets(all)
      ensures seen[c.budget := |candidates|][b] == IndexOfBudget(all, b)
    {
      var i := if b == c.budget then |candidates| else IndexOfBudget(candidates, b);
      assert forall j :: 0 <= j < |candidates| ==> all[j] == candidates[j] && candidates[j].budget in Budgets(candidates);
      IndexOfBudgetUnique(all, i);
    }
  }

  /** `render_content_snapshot`. */
  method RenderContentSnapshot(lay: Layout, groups: seq<Group>, instructionText: string)
    returns (r: Result<Rendered, RenderError>)
    requires Orderly(lay) && AllRenderable(groups)
    ensures r == Render(lay, groups, instructionText)
  {
    var instruction := Encode(instructionText);
    if |instruction| > MAX_INSTRUCTION_BYTES {
      return Err(InstructionExceedsLimit);
    }
    var full := |instruction| + FullSize(lay, groups);
    if full <= MAX_INJECTION_BYTES && ContentRetained(groups) {
      var body := RenderComplete(lay, groups, instruction);
      return Ok(Rendered(body.bytes, full, false, [], body.truncations));
    }
    var selected := SearchBudget(lay, groups, instruction);
    if selected.Err? {
      return Err(selected.error);
    }
    var c := selected.value;
    var block := c.body.bytes + c.summary;
    if |block| > MAX_INJECTION_BYTES {
      return Err(BlockExceedsLimit);
    }
    return Ok(Rendered(block, full, true, c.summary, c.body.truncations));
  }
}
