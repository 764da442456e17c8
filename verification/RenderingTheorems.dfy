/** What every render guarantees: the byte cap, termination without the "impossible" errors, the
    shape of the statuses, and which member of a budget cycle is chosen. */
module RenderingTheorems {
  import opened Utf8
  import opened SnapshotTypes
  import opened Fitting
  import opened Rendering

  // ---- Sections never exceed their room

  lemma {:induction false} SectionsFit(lay: Layout, groups: seq<Group>, room: int)
    requires Orderly(lay) && AllRenderable(groups) && room >= 0
    ensures |Sections(lay, groups, room).bytes| <= room
  {
    if groups != [] {
      var g := groups[0];
      if FitsWhole(lay, g, room) {
        SectionsFit(lay, groups[1..], room - |FullHeader(lay, g)| - |g.bytes|);
      } else {
        FitLengthIsLargest(lay, g, room);
      }
    }
  }

  lemma BodyFits(lay: Layout, groups: seq<Group>, instruction: seq<Byte>, budget: nat)
    requires Orderly(lay) && AllRenderable(groups)
    requires |instruction| <= MAX_INSTRUCTION_BYTES && budget <= TRUNCATION_SUMMARY_RESERVE_BYTES
    ensures |TruncatedBody(lay, groups, instruction, budget).bytes| <= MAX_INJECTION_BYTES - budget
  {
    SectionsFit(lay, groups, MAX_INJECTION_BYTES - budget - |instruction|);
  }

  // ---- The budget orbit

  /** The next budget the search tries after `b`. */
  function NextBudget(lay: Layout, groups: seq<Group>, instruction: seq<Byte>, b: nat): nat
    requires AllRenderable(groups)
  {
    |CandidateAt(lay, groups, instruction, b).summary|
  }

  function Orbit(lay: Layout, groups: seq<Group>, instruction: seq<Byte>, b: nat, k: nat): nat
    requires AllRenderable(groups)
  {
    if k == 0 then b else NextBudget(lay, groups, instruction, Orbit(lay, groups, instruction, b, k - 1))
  }

  lemma {:induction false} OrbitAdd(lay: Layout, groups: seq<Group>, instruction: seq<Byte>, b: nat, j: nat, k: nat)
    requires AllRenderable(groups)
    ensures Orbit(lay, groups, instruction, b, j + k) == Orbit(lay, groups, instruction, Orbit(lay, groups, instruction, b, j), k)
  {
    if k > 0 {
      OrbitAdd(lay, groups, instruction, b, j, k - 1);
      assert Orbit(lay, groups, instruction, b, j + k)
          == NextBudget(lay, groups, instruction, Orbit(lay, groups, instruction, b, j + (k - 1)));
    }
  }

  /** The candidates tried so far follow the orbit of the initial budget. */
  ghost predicate Chain(lay: Layout, groups: seq<Group>, instruction: seq<Byte>, tried: seq<Candidate>)
    requires AllRenderable(groups)
  {
    && (forall i :: 0 <= i < |tried| ==>
          && tried[i].budget <= TRUNCATION_SUMMARY_RESERVE_BYTES
          && tried[i] == CandidateAt(lay, groups, instruction, tried[i].budget))
    && (forall i :: 0 <= i < |tried| - 1 ==> |tried[i].summary| == tried[i + 1].budget)
  }

  lemma {:induction false} ChainIsOrbit(lay: Layout, groups: seq<Group>, instruction: seq<Byte>, tried: seq<Candidate>, i: nat, j: nat)
    requires AllRenderable(groups) && Chain(lay, groups, instruction, tried) && i <= j < |tried|
    ensures Orbit(lay, groups, instruction, tried[i].budget, j - i) == tried[j].budget
    decreases j
  {
    if j > i {
      ChainIsOrbit(lay, groups, instruction, tried, i, j - 1);
      assert tried[j - 1 + 1] == tried[j];
    }
  }

  /** A cycle: from `start` on, the chain returns to its own beginning. */
  ghost predicate Cycle(lay: Layout, groups: seq<Group>, instruction: seq<Byte>, all: seq<Candidate>, start: nat)
    requires AllRenderable(groups)
  {
    && Chain(lay, groups, instruction, all)
    && start < |all|
    && |all[|all| - 1].summary| == all[start].budget
  }

  /** The member with the greatest budget has a summary that fits its budget, so it is feasible. */
  lemma CycleHasFeasibleMember(lay: Layout, groups: seq<Group>, instruction: seq<Byte>, all: seq<Candidate>, start: nat)
    returns (i: nat)
    requires Orderly(lay) && AllRenderable(groups) && Cycle(lay, groups, instruction, all, start)
    requires |instruction| <= MAX_INSTRUCTION_BYTES
    ensures start <= i < |all| && BlockBytes(all[i]) <= MAX_INJECTION_BYTES
  {
    i := start;
    for j := start to |all|
      invariant start <= i < |all|
      invariant forall k :: start <= k < j ==> all[k].budget <= all[i].budget
    {
      if all[j].budget > all[i].budget {
        i := j;
      }
    }
    var successor := if i + 1 < |all| then i + 1 else start;
    assert |all[i].summary| == all[successor].budget <= all[i].budget;
    BodyFits(lay, groups, instruction, all[i].budget);
  }

  /** Every budget reached from a member of a cycle is again a member. */
  lemma {:induction false} CycleIsClosed(lay: Layout, groups: seq<Group>, instruction: seq<Byte>, all: seq<Candidate>, start: nat,
                                         i: nat, k: nat)
    returns (j: nat)
    requires AllRenderable(groups) && Cycle(lay, groups, instruction, all, start)
    requires start <= i < |all|
    ensures start <= j < |all| && all[j].budget == Orbit(lay, groups, instruction, all[i].budget, k)
  {
    if k == 0 {
      j := i;
    } else {
      var h := CycleIsClosed(lay, groups, instruction, all, start, i, k - 1);
      j := if h + 1 < |all| then h + 1 else start;
    }
  }

  lemma CycleReturns(lay: Layout, groups: seq<Group>, instruction: seq<Byte>, all: seq<Candidate>, start: nat, i: nat)
    requires AllRenderable(groups) && Cycle(lay, groups, instruction, all, start)
    requires start <= i < |all|
    ensures Orbit(lay, groups, instruction, all[i].budget, |all| - start) == all[i].budget
  {
    var last := |all| - 1;
    ChainIsOrbit(lay, groups, instruction, all, i, last);
    assert Orbit(lay, groups, instruction, all[i].budget, last - i + 1) == all[start].budget;
    ChainIsOrbit(lay, groups, instruction, all, start, i);
    OrbitAdd(lay, groups, instruction, all[i].budget, last - i + 1, i - start);
  }

  /** `c` is a candidate on a budget cycle, it fits, and no feasible member of the cycle beats it. */
  ghost predicate BestOnCycle(lay: Layout, groups: seq<Group>, instruction: seq<Byte>, c: Candidate)
    requires AllRenderable(groups)
  {
    && c == CandidateAt(lay, groups, instruction, c.budget)
    && c.budget <= TRUNCATION_SUMMARY_RESERVE_BYTES
    && BlockBytes(c) <= MAX_INJECTION_BYTES
    && (exists p: nat :: p > 0 && Orbit(lay, groups, instruction, c.budget, p) == c.budget)
    && (forall k: nat ::
          var d := CandidateAt(lay, groups, instruction, Orbit(lay, groups, instruction, c.budget, k));
          BlockBytes(d) <= MAX_INJECTION_BYTES ==> !Beats(d, c))
  }

  lemma FixpointIsBest(lay: Layout, groups: seq<Group>, instruction: seq<Byte>, c: Candidate)
    requires Orderly(lay) && AllRenderable(groups) && |instruction| <= MAX_INSTRUCTION_BYTES
    requires c == CandidateAt(lay, groups, instruction, c.budget)
    requires c.budget <= TRUNCATION_SUMMARY_RESERVE_BYTES && |c.summary| == c.budget
    ensures BestOnCycle(lay, groups, instruction, c)
  {
    BodyFits(lay, groups, instruction, c.budget);
    assert Orbit(lay, groups, instruction, c.budget, 1) == NextBudget(lay, groups, instruction, Orbit(lay, groups, instruction, c.budget, 0));
    assert Cycle(lay, groups, instruction, [c], 0);
    forall k: nat
      ensures Orbit(lay, groups, instruction, c.budget, k) == c.budget
    {
      var _ := CycleIsClosed(lay, groups, instruction, [c], 0, 0, k);
    }
  }

  /** The choice among the members of a cycle: it fits, no member that fits beats it, and it beats every earlier one that fits. */
  lemma {:induction false} EarliestOfTheBest(cycle: seq<Candidate>) returns (i: nat)
    requires Feasible(cycle) != []
    ensures i < |cycle| && cycle[i] == Best(Feasible(cycle)) && BlockBytes(cycle[i]) <= MAX_INJECTION_BYTES
    ensures forall j :: 0 <= j < |cycle| && BlockBytes(cycle[j]) <= MAX_INJECTION_BYTES ==> !Beats(cycle[j], cycle[i])
    ensures forall j :: 0 <= j < i && BlockBytes(cycle[j]) <= MAX_INJECTION_BYTES ==> Beats(cycle[i], cycle[j])
  {
    i := 0;
    var rest := cycle[1..];
    if Feasible(rest) != [] {
      var k := EarliestOfTheBest(rest);
      BestOfMore(cycle, rest[k]);
      if Best(Feasible(cycle)) == rest[k] && (BlockBytes(cycle[0]) > MAX_INJECTION_BYTES || Beats(rest[k], cycle[0])) {
        i := k + 1;
      }
    }
    NoneBeatsBest(cycle);
  }

  /** One more member in front: it is the choice, unless it does not fit or the choice among the others beats it. */
  lemma BestOfMore(cycle: seq<Candidate>, later: Candidate)
    requires cycle != [] && Feasible(cycle[1..]) != [] && later == Best(Feasible(cycle[1..]))
    ensures Feasible(cycle) != []
    ensures Best(Feasible(cycle)) ==
              if BlockBytes(cycle[0]) > MAX_INJECTION_BYTES || Beats(later, cycle[0]) then later else cycle[0]
  {
    var rest := Feasible(cycle[1..]);
    assert BlockBytes(cycle[0]) > MAX_INJECTION_BYTES ==> Feasible(cycle) == rest;
    assert BlockBytes(cycle[0]) <= MAX_INJECTION_BYTES ==> Feasible(cycle) == [cycle[0]] + rest && Feasible(cycle)[1..] == rest;
  }

  lemma NoneBeatsBest(cycle: seq<Candidate>)
    requires Feasible(cycle) != []
    ensures forall j :: 0 <= j < |cycle| && BlockBytes(cycle[j]) <= MAX_INJECTION_BYTES ==> !Beats(cycle[j], Best(Feasible(cycle)))
  {
    forall j | 0 <= j < |cycle| && BlockBytes(cycle[j]) <= MAX_INJECTION_BYTES
      ensures !Beats(cycle[j], Best(Feasible(cycle)))
    {
      assert cycle[j] in Feasible(cycle);
    }
  }

  lemma CycleChoiceIsBest(lay: Layout, groups: seq<Group>, instruction: seq<Byte>, all: seq<Candidate>, start: nat)
    requires Orderly(lay) && AllRenderable(groups) && |instruction| <= MAX_INSTRUCTION_BYTES
    requires Cycle(lay, groups, instruction, all, start)
    ensures Feasible(all[start..]) != []
    ensures BestOnCycle(lay, groups, instruction, Best(Feasible(all[start..])))
    ensures Best(Feasible(all[start..])) in all
  {
    var f := CycleHasFeasibleMember(lay, groups, instruction, all, start);
    assert all[start..][f - start] == all[f];
    assert all[f] in Feasible(all[start..]);
    var c := Best(Feasible(all[start..]));
    assert c in all[start..];
    var i :| start <= i < |all| && all[i] == c;
    CycleReturns(lay, groups, instruction, all, start, i);
    forall k: nat | BlockBytes(CandidateAt(lay, groups, instruction, Orbit(lay, groups, instruction, c.budget, k))) <= MAX_INJECTION_BYTES
      ensures !Beats(CandidateAt(lay, groups, instruction, Orbit(lay, groups, instruction, c.budget, k)), c)
    {
      var j := CycleIsClosed(lay, groups, instruction, all, start, i, k);
      assert all[start..][j - start] == all[j];
    }
  }

  /** The search that starts with budget `start` gets to this budget. */
  ghost predicate ReachedFrom(lay: Layout, groups: seq<Group>, instruction: seq<Byte>, start: nat, budget: nat)
    requires AllRenderable(groups)
  {
    exists m: nat :: Orbit(lay, groups, instruction, start, m) == budget
  }

  lemma ReachedInChain(lay: Layout, groups: seq<Group>, instruction: seq<Byte>, all: seq<Candidate>, c: Candidate)
    requires AllRenderable(groups) && Chain(lay, groups, instruction, all) && c in all
    ensures ReachedFrom(lay, groups, instruction, all[0].budget, c.budget)
  {
    var i :| 0 <= i < |all| && all[i] == c;
    ChainIsOrbit(lay, groups, instruction, all, 0, i);
    assert Orbit(lay, groups, instruction, all[0].budget, i) == c.budget;
  }

  lemma ChainGrows(lay: Layout, groups: seq<Group>, instruction: seq<Byte>, tried: seq<Candidate>, budget: nat)
    requires AllRenderable(groups) && Chain(lay, groups, instruction, tried) && budget <= TRUNCATION_SUMMARY_RESERVE_BYTES
    requires tried != [] ==> |tried[|tried| - 1].summary| == budget
    ensures Chain(lay, groups, instruction, tried + [CandidateAt(lay, groups, instruction, budget)])
  {
  }

  /** The search ends in the best member of the cycle that it runs into from its first budget, or in the summary-reserve
      error; it is never stuck. */
  lemma {:induction false} SearchNeverStuck(lay: Layout, groups: seq<Group>, instruction: seq<Byte>, tried: seq<Candidate>, budget: nat)
    requires Orderly(lay) && AllRenderable(groups) && |instruction| <= MAX_INSTRUCTION_BYTES
    requires budget <= TRUNCATION_SUMMARY_RESERVE_BYTES && budget !in Budgets(tried)
    requires Chain(lay, groups, instruction, tried)
    requires tried != [] ==> |tried[|tried| - 1].summary| == budget
    ensures match Search(lay, groups, instruction, tried, budget)
            case Ok(c) =>
              && BestOnCycle(lay, groups, instruction, c)
              && ReachedFrom(lay, groups, instruction, if tried == [] then budget else tried[0].budget, c.budget)
            case Err(e) => e == SummaryExceedsReserve
    decreases AllBudgets() - Budgets(tried)
  {
    var c := CandidateAt(lay, groups, instruction, budget);
    var next := |c.summary|;
    var all := tried + [c];
    ChainGrows(lay, groups, instruction, tried, budget);
    if next > TRUNCATION_SUMMARY_RESERVE_BYTES {
    } else if next == budget {
      FixpointIsBest(lay, groups, instruction, c);
      ReachedInChain(lay, groups, instruction, all, c);
    } else if next in Budgets(all) {
      var start := IndexOfBudget(all, next);
      CycleChoiceIsBest(lay, groups, instruction, all, start);
      ReachedInChain(lay, groups, instruction, all, Best(Feasible(all[start..])));
    } else {
      BudgetsGrow(tried, c);
      SearchNeverStuck(lay, groups, instruction, all, next);
    }
  }

  lemma BudgetsGrow(tried: seq<Candidate>, c: Candidate)
    requires c.budget !in Budgets(tried) && c.budget <= TRUNCATION_SUMMARY_RESERVE_BYTES
    ensures AllBudgets() - Budgets(tried + [c]) < AllBudgets() - Budgets(tried)
  {
    var all := tried + [c];
    assert all[|tried|] == c;
    assert forall i :: 0 <= i < |tried| ==> all[i] == tried[i];
    assert Budgets(tried) <= Budgets(all);
    assert c.budget in AllBudgets() - Budgets(tried);
  }

  /** The byte cap and the absence of the "cannot happen" errors, for every snapshot and text. */
  lemma RenderIsCappedAndNeverStuck(lay: Layout, groups: seq<Group>, instructionText: string)
    requires Orderly(lay) && AllRenderable(groups)
    ensures var r := Render(lay, groups, instructionText);
            && (r.Ok? ==> |r.value.block| <= MAX_INJECTION_BYTES)
            && (r.Err? ==> r.error in {InstructionExceedsLimit, SummaryExceedsReserve})
            && (r == Err(InstructionExceedsLimit) <==> |Encode(instructionText)| > MAX_INSTRUCTION_BYTES)
  {
    var instruction := Encode(instructionText);
    if |instruction| <= MAX_INSTRUCTION_BYTES {
      if |instruction| + FullSize(lay, groups) <= MAX_INJECTION_BYTES && ContentRetained(groups) {
        CompleteLength(lay, groups);
      } else {
        SearchNeverStuck(lay, groups, instruction, [], TRUNCATION_SUMMARY_RESERVE_BYTES);
      }
    }
  }

  /** In a truncated render the block is one best-on-cycle body followed by its own summary. */
  lemma TruncatedRenderIsBest(lay: Layout, groups: seq<Group>, instructionText: string)
    requires Orderly(lay) && AllRenderable(groups)
    ensures var r := Render(lay, groups, instructionText);
            r.Ok? && r.value.wasTruncated ==>
              exists c :: BestOnCycle(lay, groups, Encode(instructionText), c)
                          && ReachedFrom(lay, groups, Encode(instructionText), TRUNCATION_SUMMARY_RESERVE_BYTES, c.budget)
                          && r.value.block == c.body.bytes + lay.summarize(c.body.truncations)
                          && r.value.summary == lay.summarize(c.body.truncations)
                          && r.value.truncations == c.body.truncations
  {
    var instruction := Encode(instructionText);
    var r := Render(lay, groups, instructionText);
    if r.Ok? && r.value.wasTruncated {
      SearchNeverStuck(lay, groups, instruction, [], TRUNCATION_SUMMARY_RESERVE_BYTES);
      var c := Search(lay, groups, instruction, [], TRUNCATION_SUMMARY_RESERVE_BYTES).value;
      assert BestOnCycle(lay, groups, instruction, c);
    }
  }

  // ---- Statuses

  /** complete*, then at most one cut group showing part of its bytes, then omitted*. */
  predicate Shaped(truncations: seq<Truncation>) {
    truncations == []
    || (&& truncations[0].status == Complete
        && truncations[0].shownBytes == truncations[0].totalBytes
        && Shaped(truncations[1..]))
    || (&& truncations[0].status == Truncated
        && 0 < truncations[0].shownBytes < truncations[0].totalBytes
        && RestOmitted(truncations[1..]))
    || RestOmitted(truncations)
  }

  predicate RestOmitted(truncations: seq<Truncation>) {
    forall i :: 0 <= i < |truncations| ==> truncations[i].status == Omitted && truncations[i].shownBytes == 0
  }

  ghost predicate Names(truncations: seq<Truncation>, groups: seq<Group>) {
    && |truncations| == |groups|
    && forall i :: 0 <= i < |groups| ==>
         truncations[i].target == groups[i].target && truncations[i].totalBytes == groups[i].totalBytes
  }

  /** A cut group shows fewer bytes than it has: showing all of them would have fitted whole. */
  lemma CutShowsLess(lay: Layout, g: Group, room: int)
    requires Orderly(lay) && Renderable(g) && !FitsWhole(lay, g, room)
    ensures FitLength(lay, g, room) > 0 ==> FitLength(lay, g, room) < g.totalBytes
  {
    FitLengthIsLargest(lay, g, room);
  }

  lemma {:induction false} SectionsShaped(lay: Layout, groups: seq<Group>, room: int)
    requires Orderly(lay) && AllRenderable(groups)
    ensures Shaped(Sections(lay, groups, room).truncations)
    ensures Names(Sections(lay, groups, room).truncations, groups)
  {
    if groups != [] {
      var g, t := groups[0], Sections(lay, groups, room).truncations;
      if FitsWhole(lay, g, room) {
        SectionsShaped(lay, groups[1..], room - |FullHeader(lay, g)| - |g.bytes|);
        assert t[1..] == Sections(lay, groups[1..], room - |FullHeader(lay, g)| - |g.bytes|).truncations;
      } else {
        CutShowsLess(lay, g, room);
        assert FitLength(lay, g, room) > 0 ==> t[1..] == AllOmitted(groups[1..]);
      }
    }
  }

  lemma {:induction false} CompleteShaped(lay: Layout, groups: seq<Group>)
    ensures Shaped(AllComplete(lay, groups).truncations)
    ensures Names(AllComplete(lay, groups).truncations, groups)
    ensures forall t :: t in AllComplete(lay, groups).truncations ==> t.status == Complete
  {
    if groups != [] {
      CompleteShaped(lay, groups[1..]);
      assert AllComplete(lay, groups).truncations[1..] == AllComplete(lay, groups[1..]).truncations;
    }
  }

  lemma {:induction false} CompleteLength(lay: Layout, groups: seq<Group>)
    requires ContentRetained(groups)
    ensures |AllComplete(lay, groups).bytes| == FullSize(lay, groups)
  {
    if groups != [] {
      CompleteLength(lay, groups[1..]);
    }
  }

  /** All groups are complete exactly when all content is retained and the full size fits. */
  lemma {:induction false} CompleteIffFits(lay: Layout, groups: seq<Group>, room: int)
    requires AllRenderable(groups)
    ensures (forall t :: t in Sections(lay, groups, room).truncations ==> t.status == Complete)
       <==> groups == [] || (ContentRetained(groups) && FullSize(lay, groups) <= room)
  {
    if groups != [] {
      var g, s := groups[0], Sections(lay, groups, room);
      if FitsWhole(lay, g, room) {
        var rest := Sections(lay, groups[1..], room - |FullHeader(lay, g)| - |g.bytes|);
        CompleteIffFits(lay, groups[1..], room - |FullHeader(lay, g)| - |g.bytes|);
        assert s.truncations[0] == CompleteTruncation(g);
        assert forall t :: t in s.truncations <==> t == CompleteTruncation(g) || t in rest.truncations;
        assert ContentRetained(groups) <==> ContentRetained(groups[1..]) by {
          assert forall i :: 1 <= i < |groups| ==> groups[i] == groups[1..][i - 1];
        }
      } else {
        assert s.truncations[0].status != Complete;
        assert s.truncations[0] in s.truncations;
      }
    }
  }

  /** The statuses of sections that do not all fit. */
  ghost predicate StatusesOk(t: seq<Truncation>, groups: seq<Group>, allFit: bool) {
    Shaped(t) && Names(t, groups) && (!allFit ==> exists x :: x in t && x.status != Complete)
  }

  lemma SectionStatuses(lay: Layout, groups: seq<Group>, room: int, allFit: bool)
    requires Orderly(lay) && AllRenderable(groups)
    requires !allFit ==> groups != [] && !(ContentRetained(groups) && FullSize(lay, groups) <= room)
    ensures StatusesOk(Sections(lay, groups, room).truncations, groups, allFit)
  {
    SectionsShaped(lay, groups, room);
    if !allFit {
      SomeIncomplete(lay, groups, room);
    }
  }

  lemma CandidateStatuses(lay: Layout, groups: seq<Group>, instruction: seq<Byte>, budget: nat, allFit: bool)
    requires Orderly(lay) && AllRenderable(groups)
    requires !allFit ==> groups != [] && !(ContentRetained(groups) && |instruction| + FullSize(lay, groups) <= MAX_INJECTION_BYTES)
    ensures StatusesOk(CandidateAt(lay, groups, instruction, budget).body.truncations, groups, allFit)
  {
    var room := MAX_INJECTION_BYTES - budget - |instruction|;
    assert CandidateAt(lay, groups, instruction, budget).body.truncations == Sections(lay, groups, room).truncations;
    SectionStatuses(lay, groups, room, allFit);
  }

  lemma SomeIncomplete(lay: Layout, groups: seq<Group>, room: int)
    requires AllRenderable(groups) && groups != [] && !(ContentRetained(groups) && FullSize(lay, groups) <= room)
    ensures exists x :: x in Sections(lay, groups, room).truncations && x.status != Complete
  {
    CompleteIffFits(lay, groups, room);
  }

  /** Status shape of every render, and the truncation flag read off the statuses and the size. */
  lemma RenderStatuses(lay: Layout, groups: seq<Group>, instructionText: string)
    requires Orderly(lay) && AllRenderable(groups)
    ensures var r := Render(lay, groups, instructionText);
            r.Ok? ==>
              && Shaped(r.value.truncations)
              && Names(r.value.truncations, groups)
              && (r.value.wasTruncated <==>
                    !(ContentRetained(groups) && |Encode(instructionText)| + FullSize(lay, groups) <= MAX_INJECTION_BYTES))
              && (r.value.wasTruncated <==> exists t :: t in r.value.truncations && t.status != Complete)
              && (!r.value.wasTruncated ==> |r.value.block| == r.value.preTruncationBytes)
  {
    var instruction := Encode(instructionText);
    var r := Render(lay, groups, instructionText);
    if r.Ok? {
      if r.value.wasTruncated {
        TruncatedRenderIsBest(lay, groups, instructionText);
        var c :| BestOnCycle(lay, groups, instruction, c) && r.value.truncations == c.body.truncations;
        CandidateStatuses(lay, groups, instruction, c.budget, groups == []);
      } else {
        CompleteShaped(lay, groups);
        CompleteLength(lay, groups);
      }
    }
  }

  // ---- The summary reserve

  /** When every summary of this many groups fits the reserve, the search succeeds. */
  lemma {:induction false} SearchSucceeds(lay: Layout, groups: seq<Group>, instruction: seq<Byte>,
                                          tried: seq<Candidate>, budget: nat)
    requires Orderly(lay) && AllRenderable(groups) && |instruction| <= MAX_INSTRUCTION_BYTES
    requires budget <= TRUNCATION_SUMMARY_RESERVE_BYTES && budget !in Budgets(tried)
    requires Chain(lay, groups, instruction, tried)
    requires tried != [] ==> |tried[|tried| - 1].summary| == budget
    requires forall t :: |t| == |groups| ==> |lay.summarize(t)| <= TRUNCATION_SUMMARY_RESERVE_BYTES
    ensures Search(lay, groups, instruction, tried, budget).Ok?
    decreases AllBudgets() - Budgets(tried)
  {
    var c := CandidateAt(lay, groups, instruction, budget);
    var all := tried + [c];
    CandidateSummaryFits(lay, groups, instruction, budget);
    if |c.summary| != budget && |c.summary| !in Budgets(all) {
      ChainGrows(lay, groups, instruction, tried, budget);
      BudgetsGrow(tried, c);
      SearchSucceeds(lay, groups, instruction, all, |c.summary|);
    } else {
      SearchNeverStuck(lay, groups, instruction, tried, budget);
    }
  }

  lemma CandidateSummaryFits(lay: Layout, groups: seq<Group>, instruction: seq<Byte>, budget: nat)
    requires AllRenderable(groups)
    requires forall t :: |t| == |groups| ==> |lay.summarize(t)| <= TRUNCATION_SUMMARY_RESERVE_BYTES
    ensures |CandidateAt(lay, groups, instruction, budget).summary| <= TRUNCATION_SUMMARY_RESERVE_BYTES
  {
    assert |CandidateAt(lay, groups, instruction, budget).body.truncations| == |groups|;
  }

  lemma RenderSucceeds(lay: Layout, groups: seq<Group>, instructionText: string)
    requires Orderly(lay) && AllRenderable(groups)
    requires |Encode(instructionText)| <= MAX_INSTRUCTION_BYTES
    requires forall t :: |t| == |groups| ==> |lay.summarize(t)| <= TRUNCATION_SUMMARY_RESERVE_BYTES
    ensures Render(lay, groups, instructionText).Ok?
  {
    RenderIsCappedAndNeverStuck(lay, groups, instructionText);
    SearchSucceeds(lay, groups, Encode(instructionText), [], TRUNCATION_SUMMARY_RESERVE_BYTES);
  }
}
