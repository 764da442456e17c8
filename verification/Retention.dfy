/** Keeping at most one injection budget of content never changes what is rendered. */
module Retention {
  import opened Utf8
  import opened SnapshotTypes
  import opened Fitting
  import opened Rendering
  import opened RenderingTheorems

  /** What `build_content_snapshot` keeps of each group when `keep` bytes are still allowed. */
  function Retain(groups: seq<Group>, keep: nat): (kept: seq<Group>)
    ensures |kept| == |groups|
  {
    if groups == [] then []
    else
      var g := groups[0];
      var bytes := RetainedBytes(g, keep);
      [g.(bytes := bytes)] + Retain(groups[1..], keep - |bytes|)
  }

  function RetainedBytes(g: Group, keep: nat): (bytes: seq<Byte>)
    ensures |bytes| <= keep && bytes <= g.bytes
  {
    StrictPrefix(g.bytes, keep)
  }

  function RetainedTotal(groups: seq<Group>): nat {
    if groups == [] then 0 else |groups[0].bytes| + RetainedTotal(groups[1..])
  }

  /** Groups that still hold their whole content. */
  ghost predicate AllWhole(groups: seq<Group>) {
    AllRenderable(groups) && ContentRetained(groups)
  }

  lemma WholeTail(groups: seq<Group>)
    requires AllWhole(groups) && groups != []
    ensures AllWhole(groups[1..]) && Decodes(groups[0].bytes) && |groups[0].bytes| == groups[0].totalBytes
  {
    assert forall i :: 0 <= i < |groups| - 1 ==> groups[1..][i] == groups[i + 1];
  }

  lemma TailIsWhole(groups: seq<Group>)
    requires AllWhole(groups) && groups != []
    ensures AllWhole(groups[1..])
  {
    WholeTail(groups);
  }

  lemma KeptWholeIfSmall(g: Group, keep: nat)
    requires Decodes(g.bytes) && |g.bytes| <= keep
    ensures RetainedBytes(g, keep) == g.bytes
  {
    StrictPrefixIsGreatest(g.bytes, keep);
    assert g.bytes[..|g.bytes|] == g.bytes;
    assert Boundary(g.bytes, |g.bytes|);
  }

  /** `kept` is `groups` with some of the bytes dropped. */
  ghost predicate SameButBytes(groups: seq<Group>, kept: seq<Group>) {
    && |kept| == |groups|
    && forall i :: 0 <= i < |groups| ==> kept[i] == groups[i].(bytes := kept[i].bytes)
  }

  lemma SameButBytesCons(g: Group, bytes: seq<Byte>, tail: seq<Group>, keptTail: seq<Group>)
    requires SameButBytes(tail, keptTail)
    ensures SameButBytes([g] + tail, [g.(bytes := bytes)] + keptTail)
  {
  }

  /** Retention keeps names and totals. */
  lemma {:induction false} RetainKeepsNames(groups: seq<Group>, keep: nat)
    ensures SameButBytes(groups, Retain(groups, keep))
  {
    if groups != [] {
      var g, tail := groups[0], groups[1..];
      var bytes := RetainedBytes(g, keep);
      RetainKeepsNames(tail, keep - |bytes|);
      RetainCons(groups, keep);
      SameButBytesCons(g, bytes, tail, Retain(tail, keep - |bytes|));
      assert groups == [g] + tail;
    }
  }

  lemma RenderableCons(g: Group, tail: seq<Group>)
    requires Renderable(g) && AllRenderable(tail)
    ensures AllRenderable([g] + tail)
  {
  }

  lemma RetainCons(groups: seq<Group>, keep: nat)
    requires groups != []
    ensures var bytes := RetainedBytes(groups[0], keep);
            Retain(groups, keep) == [groups[0].(bytes := bytes)] + Retain(groups[1..], keep - |bytes|)
  {
  }

  /** Retention keeps decodable bytes. */
  lemma {:induction false} RetainRenderable(groups: seq<Group>, keep: nat)
    requires AllWhole(groups)
    ensures AllRenderable(Retain(groups, keep))
  {
    if groups != [] {
      TailIsWhole(groups);
      RetainRenderable(groups[1..], keep - |RetainedBytes(groups[0], keep)|);
      RetainRenderableStep(groups, keep);
    }
  }

  lemma RetainRenderableStep(groups: seq<Group>, keep: nat)
    requires AllWhole(groups) && groups != []
    requires AllRenderable(Retain(groups[1..], keep - |RetainedBytes(groups[0], keep)|))
    ensures AllRenderable(Retain(groups, keep))
  {
    WholeTail(groups);
    KeptRenderable(groups[0], keep);
    RetainCons(groups, keep);
    RenderableCons(groups[0].(bytes := RetainedBytes(groups[0], keep)), Retain(groups[1..], keep - |RetainedBytes(groups[0], keep)|));
  }

  lemma KeptRenderable(g: Group, keep: nat)
    requires Decodes(g.bytes) && |g.bytes| == g.totalBytes
    ensures Renderable(g.(bytes := RetainedBytes(g, keep)))
  {
    StrictPrefixIsGreatest(g.bytes, keep);
  }

  lemma TotalCons(g: Group, tail: seq<Group>)
    ensures RetainedTotal([g] + tail) == |g.bytes| + RetainedTotal(tail)
  {
    assert ([g] + tail)[1..] == tail;
  }

  /** Retention respects its budget. */
  lemma {:induction false} RetainWithinBudget(groups: seq<Group>, keep: nat)
    ensures RetainedTotal(Retain(groups, keep)) <= keep
  {
    if groups != [] {
      var g, tail := groups[0], groups[1..];
      var bytes := RetainedBytes(g, keep);
      RetainWithinBudget(tail, keep - |bytes|);
      RetainCons(groups, keep);
      TotalCons(g.(bytes := bytes), Retain(tail, keep - |bytes|));
    }
  }

  lemma RetainProperties(groups: seq<Group>, keep: nat)
    requires AllWhole(groups)
    ensures AllRenderable(Retain(groups, keep))
    ensures RetainedTotal(Retain(groups, keep)) <= keep
  {
    RetainRenderable(groups, keep);
    RetainWithinBudget(groups, keep);
  }

  lemma SameNamesSameOmitted(groups: seq<Group>, kept: seq<Group>)
    requires SameButBytes(groups, kept)
    ensures AllOmitted(kept) == AllOmitted(groups)
  {
  }

  /** No prefix beyond the retained bytes could have fitted, so the cut falls at the same place. */
  lemma CutAtSamePlace(lay: Layout, g: Group, keep: nat, room: int)
    requires Orderly(lay) && Decodes(g.bytes) && |g.bytes| == g.totalBytes && room <= keep
    ensures Renderable(g.(bytes := RetainedBytes(g, keep)))
    ensures FitLength(lay, g, room) == FitLength(lay, g.(bytes := RetainedBytes(g, keep)), room)
    ensures FitLength(lay, g, room) <= |RetainedBytes(g, keep)|
  {
    var r := g.(bytes := RetainedBytes(g, keep));
    StrictPrefixIsGreatest(g.bytes, keep);
    assert r.bytes == g.bytes[..|r.bytes|];
    var n := FitLength(lay, g, room);
    FitLengthIsLargest(lay, g, room);
    assert n <= |r.bytes|;
    assert r.bytes[..n] == g.bytes[..n];
    forall k: nat | Boundary(r.bytes, k) && Fits(lay, r, k, room)
      ensures k <= n
    {
      assert r.bytes[..k] == g.bytes[..k];
      assert Boundary(g.bytes, k) && Fits(lay, g, k, room);
    }
    assert IsLargestFit(lay, r, room, n);
    FitLengthIsLargest(lay, r, room);
    LargestFitUnique(lay, r, room, n, FitLength(lay, r, room));
  }

  /** A first group that does not fit whole is all that is shown. */
  lemma SectionsOfCut(lay: Layout, g: Group, tail: seq<Group>, room: int)
    requires Renderable(g) && AllRenderable(tail) && !FitsWhole(lay, g, room)
    ensures AllRenderable([g] + tail)
    ensures var shown := FitLength(lay, g, room);
            Sections(lay, [g] + tail, room) ==
              if shown > 0 then
                Body(lay.header(g.target, shown, g.totalBytes) + g.bytes[..shown] + lay.marker,
                     [Truncation(g.target, Truncated, shown, g.totalBytes)] + AllOmitted(tail))
              else Body([], [OmittedTruncation(g)] + AllOmitted(tail))
  {
    assert ([g] + tail)[1..] == tail;
    OmittedUnfolds([g] + tail);
  }

  lemma SectionsOfWhole(lay: Layout, g: Group, tail: seq<Group>, room: int)
    requires Renderable(g) && AllRenderable(tail) && FitsWhole(lay, g, room)
    ensures AllRenderable([g] + tail)
    ensures var rest := Sections(lay, tail, room - |FullHeader(lay, g)| - |g.bytes|);
            Sections(lay, [g] + tail, room) ==
              Body(FullHeader(lay, g) + g.bytes + rest.bytes, [CompleteTruncation(g)] + rest.truncations)
  {
    assert ([g] + tail)[1..] == tail;
  }

  lemma OmittedSame(groups: seq<Group>, keep: nat)
    ensures AllOmitted(Retain(groups, keep)) == AllOmitted(groups)
  {
    RetainKeepsNames(groups, keep);
    SameNamesSameOmitted(groups, Retain(groups, keep));
  }

  /** The first group does not fit whole: both renderings cut it at the same place and stop. */
  lemma CutSame(lay: Layout, g: Group, tail: seq<Group>, keptTail: seq<Group>, keep: nat, room: int)
    requires Orderly(lay) && room <= keep && !FitsWhole(lay, g, room)
    requires Decodes(g.bytes) && |g.bytes| == g.totalBytes
    requires AllRenderable(tail) && AllRenderable(keptTail) && AllOmitted(keptTail) == AllOmitted(tail)
    ensures var r := g.(bytes := RetainedBytes(g, keep));
            && AllRenderable([g] + tail) && AllRenderable([r] + keptTail)
            && Sections(lay, [r] + keptTail, room) == Sections(lay, [g] + tail, room)
  {
    var r := g.(bytes := RetainedBytes(g, keep));
    CutAtSamePlace(lay, g, keep, room);
    assert !FitsWhole(lay, r, room);
    SectionsOfCut(lay, g, tail, room);
    SectionsOfCut(lay, r, keptTail, room);
    var shown := FitLength(lay, g, room);
    assert r.bytes[..shown] == g.bytes[..shown];
  }

  lemma WholeSame(lay: Layout, g: Group, tail: seq<Group>, keptTail: seq<Group>, room: int)
    requires FitsWhole(lay, g, room) && Renderable(g) && AllRenderable(tail) && AllRenderable(keptTail)
    requires var less := room - |FullHeader(lay, g)| - |g.bytes|;
             Sections(lay, keptTail, less) == Sections(lay, tail, less)
    ensures AllRenderable([g] + tail) && AllRenderable([g] + keptTail)
    ensures Sections(lay, [g] + keptTail, room) == Sections(lay, [g] + tail, room)
  {
    SectionsOfWhole(lay, g, tail, room);
    SectionsOfWhole(lay, g, keptTail, room);
  }

  ghost predicate SameSections(lay: Layout, kept: seq<Group>, groups: seq<Group>, room: int) {
    AllRenderable(kept) && AllRenderable(groups) && Sections(lay, kept, room) == Sections(lay, groups, room)
  }

  /** Rendering what is kept of the groups gives the sections of the whole groups. */
  lemma {:induction false} SectionsSame(lay: Layout, groups: seq<Group>, keep: nat, room: int)
    requires Orderly(lay) && AllWhole(groups) && room <= keep
    ensures SameSections(lay, Retain(groups, keep), groups, room)
    decreases |groups|, 1
  {
    if groups != [] {
      if FitsWhole(lay, groups[0], room) {
        SectionsSameRest(lay, groups, keep, room);
      } else {
        SectionsSameCut(lay, groups, keep, room);
      }
    }
  }

  lemma {:induction false} SectionsSameRest(lay: Layout, groups: seq<Group>, keep: nat, room: int)
    requires Orderly(lay) && AllWhole(groups) && room <= keep
    requires groups != [] && FitsWhole(lay, groups[0], room)
    ensures SameSections(lay, Retain(groups, keep), groups, room)
    decreases |groups|, 0
  {
    TailIsWhole(groups);
    var left, less := keep - |groups[0].bytes|, room - |FullHeader(lay, groups[0])| - |groups[0].bytes|;
    SectionsSame(lay, groups[1..], left, less);
    SectionsSameWhole(lay, groups, keep, room);
  }

  lemma SectionsSameWhole(lay: Layout, groups: seq<Group>, keep: nat, room: int)
    requires AllWhole(groups) && groups != [] && room <= keep && FitsWhole(lay, groups[0], room)
    requires var g := groups[0];
             SameSections(lay, Retain(groups[1..], keep - |g.bytes|), groups[1..], room - |FullHeader(lay, g)| - |g.bytes|)
    ensures SameSections(lay, Retain(groups, keep), groups, room)
  {
    RetainWhole(groups, keep);
    WholeRewrite(lay, groups[0], groups[1..], groups, Retain(groups[1..], keep - |groups[0].bytes|), Retain(groups, keep), room);
  }

  lemma RetainWhole(groups: seq<Group>, keep: nat)
    requires AllWhole(groups) && groups != [] && |groups[0].bytes| <= keep
    ensures AllWhole(groups[1..]) && groups == [groups[0]] + groups[1..] && Renderable(groups[0])
    ensures Retain(groups, keep) == [groups[0]] + Retain(groups[1..], keep - |groups[0].bytes|)
  {
    WholeTail(groups);
    KeptWholeIfSmall(groups[0], keep);
    RetainCons(groups, keep);
  }

  lemma WholeRewrite(lay: Layout, g: Group, tail: seq<Group>, groups: seq<Group>, keptTail: seq<Group>, kept: seq<Group>, room: int)
    requires groups == [g] + tail && kept == [g] + keptTail && FitsWhole(lay, g, room) && Renderable(g)
    requires SameSections(lay, keptTail, tail, room - |FullHeader(lay, g)| - |g.bytes|)
    ensures SameSections(lay, kept, groups, room)
  {
    WholeSame(lay, g, tail, keptTail, room);
  }

  lemma RetainCut(groups: seq<Group>, keep: nat) returns (keptTail: seq<Group>)
    requires AllWhole(groups) && groups != []
    ensures Retain(groups, keep) == [groups[0].(bytes := RetainedBytes(groups[0], keep))] + keptTail
    ensures groups == [groups[0]] + groups[1..] && AllRenderable(groups[1..]) && AllRenderable(keptTail)
    ensures AllOmitted(keptTail) == AllOmitted(groups[1..])
  {
    WholeTail(groups);
    RetainCons(groups, keep);
    var left := keep - |RetainedBytes(groups[0], keep)|;
    keptTail := Retain(groups[1..], left);
    RetainRenderable(groups[1..], left);
    OmittedSame(groups[1..], left);
  }

  lemma SectionsSameCut(lay: Layout, groups: seq<Group>, keep: nat, room: int)
    requires Orderly(lay) && AllWhole(groups) && room <= keep
    requires groups != [] && !FitsWhole(lay, groups[0], room)
    ensures SameSections(lay, Retain(groups, keep), groups, room)
  {
    WholeTail(groups);
    var keptTail := RetainCut(groups, keep);
    CutRewrite(lay, groups[0], groups[1..], groups, keptTail, Retain(groups, keep), keep, room);
  }

  lemma CutRewrite(lay: Layout, g: Group, tail: seq<Group>, groups: seq<Group>, keptTail: seq<Group>, kept: seq<Group>,
                   keep: nat, room: int)
    requires groups == [g] + tail && kept == [g.(bytes := RetainedBytes(g, keep))] + keptTail
    requires Orderly(lay) && room <= keep && !FitsWhole(lay, g, room)
    requires Decodes(g.bytes) && |g.bytes| == g.totalBytes
    requires AllRenderable(tail) && AllRenderable(keptTail) && AllOmitted(keptTail) == AllOmitted(tail)
    ensures SameSections(lay, kept, groups, room)
  {
    CutSame(lay, g, tail, keptTail, keep, room);
  }

  lemma CandidateSame(lay: Layout, groups: seq<Group>, instruction: seq<Byte>, budget: nat)
    requires Orderly(lay) && AllWhole(groups)
    ensures AllRenderable(Retain(groups, MAX_INJECTION_BYTES))
    ensures CandidateAt(lay, Retain(groups, MAX_INJECTION_BYTES), instruction, budget)
         == CandidateAt(lay, groups, instruction, budget)
  {
    SectionsSame(lay, groups, MAX_INJECTION_BYTES, MAX_INJECTION_BYTES - budget - |instruction|);
  }

  lemma {:induction false} SearchSame(lay: Layout, groups: seq<Group>, instruction: seq<Byte>,
                                      tried: seq<Candidate>, budget: nat)
    requires Orderly(lay) && AllWhole(groups)
    requires budget <= TRUNCATION_SUMMARY_RESERVE_BYTES && budget !in Budgets(tried)
    ensures AllRenderable(Retain(groups, MAX_INJECTION_BYTES))
    ensures Search(lay, Retain(groups, MAX_INJECTION_BYTES), instruction, tried, budget)
         == Search(lay, groups, instruction, tried, budget)
    decreases AllBudgets() - Budgets(tried)
  {
    CandidateSame(lay, groups, instruction, budget);
    var c := CandidateAt(lay, groups, instruction, budget);
    var all := tried + [c];
    if |c.summary| <= TRUNCATION_SUMMARY_RESERVE_BYTES && |c.summary| != budget && |c.summary| !in Budgets(all) {
      BudgetsGrow(tried, c);
      SearchSame(lay, groups, instruction, all, |c.summary|);
    }
  }

  lemma {:induction false} FullSizeSame(lay: Layout, groups: seq<Group>, kept: seq<Group>)
    requires SameButBytes(groups, kept)
    ensures FullSize(lay, kept) == FullSize(lay, groups)
  {
    if groups != [] {
      FullSizeSame(lay, groups[1..], kept[1..]);
    }
  }

  /** If the full size fits, everything is retained. */
  lemma {:induction false} SmallIsRetainedWhole(lay: Layout, groups: seq<Group>, keep: nat)
    requires AllWhole(groups) && FullSize(lay, groups) <= keep
    ensures Retain(groups, keep) == groups
  {
    if groups != [] {
      WholeTail(groups);
      KeptWholeIfSmall(groups[0], keep);
      SmallIsRetainedWhole(lay, groups[1..], keep - |groups[0].bytes|);
    }
  }

  /** Bounded retention is invisible: same block, statuses and summary as with whole payloads. */
  lemma RetentionIsInvisible(lay: Layout, groups: seq<Group>, instructionText: string)
    requires Orderly(lay) && AllWhole(groups)
    ensures AllRenderable(Retain(groups, MAX_INJECTION_BYTES))
    ensures Render(lay, Retain(groups, MAX_INJECTION_BYTES), instructionText) == Render(lay, groups, instructionText)
  {
    var kept := Retain(groups, MAX_INJECTION_BYTES);
    var instruction := Encode(instructionText);
    RetainProperties(groups, MAX_INJECTION_BYTES);
    RetainKeepsNames(groups, MAX_INJECTION_BYTES);
    FullSizeSame(lay, groups, kept);
    if |instruction| + FullSize(lay, groups) <= MAX_INJECTION_BYTES {
      SmallIsRetainedWhole(lay, groups, MAX_INJECTION_BYTES);
    } else {
      SearchSame(lay, groups, instruction, [], TRUNCATION_SUMMARY_RESERVE_BYTES);
    }
  }

  /** A retained snapshot is truncated exactly when its full size exceeds the cap. */
  lemma TruncatesExactlyWhenTooLarge(lay: Layout, groups: seq<Group>, instructionText: string)
    requires Orderly(lay) && AllWhole(groups)
    ensures AllRenderable(Retain(groups, MAX_INJECTION_BYTES))
    ensures var r := Render(lay, Retain(groups, MAX_INJECTION_BYTES), instructionText);
            r.Ok? ==>
              (r.value.wasTruncated <==>
                 |Encode(instructionText)| + FullSize(lay, groups) > MAX_INJECTION_BYTES)
  {
    RetentionIsInvisible(lay, groups, instructionText);
    RenderStatuses(lay, groups, instructionText);
  }
}
