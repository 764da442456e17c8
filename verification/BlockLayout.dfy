/** What the bytes of a rendered block are, section by section
    (orchestrator/deps/content_snapshot.py, `render_content_snapshot`). */
module BlockLayout {
  import opened Text
  import opened Utf8
  import opened SnapshotTypes
  import opened Fitting
  import opened Rendering
  import opened RenderingTheorems
  import opened Retention
  import opened ContentSnapshot

  /** The block has these bytes at this place. */
  predicate HoldsAt(block: seq<Byte>, at: nat, part: seq<Byte>) {
    at + |part| <= |block| && block[at..at + |part|] == part
  }

  /** The section of one group begins at `at`: its header, then its content, and a marker if that is cut. */
  predicate SectionAt(lay: Layout, block: seq<Byte>, at: nat, g: Group, t: Truncation) {
    match t.status
    case Complete =>
      var header := lay.header(g.target, g.totalBytes, g.totalBytes);
      |g.bytes| == g.totalBytes && HoldsAt(block, at, header) && HoldsAt(block, at + |header|, g.bytes)
    case Truncated =>
      var header := lay.header(g.target, t.shownBytes, g.totalBytes);
      && t.shownBytes <= |g.bytes|
      && HoldsAt(block, at, header)
      && HoldsAt(block, at + |header|, g.bytes[..t.shownBytes])
      && HoldsAt(block, at + |header| + t.shownBytes, lay.marker)
    case Omitted => true
  }

  function SectionSize(lay: Layout, g: Group, t: Truncation): nat {
    match t.status
    case Complete => |lay.header(g.target, g.totalBytes, g.totalBytes)| + g.totalBytes
    case Truncated => |lay.header(g.target, t.shownBytes, g.totalBytes)| + t.shownBytes + |lay.marker|
    case Omitted => 0
  }

  /** The sections of the groups fill the block from `at` to `end`, in order and without a gap. */
  predicate LaidOut(lay: Layout, block: seq<Byte>, at: nat, groups: seq<Group>, truncations: seq<Truncation>, end: nat)
    decreases |groups|
  {
    && |truncations| == |groups|
    && (if groups == [] then end == at
        else
          && SectionAt(lay, block, at, groups[0], truncations[0])
          && LaidOut(lay, block, at + SectionSize(lay, groups[0], truncations[0]), groups[1..], truncations[1..], end))
  }

  // ---- A block inside a longer one

  lemma HoldsWithin(pre: seq<Byte>, block: seq<Byte>, post: seq<Byte>, at: nat, part: seq<Byte>)
    requires HoldsAt(block, at, part)
    ensures HoldsAt(pre + block + post, |pre| + at, part)
  {
    var all := pre + block + post;
    assert all[|pre| + at..|pre| + at + |part|] == block[at..at + |part|];
  }

  lemma SectionWithin(lay: Layout, pre: seq<Byte>, block: seq<Byte>, post: seq<Byte>, at: nat, g: Group, t: Truncation)
    requires SectionAt(lay, block, at, g, t)
    ensures SectionAt(lay, pre + block + post, |pre| + at, g, t)
  {
    match t.status
    case Complete =>
      var header := lay.header(g.target, g.totalBytes, g.totalBytes);
      HoldsWithin(pre, block, post, at, header);
      HoldsWithin(pre, block, post, at + |header|, g.bytes);
    case Truncated =>
      var header := lay.header(g.target, t.shownBytes, g.totalBytes);
      HoldsWithin(pre, block, post, at, header);
      HoldsWithin(pre, block, post, at + |header|, g.bytes[..t.shownBytes]);
      HoldsWithin(pre, block, post, at + |header| + t.shownBytes, lay.marker);
    case Omitted =>
  }

  lemma {:induction false} LaidOutWithin(lay: Layout, pre: seq<Byte>, block: seq<Byte>, post: seq<Byte>, at: nat,
                                         groups: seq<Group>, truncations: seq<Truncation>, end: nat)
    requires LaidOut(lay, block, at, groups, truncations, end)
    ensures LaidOut(lay, pre + block + post, |pre| + at, groups, truncations, |pre| + end)
    decreases |groups|
  {
    if groups != [] {
      SectionWithin(lay, pre, block, post, at, groups[0], truncations[0]);
      var next := at + SectionSize(lay, groups[0], truncations[0]);
      LaidOutWithin(lay, pre, block, post, next, groups[1..], truncations[1..], end);
      assert |pre| + next == |pre| + at + SectionSize(lay, groups[0], truncations[0]);
    }
  }

  // ---- The sections

  lemma {:induction false} OmittedLaidOut(lay: Layout, block: seq<Byte>, at: nat, groups: seq<Group>)
    ensures LaidOut(lay, block, at, groups, AllOmitted(groups), at)
    decreases |groups|
  {
    if groups != [] {
      OmittedLaidOut(lay, block, at, groups[1..]);
      assert AllOmitted(groups)[1..] == AllOmitted(groups[1..]);
    }
  }

  /** A whole section in front of a block that is laid out. */
  lemma WholeInFront(lay: Layout, g: Group, rest: seq<Group>, bytes: seq<Byte>, truncations: seq<Truncation>)
    requires |g.bytes| == g.totalBytes && LaidOut(lay, bytes, 0, rest, truncations, |bytes|)
    ensures var all := FullHeader(lay, g) + g.bytes + bytes;
            LaidOut(lay, all, 0, [g] + rest, [CompleteTruncation(g)] + truncations, |all|)
  {
    var header := FullHeader(lay, g);
    var all := header + g.bytes + bytes;
    assert all[..|header|] == header && all[|header|..|header| + |g.bytes|] == g.bytes;
    LaidOutWithin(lay, header + g.bytes, bytes, [], 0, rest, truncations, |bytes|);
    assert (header + g.bytes) + bytes + [] == all;
    assert ([g] + rest)[1..] == rest && ([CompleteTruncation(g)] + truncations)[1..] == truncations;
  }

  /** A cut section in front of groups that are omitted. */
  lemma CutInFront(lay: Layout, g: Group, rest: seq<Group>, shown: nat)
    requires shown <= |g.bytes|
    ensures var all := lay.header(g.target, shown, g.totalBytes) + g.bytes[..shown] + lay.marker;
            LaidOut(lay, all, 0, [g] + rest, [Truncation(g.target, Truncated, shown, g.totalBytes)] + AllOmitted(rest), |all|)
  {
    var header := lay.header(g.target, shown, g.totalBytes);
    var all := header + g.bytes[..shown] + lay.marker;
    assert all[..|header|] == header && all[|header|..|header| + shown] == g.bytes[..shown] && all[|header| + shown..] == lay.marker;
    OmittedLaidOut(lay, all, |all|, rest);
    var first := Truncation(g.target, Truncated, shown, g.totalBytes);
    assert ([g] + rest)[1..] == rest && ([first] + AllOmitted(rest))[1..] == AllOmitted(rest);
  }

  /** A group that fits whole: its section, and those of the rest in the room that is left. */
  lemma WholeLaidOut(lay: Layout, g: Group, rest: seq<Group>, s: Body, below: Body)
    requires |g.bytes| == g.totalBytes && LaidOut(lay, below.bytes, 0, rest, below.truncations, |below.bytes|)
    requires s == Body(FullHeader(lay, g) + g.bytes + below.bytes, [CompleteTruncation(g)] + below.truncations)
    ensures LaidOut(lay, s.bytes, 0, [g] + rest, s.truncations, |s.bytes|)
  {
    WholeInFront(lay, g, rest, below.bytes, below.truncations);
  }

  /** A group that does not fit whole: it is cut, or omitted, and the rest is omitted. */
  lemma CutLaidOut(lay: Layout, groups: seq<Group>, room: int, s: Body)
    requires AllRenderable(groups) && groups != [] && !FitsWhole(lay, groups[0], room) && s == Sections(lay, groups, room)
    ensures LaidOut(lay, s.bytes, 0, groups, s.truncations, |s.bytes|)
  {
    var shown := FitLength(lay, groups[0], room);
    if shown > 0 {
      assert groups == [groups[0]] + groups[1..];
      CutInFront(lay, groups[0], groups[1..], shown);
    } else {
      OmittedLaidOut(lay, [], 0, groups);
    }
  }

  lemma {:induction false} SectionsLaidOut(lay: Layout, groups: seq<Group>, room: int)
    requires AllRenderable(groups)
    ensures var s := Sections(lay, groups, room); LaidOut(lay, s.bytes, 0, groups, s.truncations, |s.bytes|)
    decreases |groups|
  {
    if groups != [] {
      var s := Sections(lay, groups, room);
      if FitsWhole(lay, groups[0], room) {
        var less := room - |FullHeader(lay, groups[0])| - |groups[0].bytes|;
        SectionsLaidOut(lay, groups[1..], less);
        assert groups == [groups[0]] + groups[1..];
        WholeLaidOut(lay, groups[0], groups[1..], s, Sections(lay, groups[1..], less));
      } else {
        CutLaidOut(lay, groups, room, s);
      }
    }
  }

  lemma {:induction false} CompleteLaidOut(lay: Layout, groups: seq<Group>)
    requires ContentRetained(groups)
    ensures var b := AllComplete(lay, groups); LaidOut(lay, b.bytes, 0, groups, b.truncations, |b.bytes|)
    decreases |groups|
  {
    if groups != [] {
      assert groups == [groups[0]] + groups[1..];
      CompleteLaidOut(lay, groups[1..]);
      var b := AllComplete(lay, groups[1..]);
      WholeInFront(lay, groups[0], groups[1..], b.bytes, b.truncations);
    }
  }

  // ---- The block

  /** The block is the instruction, then the sections, then the summary, and nothing else. */
  ghost predicate BlockHolds(lay: Layout, groups: seq<Group>, instruction: seq<Byte>, r: Rendered) {
    && HoldsAt(r.block, 0, instruction)
    && |instruction| + |r.summary| <= |r.block|
    && LaidOut(lay, r.block, |instruction|, groups, r.truncations, |r.block| - |r.summary|)
    && HoldsAt(r.block, |r.block| - |r.summary|, r.summary)
    && r.summary == (if r.wasTruncated then lay.summarize(r.truncations) else [])
    && r.preTruncationBytes == |instruction| + FullSize(lay, groups)
  }

  lemma Assembled(lay: Layout, groups: seq<Group>, instruction: seq<Byte>, sections: Body, r: Rendered)
    requires LaidOut(lay, sections.bytes, 0, groups, sections.truncations, |sections.bytes|)
    requires r.block == instruction + sections.bytes + r.summary && r.truncations == sections.truncations
    requires r.summary == (if r.wasTruncated then lay.summarize(r.truncations) else [])
    requires r.preTruncationBytes == |instruction| + FullSize(lay, groups)
    ensures BlockHolds(lay, groups, instruction, r)
  {
    LaidOutWithin(lay, instruction, sections.bytes, r.summary, 0, groups, sections.truncations, |sections.bytes|);
    assert r.block[..|instruction|] == instruction;
    assert r.block[|instruction| + |sections.bytes|..] == r.summary;
  }

  lemma TruncatedBlock(lay: Layout, groups: seq<Group>, instruction: seq<Byte>, budget: nat, r: Rendered)
    requires AllRenderable(groups) && r.wasTruncated
    requires var c := CandidateAt(lay, groups, instruction, budget);
             && r.block == c.body.bytes + lay.summarize(c.body.truncations)
             && r.summary == lay.summarize(c.body.truncations) && r.truncations == c.body.truncations
    requires r.preTruncationBytes == |instruction| + FullSize(lay, groups)
    ensures BlockHolds(lay, groups, instruction, r)
  {
    var room := MAX_INJECTION_BYTES - budget - |instruction|;
    SectionsLaidOut(lay, groups, room);
    Assembled(lay, groups, instruction, Sections(lay, groups, room), r);
  }

  lemma CompleteBlock(lay: Layout, groups: seq<Group>, instruction: seq<Byte>, r: Rendered)
    requires ContentRetained(groups) && !r.wasTruncated && r.summary == []
    requires r.block == instruction + AllComplete(lay, groups).bytes && r.truncations == AllComplete(lay, groups).truncations
    requires r.preTruncationBytes == |instruction| + FullSize(lay, groups)
    ensures BlockHolds(lay, groups, instruction, r)
  {
    CompleteLaidOut(lay, groups);
    var b := AllComplete(lay, groups);
    assert instruction + b.bytes + [] == instruction + b.bytes;
    Assembled(lay, groups, instruction, b, r);
  }

  /** Every rendered block holds the instruction, the sections of the groups in order, and the summary. */
  lemma RenderedBlock(lay: Layout, groups: seq<Group>, instructionText: string)
    requires Orderly(lay) && AllRenderable(groups)
    ensures var r := Render(lay, groups, instructionText);
            r.Ok? ==> BlockHolds(lay, groups, Encode(instructionText), r.value)
  {
    var instruction, r := Encode(instructionText), Render(lay, groups, instructionText);
    if r.Ok? {
      if r.value.wasTruncated {
        SearchNeverStuck(lay, groups, instruction, [], TRUNCATION_SUMMARY_RESERVE_BYTES);
        var c := Search(lay, groups, instruction, [], TRUNCATION_SUMMARY_RESERVE_BYTES).value;
        assert c == CandidateAt(lay, groups, instruction, c.budget);
        TruncatedBlock(lay, groups, instruction, c.budget, r.value);
      } else {
        CompleteBlock(lay, groups, instruction, r.value);
      }
    }
  }

  // ---- The block of a built snapshot

  /** The block of a built snapshot holds the given contents, in order of their targets, although not all were kept. */
  lemma BuiltBlock(lay: Layout, rows: seq<Row>, contents: seq<Content>, instructionText: string) returns (groups: seq<Group>)
    requires Orderly(lay) && (forall c :: c in contents ==> ValidContent(c)) && DistinctTargets(contents)
    requires PayloadsMatch(rows, PayloadMap(contents))
    ensures AllRenderable(Built(rows, PayloadMap(contents)).groups) && Given(groups, contents)
    ensures var r := Render(lay, Built(rows, PayloadMap(contents)).groups, instructionText);
            r.Ok? ==> BlockHolds(lay, groups, Encode(instructionText), r.value)
  {
    groups := BuiltWhole(rows, PayloadMap(contents));
    BuiltRendersAsWhole(lay, rows, contents, instructionText);
    RenderedBlock(lay, groups, instructionText);
    WholeIsGiven(rows, contents);
  }

  // ---- By position

  function Offset(lay: Layout, groups: seq<Group>, truncations: seq<Truncation>, i: nat): nat
    requires i <= |groups| == |truncations|
  {
    if i == 0 then 0 else Offset(lay, groups, truncations, i - 1) + SectionSize(lay, groups[i - 1], truncations[i - 1])
  }

  lemma {:induction false} LaidOutAt(lay: Layout, block: seq<Byte>, at: nat, groups: seq<Group>, truncations: seq<Truncation>, end: nat, i: nat)
    requires LaidOut(lay, block, at, groups, truncations, end) && i < |groups|
    ensures SectionAt(lay, block, at + Offset(lay, groups, truncations, i), groups[i], truncations[i])
    decreases |groups|
  {
    if i > 0 {
      var next := at + SectionSize(lay, groups[0], truncations[0]);
      LaidOutAt(lay, block, next, groups[1..], truncations[1..], end, i - 1);
      OffsetShift(lay, groups, truncations, i);
    }
  }

  lemma {:induction false} OffsetShift(lay: Layout, groups: seq<Group>, truncations: seq<Truncation>, i: nat)
    requires 0 < i <= |groups| == |truncations|
    ensures Offset(lay, groups, truncations, i) ==
            SectionSize(lay, groups[0], truncations[0]) + Offset(lay, groups[1..], truncations[1..], i - 1)
  {
    if i > 1 {
      OffsetShift(lay, groups, truncations, i - 1);
    }
  }
}
