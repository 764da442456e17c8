/** The search for a summary budget can really run into a cycle: ten files, of which the last just fits beside the
    shorter summary, and then makes the summary too long
    (orchestrator/deps/content_snapshot.py, `render_content_snapshot`). */
module BudgetCycle {
  import opened Text
  import opened Utf8
  import opened SnapshotTypes
  import opened Fitting
  import opened Rendering
  import opened RenderingTheorems
  import opened Retention
  import opened PromptLayout

  // ---- The files

  /** `n` bytes of ASCII text. */
  function Letters(n: nat): (b: seq<Byte>)
    ensures |b| == n
  {
    seq(n, _ => 0x61)
  }

  lemma {:induction false} LettersDecode(n: nat)
    ensures Decodes(Letters(n)) && forall k :: 0 <= k <= n ==> Boundary(Letters(n), k)
  {
    LettersDecodeOnly(n);
    forall k | 0 <= k <= n
      ensures Boundary(Letters(n), k)
    {
      LettersDecodeOnly(k);
      assert Letters(n)[..k] == Letters(k);
    }
  }

  lemma {:induction false} LettersDecodeOnly(n: nat)
    ensures Decodes(Letters(n))
  {
    if n > 0 {
      LettersDecodeOnly(n - 1);
      assert Letters(n)[1..] == Letters(n - 1);
      assert Width(Letters(n)) == 1;
    }
  }

  /** A file with a one-letter name. */
  function File(name: char, size: nat): Group {
    Group([name], Required, [Row(Required, 0, [name], [name], Some([name]))], Letters(size), size)
  }

  /** Eight empty files, one file that nearly fills the block, and one of 100 bytes. */
  function Eight(): seq<Group> {
    [File('a', 0), File('b', 0), File('c', 0), File('d', 0), File('e', 0), File('f', 0), File('g', 0), File('h', 0)]
  }

  function Nine(size: nat): seq<Group> {
    Eight() + [File('i', size)]
  }

  function Ten(size: nat): seq<Group> {
    Nine(size) + [File('j', 100)]
  }

  lemma FileIsRenderable(name: char, size: nat)
    ensures Renderable(File(name, size))
  {
    LettersDecode(size);
  }

  lemma AppendRenderable(groups: seq<Group>, g: Group)
    requires AllRenderable(groups) && Renderable(g)
    ensures AllRenderable(groups + [g])
  {
  }

  lemma EightAreRenderable()
    ensures AllRenderable(Eight()) && ContentRetained(Eight())
  {
    forall i | 0 <= i < 8
      ensures Renderable(Eight()[i])
    {
      FileIsRenderable(Eight()[i].target[0], 0);
    }
  }

  lemma TenAreRenderable(size: nat)
    ensures AllRenderable(Eight()) && AllRenderable(Nine(size)) && AllRenderable(Ten(size))
  {
    EightAreRenderable();
    FileIsRenderable('i', size);
    AppendRenderable(Eight(), File('i', size));
    FileIsRenderable('j', 100);
    AppendRenderable(Nine(size), File('j', 100));
  }

  // ---- Sections behind whole groups

  /** `s` is `t` behind the given complete sections. */
  predicate Behind(s: Body, complete: seq<Truncation>, size: nat, t: Body) {
    s.truncations == complete + t.truncations && |s.bytes| == size + |t.bytes|
  }

  lemma BehindMore(s: Body, middle: Body, t: Body, first: Truncation, complete: seq<Truncation>, more: nat, size: nat)
    requires Behind(middle, complete, size, t) && Behind(s, [first], more, middle)
    ensures Behind(s, [first] + complete, more + size, t)
  {
    assert [first] + (complete + t.truncations) == ([first] + complete) + t.truncations;
  }

  /** In `all`, the whole groups come first, and the rest get the room that is left. */
  ghost predicate WholeFirst(lay: Layout, whole: seq<Group>, all: seq<Group>, rest: seq<Group>, room: int, left: int) {
    && AllRenderable(all) && AllRenderable(rest) && left == room - FullSize(lay, whole)
    && Behind(Sections(lay, all, room), AllComplete(lay, whole).truncations, FullSize(lay, whole), Sections(lay, rest, left))
  }

  lemma {:induction false} WholePrefix(lay: Layout, whole: seq<Group>, all: seq<Group>, rest: seq<Group>, room: int, left: int)
    requires AllRenderable(whole) && AllRenderable(rest) && ContentRetained(whole) && all == whole + rest
    requires left == room - FullSize(lay, whole) && left >= 0
    ensures WholeFirst(lay, whole, all, rest, room, left)
    decreases |whole|
  {
    if whole == [] {
      assert all == rest;
    } else {
      var g, tail := whole[0], whole[1..];
      RetainedTail(whole);
      CompleteUnfolds(lay, g, tail, whole);
      ConsFirst(g, tail, whole, rest);
      WholePrefix(lay, tail, tail + rest, rest, room - |FullHeader(lay, g)| - |g.bytes|, left);
      WholeStep(lay, g, tail, whole, tail + rest, all, rest, room, left);
    }
  }

  lemma ConsFirst(g: Group, tail: seq<Group>, whole: seq<Group>, rest: seq<Group>)
    requires whole == [g] + tail
    ensures whole + rest == [g] + (tail + rest)
  {
  }

  lemma WholeStep(lay: Layout, g: Group, tail: seq<Group>, whole: seq<Group>, middle: seq<Group>, all: seq<Group>, rest: seq<Group>,
                  room: int, left: int)
    requires whole == [g] + tail && all == [g] + middle && Renderable(g) && FitsWhole(lay, g, room)
    requires WholeFirst(lay, tail, middle, rest, room - |FullHeader(lay, g)| - |g.bytes|, left)
    ensures WholeFirst(lay, whole, all, rest, room, left)
  {
    CompleteUnfolds(lay, g, tail, whole);
    WholeThenRest(lay, g, middle, all, room);
    StackBodies(lay, g, tail, whole, Sections(lay, all, room), Sections(lay, middle, room - |FullHeader(lay, g)| - |g.bytes|),
                Sections(lay, rest, left));
  }

  lemma RetainedTail(whole: seq<Group>)
    requires AllRenderable(whole) && ContentRetained(whole) && whole != []
    ensures AllRenderable(whole[1..]) && ContentRetained(whole[1..]) && whole == [whole[0]] + whole[1..]
    ensures Renderable(whole[0]) && |whole[0].bytes| == whole[0].totalBytes
  {
    assert forall i :: 0 <= i < |whole| - 1 ==> whole[1..][i] == whole[i + 1];
  }

  lemma StackBodies(lay: Layout, g: Group, tail: seq<Group>, whole: seq<Group>, s: Body, middle: Body, t: Body)
    requires whole == [g] + tail && |g.bytes| == g.totalBytes
    requires Behind(s, [CompleteTruncation(g)], |FullHeader(lay, g)| + |g.bytes|, middle)
    requires Behind(middle, AllComplete(lay, tail).truncations, FullSize(lay, tail), t)
    ensures Behind(s, AllComplete(lay, whole).truncations, FullSize(lay, whole), t)
  {
    CompleteUnfolds(lay, g, tail, whole);
    BehindMore(s, middle, t, CompleteTruncation(g), AllComplete(lay, tail).truncations, |FullHeader(lay, g)| + |g.bytes|,
               FullSize(lay, tail));
  }

  lemma WholeThenRest(lay: Layout, g: Group, rest: seq<Group>, all: seq<Group>, room: int)
    requires Renderable(g) && AllRenderable(rest) && FitsWhole(lay, g, room)
    requires all == [g] + rest
    ensures AllRenderable(all)
    ensures Behind(Sections(lay, all, room), [CompleteTruncation(g)], |FullHeader(lay, g)| + |g.bytes|,
                   Sections(lay, rest, room - |FullHeader(lay, g)| - |g.bytes|))
  {
    SectionsOfWhole(lay, g, rest, room);
  }

  lemma CompleteUnfolds(lay: Layout, g: Group, tail: seq<Group>, whole: seq<Group>)
    requires whole == [g] + tail
    ensures AllComplete(lay, whole).truncations == [CompleteTruncation(g)] + AllComplete(lay, tail).truncations
    ensures FullSize(lay, whole) == |FullHeader(lay, g)| + g.totalBytes + FullSize(lay, tail)
  {
    assert whole[1..] == tail;
  }

  lemma {:induction false} CountBehindComplete(lay: Layout, whole: seq<Group>, rest: seq<Truncation>, status: Status)
    requires status != Complete
    ensures CountStatus(AllComplete(lay, whole).truncations + rest, status) == CountStatus(rest, status)
    decreases |whole|
  {
    var t := AllComplete(lay, whole).truncations;
    if whole == [] {
      assert t + rest == rest;
    } else {
      CountBehindComplete(lay, whole[1..], rest, status);
      assert (t + rest)[1..] == AllComplete(lay, whole[1..]).truncations + rest;
    }
  }

  lemma {:induction false} FullSizeAppend(lay: Layout, groups: seq<Group>, g: Group)
    ensures FullSize(lay, groups + [g]) == FullSize(lay, groups) + |FullHeader(lay, g)| + g.totalBytes
    decreases |groups|
  {
    if groups == [] {
      assert groups + [g] == [g] && [g][1..] == [];
    } else {
      FullSizeAppend(lay, groups[1..], g);
      assert (groups + [g])[1..] == groups[1..] + [g];
    }
  }

  lemma {:induction false} FullSizeOfEmpty(lay: Layout, groups: seq<Group>, header: nat)
    requires forall i :: 0 <= i < |groups| ==> groups[i].totalBytes == 0 && |FullHeader(lay, groups[i])| == header
    ensures FullSize(lay, groups) == |groups| * header
    decreases |groups|
  {
    if groups != [] {
      FullSizeOfEmpty(lay, groups[1..], header);
      assert |groups| * header == (|groups| - 1) * header + header;
    }
  }

  // ---- Lengths

  lemma HeaderPieces()
    ensures Ascii(HEADER_OPEN) && |HEADER_OPEN| == 12 && Ascii(HEADER_CLOSE) && |HEADER_CLOSE| == 12
  {
  }

  lemma SevenPieces(a: string, b: string, c: string, d: string, e: string, f: string, g: string)
    requires Ascii(a) && Ascii(b) && Ascii(c) && Ascii(d) && Ascii(e) && Ascii(f) && Ascii(g)
    ensures |Encode(a + b + c + d + e + f + g)| == |a| + |b| + |c| + |d| + |e| + |f| + |g|
  {
    AsciiConcat(a, b);
    AsciiConcat(a + b, c);
    AsciiConcat(a + b + c, d);
    AsciiConcat(a + b + c + d, e);
    AsciiConcat(a + b + c + d + e, f);
    AsciiConcat(a + b + c + d + e + f, g);
    EncodeAsciiLength(a + b + c + d + e + f + g);
  }

  lemma HeaderSize(name: char, shown: nat, total: nat)
    requires name < 128 as char
    ensures |Header([name], shown, total)| == 28 + |Decimal(shown)| + |Decimal(total)|
  {
    HeaderPieces();
    SevenPieces(HEADER_OPEN, [name], " (", Decimal(shown), "/", Decimal(total), HEADER_CLOSE);
  }

  lemma MarkerSize()
    ensures |Standard().marker| == 16
  {
    EncodeAsciiLength(MARKER);
  }

  lemma {:induction false} DigitsOf(n: nat, k: nat)
    requires k > 0 && Pow10(k - 1) <= n < Pow10(k) && (k == 1 ==> n < 10)
    ensures |Decimal(n)| == k
    decreases k
  {
    if k > 1 {
      assert Pow10(k) == 10 * Pow10(k - 1) && Pow10(k - 1) == 10 * Pow10(k - 2);
      DigitsOf(n / 10, k - 1);
    }
  }

  /** The first eight take 30 bytes each. */
  lemma EightSize()
    ensures FullSize(Standard(), Eight()) == 240
  {
    forall i | 0 <= i < 8
      ensures Eight()[i].totalBytes == 0 && |FullHeader(Standard(), Eight()[i])| == 30
    {
      HeaderSize(Eight()[i].target[0], 0, 0);
    }
    FullSizeOfEmpty(Standard(), Eight(), 30);
  }

  /** The size of the large file: with the other eight and the last file's smallest section it takes the block but 82. */
  predicate LargeSize(size: nat) {
    size + 411 == MAX_INJECTION_BYTES
  }

  lemma LargeDigits(size: nat)
    requires LargeSize(size)
    ensures |Decimal(size)| == 6
  {
    assert Pow10(5) == 10 * Pow10(4) && Pow10(4) == 10 * Pow10(3) && Pow10(3) == 10 * Pow10(2) && Pow10(2) == 10 * Pow10(1);
    DigitsOf(size, 6);
  }

  lemma NineSize(size: nat)
    requires LargeSize(size)
    ensures FullSize(Standard(), Nine(size)) == 280 + size
    ensures |FullHeader(Standard(), File('i', size))| == 40
  {
    EightSize();
    LargeDigits(size);
    HeaderSize('i', size, size);
    FullSizeAppend(Standard(), Eight(), File('i', size));
  }

  // ---- The last file

  function Last(): Group {
    File('j', 100)
  }

  lemma LastFits(k: nat, room: int)
    ensures Fits(Standard(), Last(), k, room) <==> 47 + |Decimal(k)| + k <= room
  {
    HeaderSize('j', k, 100);
    MarkerSize();
    assert |Decimal(100)| == 3;
  }

  /** One byte of the last file needs 49 bytes of room; at exactly 49 that is all that fits. */
  lemma LastShows(room: int)
    requires room <= 49
    ensures Renderable(Last()) && !FitsWhole(Standard(), Last(), room)
    ensures FitLength(Standard(), Last(), room) == if room == 49 then 1 else 0
  {
    FileIsRenderable('j', 100);
    LettersDecode(100);
    StandardIsOrderly();
    HeaderSize('j', 100, 100);
    var n := if room == 49 then 1 else 0;
    assert |Decimal(1)| == 1;
    LastFits(1, room);
    forall k: nat | Boundary(Last().bytes, k) && Fits(Standard(), Last(), k, room)
      ensures k <= n
    {
      LastFits(k, room);
    }
    assert IsLargestFit(Standard(), Last(), room, n);
    FitLengthIsLargest(Standard(), Last(), room);
    LargestFitUnique(Standard(), Last(), room, n, FitLength(Standard(), Last(), room));
  }

  lemma LastSections(room: int)
    requires room <= 49
    ensures AllRenderable([Last()])
    ensures var t := Sections(Standard(), [Last()], room);
            && t.truncations == [if room == 49 then Truncation("j", Truncated, 1, 100) else OmittedTruncation(Last())]
            && |t.bytes| == if room == 49 then 49 else 0
  {
    LastShows(room);
    OnlyCut(Standard(), Last(), room);
    if room == 49 {
      LastSectionSize();
    }
  }

  lemma LastSectionSize()
    ensures |Standard().header("j", 1, 100)| + 1 + |Standard().marker| == 49
  {
    HeaderSize('j', 1, 100);
    MarkerSize();
    assert |Decimal(1)| == 1 && |Decimal(100)| == 3;
  }

  /** The only group does not fit whole. */
  lemma OnlyCut(lay: Layout, g: Group, room: int)
    requires Renderable(g) && !FitsWhole(lay, g, room)
    ensures AllRenderable([g])
    ensures var t, shown := Sections(lay, [g], room), FitLength(lay, g, room);
            if shown > 0 then
              && t.truncations == [Truncation(g.target, Truncated, shown, g.totalBytes)]
              && |t.bytes| == |lay.header(g.target, shown, g.totalBytes)| + shown + |lay.marker|
            else t == Body([], [OmittedTruncation(g)])
  {
    SectionsOfCut(lay, g, [], room);
    assert [g] + [] == [g] && AllOmitted([]) == [];
    var shown := FitLength(lay, g, room);
    assert [Truncation(g.target, Truncated, shown, g.totalBytes)] + [] == [Truncation(g.target, Truncated, shown, g.totalBytes)];
    assert [OmittedTruncation(g)] + [] == [OmittedTruncation(g)];
  }

  // ---- The three budgets

  /** What is shown of the ten files: how many are omitted, how many cut, and how many bytes the sections have. */
  predicate Shows(b: Body, omitted: nat, cut: nat) {
    |b.truncations| == 10 && CountStatus(b.truncations, Omitted) == omitted && CountStatus(b.truncations, Truncated) == cut
  }

  lemma TightSections(size: nat, budget: nat)
    requires LargeSize(size) && (budget == 82 || budget == 83)
    ensures AllRenderable(Ten(size))
    ensures var b := Sections(Standard(), Ten(size), MAX_INJECTION_BYTES - budget);
            if budget == 82 then Shows(b, 0, 1) && |b.bytes| == MAX_INJECTION_BYTES - 82
            else Shows(b, 1, 0) && |b.bytes| == MAX_INJECTION_BYTES - 131
  {
    TenAreRenderable(size);
    NineSize(size);
    NineRetained(size);
    var room := 131 - budget;
    LastSections(room);
    WholePrefix(Standard(), Nine(size), Ten(size), [Last()], MAX_INJECTION_BYTES - budget, room);
    var t := Sections(Standard(), [Last()], room);
    CountOne(Standard(), Nine(size), t.truncations[0]);
    assert t.truncations == [t.truncations[0]];
  }

  lemma NineRetained(size: nat)
    ensures ContentRetained(Nine(size))
  {
    EightAreRenderable();
  }

  lemma CountOne(lay: Layout, whole: seq<Group>, last: Truncation)
    ensures var t := AllComplete(lay, whole).truncations + [last];
            && CountStatus(t, Omitted) == (if last.status == Omitted then 1 else 0)
            && CountStatus(t, Truncated) == (if last.status == Truncated then 1 else 0)
  {
    CountBehindComplete(lay, whole, [last], Omitted);
    CountBehindComplete(lay, whole, [last], Truncated);
    assert [last][1..] == [];
  }

  lemma CountTwo(lay: Layout, whole: seq<Group>, a: Truncation, b: Truncation)
    requires a.status == Truncated && b.status == Omitted
    ensures var t := AllComplete(lay, whole).truncations + [a, b];
            CountStatus(t, Omitted) == 1 && CountStatus(t, Truncated) == 1
  {
    CountBehindComplete(lay, whole, [a, b], Omitted);
    CountBehindComplete(lay, whole, [a, b], Truncated);
    assert [a, b][1..] == [b] && [b][1..] == [];
  }

  /** With the whole reserve set aside the large file is cut and the last one omitted. */
  lemma ReserveSections(size: nat)
    requires LargeSize(size)
    ensures AllRenderable(Ten(size))
    ensures Shows(Sections(Standard(), Ten(size), MAX_INJECTION_BYTES - TRUNCATION_SUMMARY_RESERVE_BYTES), 1, 1)
  {
    var room := MAX_INJECTION_BYTES - TRUNCATION_SUMMARY_RESERVE_BYTES;
    TenAreRenderable(size);
    EightAreRenderable();
    EightSize();
    var cut := LargeIsCut(size, room - 240);
    TenIsEight(size);
    WholePrefix(Standard(), Eight(), Ten(size), [File('i', size), Last()], room, room - 240);
    CountTwo(Standard(), Eight(), cut, OmittedTruncation(Last()));
  }

  lemma TenIsEight(size: nat)
    ensures Ten(size) == Eight() + [File('i', size), Last()]
  {
    assert (Eight() + [File('i', size)]) + [Last()] == Eight() + ([File('i', size)] + [Last()]);
  }

  lemma LargeIsCut(size: nat, room: int) returns (cut: Truncation)
    requires LargeSize(size) && room == MAX_INJECTION_BYTES - TRUNCATION_SUMMARY_RESERVE_BYTES - 240
    ensures AllRenderable([File('i', size), Last()])
    ensures Sections(Standard(), [File('i', size), Last()], room).truncations == [cut, OmittedTruncation(Last())]
    ensures cut.status == Truncated
  {
    FileIsRenderable('j', 100);
    LargeShowsSome(size, room);
    NineSize(size);
    cut := CutThenOmitted(Standard(), File('i', size), Last(), room);
  }

  lemma CutThenOmitted(lay: Layout, g: Group, h: Group, room: int) returns (cut: Truncation)
    requires Renderable(g) && Renderable(h) && !FitsWhole(lay, g, room) && FitLength(lay, g, room) > 0
    ensures AllRenderable([g, h])
    ensures Sections(lay, [g, h], room).truncations == [cut, OmittedTruncation(h)] && cut.status == Truncated
  {
    SectionsOfCut(lay, g, [h], room);
    assert [g] + [h] == [g, h] && AllOmitted([h]) == [OmittedTruncation(h)];
    cut := Truncation(g.target, Truncated, FitLength(lay, g, room), g.totalBytes);
    assert [cut] + [OmittedTruncation(h)] == [cut, OmittedTruncation(h)];
  }

  lemma LargeShowsSome(size: nat, room: int)
    requires LargeSize(size) && room == MAX_INJECTION_BYTES - TRUNCATION_SUMMARY_RESERVE_BYTES - 240
    ensures Renderable(File('i', size)) && FitLength(Standard(), File('i', size), room) > 0
  {
    var large := File('i', size);
    FileIsRenderable('i', size);
    LettersDecode(size);
    StandardIsOrderly();
    LargeDigits(size);
    HeaderSize('i', 1, size);
    MarkerSize();
    assert |Decimal(1)| == 1;
    assert Fits(Standard(), large, 1, room) && Boundary(large.bytes, 1);
    FitLengthIsLargest(Standard(), large, room);
  }

  lemma SmallDigits(n: nat)
    ensures n < 10 ==> |Decimal(n)| == 1
    ensures 10 <= n < 100 ==> |Decimal(n)| == 2
  {
  }

  lemma SummaryOfTen(t: seq<Truncation>, omitted: nat, cut: nat)
    requires |t| == 10 && CountStatus(t, Omitted) == omitted && CountStatus(t, Truncated) == cut && omitted <= 1 && cut <= 1
    ensures |Summary(t)| == if omitted == 0 then 83 else 82
  {
    SummaryLength(|t| - omitted, cut, omitted);
    SmallDigits(|t| - omitted);
    SmallDigits(cut);
    SmallDigits(omitted);
  }

  lemma NextOf(size: nat, budget: nat, omitted: nat, cut: nat)
    requires AllRenderable(Ten(size)) && omitted <= 1 && cut <= 1
    requires Shows(Sections(Standard(), Ten(size), MAX_INJECTION_BYTES - budget), omitted, cut)
    ensures NextBudget(Standard(), Ten(size), [], budget) == if omitted == 0 then 83 else 82
  {
    NextIsSummary(Standard(), Ten(size), budget);
    SummaryOfTen(Sections(Standard(), Ten(size), MAX_INJECTION_BYTES - budget).truncations, omitted, cut);
  }

  lemma NextIsSummary(lay: Layout, groups: seq<Group>, budget: nat)
    requires AllRenderable(groups)
    ensures NextBudget(lay, groups, [], budget) ==
            |lay.summarize(Sections(lay, groups, MAX_INJECTION_BYTES - budget).truncations)|
  {
  }

  /** From the reserve the search goes to 82, then to 83, and back to 82. */
  lemma BudgetsCycle(size: nat)
    requires LargeSize(size)
    ensures AllRenderable(Ten(size))
    ensures NextBudget(Standard(), Ten(size), [], TRUNCATION_SUMMARY_RESERVE_BYTES) == 82
    ensures NextBudget(Standard(), Ten(size), [], 82) == 83 && NextBudget(Standard(), Ten(size), [], 83) == 82
    ensures BlockBytes(CandidateAt(Standard(), Ten(size), [], 82)) == MAX_INJECTION_BYTES + 1
    ensures BlockBytes(CandidateAt(Standard(), Ten(size), [], 83)) == MAX_INJECTION_BYTES - 49
  {
    ReserveSections(size);
    NextOf(size, TRUNCATION_SUMMARY_RESERVE_BYTES, 1, 1);
    TightSections(size, 82);
    NextOf(size, 82, 0, 1);
    TightSections(size, 83);
    NextOf(size, 83, 1, 0);
  }

  lemma OrbitOfReserve(size: nat, m: nat)
    requires LargeSize(size) && AllRenderable(Ten(size))
    ensures Orbit(Standard(), Ten(size), [], TRUNCATION_SUMMARY_RESERVE_BYTES, m) ==
            if m == 0 then TRUNCATION_SUMMARY_RESERVE_BYTES else if m % 2 == 1 then 82 else 83
  {
    BudgetsCycle(size);
    OrbitAlternates(Standard(), Ten(size), [], TRUNCATION_SUMMARY_RESERVE_BYTES, 82, 83, m);
  }

  lemma {:induction false} OrbitAlternates(lay: Layout, groups: seq<Group>, instruction: seq<Byte>, start: nat, a: nat, b: nat, m: nat)
    requires AllRenderable(groups) && NextBudget(lay, groups, instruction, start) == a
    requires NextBudget(lay, groups, instruction, a) == b && NextBudget(lay, groups, instruction, b) == a
    ensures Orbit(lay, groups, instruction, start, m) == if m == 0 then start else if m % 2 == 1 then a else b
  {
    if m > 0 {
      OrbitAlternates(lay, groups, instruction, start, a, b, m - 1);
    }
  }

  lemma TenSearchSucceeds(size: nat)
    requires AllRenderable(Ten(size))
    ensures Search(Standard(), Ten(size), [], [], TRUNCATION_SUMMARY_RESERVE_BYTES).Ok?
  {
    StandardIsOrderly();
    forall t: seq<Truncation> | |t| == |Ten(size)|
      ensures |Standard().summarize(t)| <= TRUNCATION_SUMMARY_RESERVE_BYTES
    {
      assert Pow10(2) == 10 * Pow10(1) == 100 * Pow10(0);
      SummaryOfFewGroupsFits(t, 2);
    }
    SearchSucceeds(Standard(), Ten(size), [], [], TRUNCATION_SUMMARY_RESERVE_BYTES);
  }

  /** The cycle branch is live, and so is its feasibility filter: on these files the search goes round between 82 and 83,
      finds that the block for 82 is one byte too long, and settles on 83, although no budget equals its summary. */
  lemma CycleIsLive() returns (size: nat)
    ensures AllRenderable(Ten(size))
    ensures Search(Standard(), Ten(size), [], [], TRUNCATION_SUMMARY_RESERVE_BYTES) == Ok(CandidateAt(Standard(), Ten(size), [], 83))
    ensures NextBudget(Standard(), Ten(size), [], 83) == 82 && NextBudget(Standard(), Ten(size), [], 82) == 83
    ensures BlockBytes(CandidateAt(Standard(), Ten(size), [], 82)) > MAX_INJECTION_BYTES
  {
    size := MAX_INJECTION_BYTES - 411;
    BudgetsCycle(size);
    TenSearchSucceeds(size);
    SettlesOn(size);
  }

  lemma SettlesOn(size: nat)
    requires LargeSize(size) && AllRenderable(Ten(size))
    requires Search(Standard(), Ten(size), [], [], TRUNCATION_SUMMARY_RESERVE_BYTES).Ok?
    ensures Search(Standard(), Ten(size), [], [], TRUNCATION_SUMMARY_RESERVE_BYTES) == Ok(CandidateAt(Standard(), Ten(size), [], 83))
  {
    StandardIsOrderly();
    SearchNeverStuck(Standard(), Ten(size), [], [], TRUNCATION_SUMMARY_RESERVE_BYTES);
    var c := Search(Standard(), Ten(size), [], [], TRUNCATION_SUMMARY_RESERVE_BYTES).value;
    BudgetsCycle(size);
    BestBudget(size, c);
  }

  lemma BestBudget(size: nat, c: Candidate)
    requires LargeSize(size) && AllRenderable(Ten(size))
    requires BestOnCycle(Standard(), Ten(size), [], c)
    requires ReachedFrom(Standard(), Ten(size), [], TRUNCATION_SUMMARY_RESERVE_BYTES, c.budget)
    ensures c.budget == 83
  {
    BudgetsCycle(size);
    var m: nat :| Orbit(Standard(), Ten(size), [], TRUNCATION_SUMMARY_RESERVE_BYTES, m) == c.budget;
    OrbitOfReserve(size, m);
    var p: nat :| p > 0 && Orbit(Standard(), Ten(size), [], c.budget, p) == c.budget;
    if c.budget == TRUNCATION_SUMMARY_RESERVE_BYTES {
      OrbitOfReserve(size, p);
    }
  }
}
