/** Building the attempt-wide snapshot: evidence order, alias groups, bounded retention, and the
    checks its constructors make. */
module ContentSnapshot {
  import opened Text
  import opened Utf8
  import opened Ordering
  import opened SnapshotTypes
  import opened Rendering
  import opened Retention

  /** `_validate_canonical_target`: a relative path without empty, "." or ".." components. */
  predicate CanonicalTarget(target: string) {
    && target != ""
    && '\\' !in target
    && forall part :: part in Split(target, '/') ==> part != "" && part != "." && part != ".."
  }

  /** The checks of the authored-row constructor. */
  predicate ValidRow(row: Row) {
    && row.bindingRef != ""
    && row.evaluatedRelpath != ""
    && (row.target.Some? ==> CanonicalTarget(row.target.value))
  }

  // ---- Evidence order

  predicate KeyLess(a: Row, b: Row) {
    || (a.role == Required && b.role == Optional)
    || (a.role == b.role && a.authoredIndex < b.authoredIndex)
  }

  predicate SameIdentity(a: Row, b: Row) {
    a.role == b.role && a.authoredIndex == b.authoredIndex
  }

  /** Evidence order without repeated identities. */
  predicate Ordered(rows: seq<Row>) {
    forall i, j :: 0 <= i < j < |rows| ==> KeyLess(rows[i], rows[j])
  }

  predicate DistinctIdentities(rows: seq<Row>) {
    forall i, j :: 0 <= i < j < |rows| ==> !SameIdentity(rows[i], rows[j])
  }

  function InsertRow(row: Row, rows: seq<Row>): seq<Row> {
    if rows == [] || !KeyLess(rows[0], row) then [row] + rows
    else [rows[0]] + InsertRow(row, rows[1..])
  }

  /** `sorted(rows, key=_evidence_key)`. */
  function EvidenceOrder(rows: seq<Row>): seq<Row> {
    if rows == [] then [] else InsertRow(rows[0], EvidenceOrder(rows[1..]))
  }

  lemma {:induction false} InsertRowMembers(row: Row, rows: seq<Row>)
    ensures multiset(InsertRow(row, rows)) == multiset(rows) + multiset{row}
    ensures forall r :: r in InsertRow(row, rows) <==> r == row || r in rows
  {
    if rows == [] || !KeyLess(rows[0], row) {
    } else {
      InsertRowMembers(row, rows[1..]);
      assert rows == [rows[0]] + rows[1..];
    }
  }

  lemma {:induction false} InsertRowOrdered(row: Row, rows: seq<Row>)
    requires Ordered(rows) && forall r :: r in rows ==> !SameIdentity(row, r)
    ensures Ordered(InsertRow(row, rows))
  {
    if rows == [] {
    } else if !KeyLess(rows[0], row) {
      assert rows[0] in rows;
      assert KeyLess(row, rows[0]);
    } else {
      var rest := InsertRow(row, rows[1..]);
      InsertRowOrdered(row, rows[1..]);
      InsertRowMembers(row, rows[1..]);
      forall j | 0 <= j < |rest|
        ensures KeyLess(rows[0], rest[j])
      {
        if rest[j] != row {
          assert rest[j] in rest && rest[j] in rows[1..];
          var k :| 0 <= k < |rows[1..]| && rows[1..][k] == rest[j];
          assert rows[k + 1] == rest[j];
        }
      }
    }
  }

  lemma {:induction false} EvidenceOrderMembers(rows: seq<Row>)
    ensures multiset(EvidenceOrder(rows)) == multiset(rows)
    ensures forall r :: r in EvidenceOrder(rows) <==> r in rows
  {
    if rows != [] {
      EvidenceOrderMembers(rows[1..]);
      InsertRowMembers(rows[0], EvidenceOrder(rows[1..]));
      assert rows == [rows[0]] + rows[1..];
    }
  }

  lemma {:induction false} EvidenceOrderOrdered(rows: seq<Row>)
    requires DistinctIdentities(rows)
    ensures Ordered(EvidenceOrder(rows))
  {
    if rows != [] {
      var tail := rows[1..];
      EvidenceOrderOrdered(tail);
      EvidenceOrderMembers(tail);
      forall r | r in EvidenceOrder(tail)
        ensures !SameIdentity(rows[0], r)
      {
        var k :| 0 <= k < |tail| && tail[k] == r;
        assert rows[k + 1] == r;
      }
      InsertRowOrdered(rows[0], EvidenceOrder(tail));
    }
  }

  // ---- Contiguous indices

  function CountRole(rows: seq<Row>, role: Role): nat {
    if rows == [] then 0 else (if rows[0].role == role then 1 else 0) + CountRole(rows[1..], role)
  }

  function CountIdentity(rows: seq<Row>, role: Role, index: nat): nat {
    if rows == [] then 0
    else (if rows[0].role == role && rows[0].authoredIndex == index then 1 else 0)
         + CountIdentity(rows[1..], role, index)
  }

  /** `_validate_contiguous_indices`: the n indices of each role are 0, 1, ..., n - 1, each once. */
  predicate Contiguous(rows: seq<Row>) {
    forall role: Role, index: nat | index < CountRole(rows, role) :: CountIdentity(rows, role, index) == 1
  }

  function CountBelow(rows: seq<Row>, role: Role, bound: nat): nat {
    if rows == [] then 0
    else (if rows[0].role == role && rows[0].authoredIndex < bound then 1 else 0) + CountBelow(rows[1..], role, bound)
  }

  lemma {:induction false} CountBelowStep(rows: seq<Row>, role: Role, bound: nat)
    ensures CountBelow(rows, role, bound + 1) == CountBelow(rows, role, bound) + CountIdentity(rows, role, bound)
  {
    if rows != [] {
      CountBelowStep(rows[1..], role, bound);
    }
  }

  lemma {:induction false} CountBelowWhenContiguous(rows: seq<Row>, role: Role, bound: nat)
    requires Contiguous(rows) && bound <= CountRole(rows, role)
    ensures CountBelow(rows, role, bound) >= bound
  {
    if bound > 0 {
      CountBelowWhenContiguous(rows, role, bound - 1);
      CountBelowStep(rows, role, bound - 1);
    }
  }

  lemma {:induction false} CountBelowPartitions(rows: seq<Row>, j: nat, bound: nat)
    requires j < |rows| && rows[j].authoredIndex >= bound
    ensures CountBelow(rows, rows[j].role, bound) < CountRole(rows, rows[j].role)
  {
    if j > 0 {
      CountBelowPartitions(rows[1..], j - 1, bound);
    } else {
      CountBelowAtMost(rows[1..], rows[0].role, bound);
    }
  }

  lemma {:induction false} CountBelowAtMost(rows: seq<Row>, role: Role, bound: nat)
    ensures CountBelow(rows, role, bound) <= CountRole(rows, role)
  {
    if rows != [] {
      CountBelowAtMost(rows[1..], role, bound);
    }
  }

  lemma IndicesAreBelowCount(rows: seq<Row>, j: nat)
    requires Contiguous(rows) && j < |rows|
    ensures rows[j].authoredIndex < CountRole(rows, rows[j].role)
  {
    var n := CountRole(rows, rows[j].role);
    CountBelowWhenContiguous(rows, rows[j].role, n);
    if rows[j].authoredIndex >= n {
      CountBelowPartitions(rows, j, n);
    }
  }

  lemma {:induction false} IdentityCounts(rows: seq<Row>, j: nat)
    requires j < |rows|
    ensures CountIdentity(rows, rows[j].role, rows[j].authoredIndex) >= 1
  {
    if j > 0 {
      IdentityCounts(rows[1..], j - 1);
    }
  }

  lemma {:induction false} RepeatedIdentityCounts(rows: seq<Row>, i: nat, j: nat)
    requires i < j < |rows| && SameIdentity(rows[i], rows[j])
    ensures CountIdentity(rows, rows[i].role, rows[i].authoredIndex) >= 2
  {
    if i > 0 {
      RepeatedIdentityCounts(rows[1..], i - 1, j - 1);
    } else {
      IdentityCounts(rows[1..], j - 1);
    }
  }

  lemma ContiguousMeansDistinct(rows: seq<Row>)
    requires Contiguous(rows)
    ensures DistinctIdentities(rows)
  {
    forall i, j | 0 <= i < j < |rows|
      ensures !SameIdentity(rows[i], rows[j])
    {
      if SameIdentity(rows[i], rows[j]) {
        RepeatedIdentityCounts(rows, i, j);
        IndicesAreBelowCount(rows, i);
      }
    }
  }

  lemma {:induction false} InsertRowCounts(row: Row, rows: seq<Row>, role: Role, index: nat)
    ensures CountRole(InsertRow(row, rows), role) == CountRole([row] + rows, role)
    ensures CountIdentity(InsertRow(row, rows), role, index) == CountIdentity([row] + rows, role, index)
  {
    assert ([row] + rows)[1..] == rows;
    if rows != [] && KeyLess(rows[0], row) {
      InsertRowCounts(row, rows[1..], role, index);
      assert ([row] + rows[1..])[1..] == rows[1..];
      assert InsertRow(row, rows)[1..] == InsertRow(row, rows[1..]);
    }
  }

  lemma {:induction false} EvidenceOrderCounts(rows: seq<Row>, role: Role, index: nat)
    ensures CountRole(EvidenceOrder(rows), role) == CountRole(rows, role)
    ensures CountIdentity(EvidenceOrder(rows), role, index) == CountIdentity(rows, role, index)
  {
    if rows != [] {
      var tail := EvidenceOrder(rows[1..]);
      EvidenceOrderCounts(rows[1..], role, index);
      InsertRowCounts(rows[0], tail, role, index);
      assert ([rows[0]] + tail)[1..] == tail;
    }
  }

  lemma EvidenceOrderContiguous(rows: seq<Row>)
    requires Contiguous(rows)
    ensures Contiguous(EvidenceOrder(rows))
  {
    forall role: Role, index: nat | index < CountRole(EvidenceOrder(rows), role)
      ensures CountIdentity(EvidenceOrder(rows), role, index) == 1
    {
      EvidenceOrderCounts(rows, role, index);
    }
  }

  // ---- Grouping

  function Aliases(rows: seq<Row>, target: string): seq<Row> {
    if rows == [] then []
    else (if rows[0].target == Some(target) then [rows[0]] else []) + Aliases(rows[1..], target)
  }

  function Absent(rows: seq<Row>): seq<Row> {
    if rows == [] then []
    else (if rows[0].target.None? then [rows[0]] else []) + Absent(rows[1..])
  }

  function Present(rows: seq<Row>): seq<Row> {
    if rows == [] then []
    else (if rows[0].target.Some? then [rows[0]] else []) + Present(rows[1..])
  }

  /** `sorted({row.canonical_target ...})`. */
  function Targets(rows: seq<Row>): seq<string> {
    if rows == [] then []
    else if rows[0].target.Some? then InsertName(rows[0].target.value, Targets(rows[1..]))
    else Targets(rows[1..])
  }

  lemma {:induction false} TargetsProperties(rows: seq<Row>)
    ensures StrictlySorted(Targets(rows))
    ensures forall t :: t in Targets(rows) <==> exists r :: r in rows && r.target == Some(t)
  {
    if rows != [] {
      TargetsProperties(rows[1..]);
      assert rows == [rows[0]] + rows[1..];
      if rows[0].target.Some? {
        InsertNameSorted(rows[0].target.value, Targets(rows[1..]));
        InsertNameMembers(rows[0].target.value, Targets(rows[1..]));
      }
      assert rows[0] in rows && forall r :: r in rows[1..] ==> r in rows;
    }
  }

  lemma {:induction false} AliasesProperties(rows: seq<Row>, target: string)
    ensures forall r :: r in Aliases(rows, target) <==> r in rows && r.target == Some(target)
    ensures Ordered(rows) ==> Ordered(Aliases(rows, target))
  {
    if rows != [] {
      AliasesProperties(rows[1..], target);
      assert rows == [rows[0]] + rows[1..];
      if Ordered(rows) {
        assert Ordered(rows[1..]);
        var rest := Aliases(rows[1..], target);
        forall j | 0 <= j < |rest|
          ensures KeyLess(rows[0], rest[j])
        {
          var k :| 0 <= k < |rows[1..]| && rows[1..][k] == rest[j];
          assert rows[k + 1] == rest[j];
        }
      }
    }
  }

  predicate AnyRequired(rows: seq<Row>) {
    exists i :: 0 <= i < |rows| && rows[i].role == Required
  }

  function EffectiveRole(rows: seq<Row>): Role {
    if AnyRequired(rows) then Required else Optional
  }

  /** The group of one target with its whole payload. */
  function WholeGroup(rows: seq<Row>, target: string, payload: seq<Byte>): Group {
    var aliases := Aliases(rows, target);
    Group(target, EffectiveRole(aliases), aliases, payload, |payload|)
  }

  /** One whole group per target, in order. */
  function WholeGroups(rows: seq<Row>, targets: seq<string>, payloads: map<string, seq<Byte>>): (g: seq<Group>)
    requires forall t :: t in targets ==> t in payloads
    ensures |g| == |targets|
    ensures forall i :: 0 <= i < |targets| ==> g[i] == WholeGroup(rows, targets[i], payloads[targets[i]])
  {
    seq(|targets|, i requires 0 <= i < |targets| => WholeGroup(rows, targets[i], payloads[targets[i]]))
  }

  // ---- The constructors' checks

  predicate ValidGroup(g: Group) {
    && CanonicalTarget(g.target)
    && Ordered(g.rows)
    && g.rows != []
    && (forall r :: r in g.rows ==> r.target == Some(g.target))
    && g.role == EffectiveRole(g.rows)
    && Decodes(g.bytes)
    && |g.bytes| <= g.totalBytes
  }

  function GroupedRows(groups: seq<Group>): seq<Row> {
    if groups == [] then [] else groups[0].rows + GroupedRows(groups[1..])
  }

  function TargetNames(groups: seq<Group>): (names: seq<string>)
    ensures |names| == |groups| && forall i :: 0 <= i < |groups| ==> names[i] == groups[i].target
  {
    seq(|groups|, i requires 0 <= i < |groups| => groups[i].target)
  }

  /** Everything `DependencyContentSnapshot` and `CanonicalDependencyGroup` insist on. */
  ghost predicate ValidSnapshot(s: Snapshot) {
    && (forall g :: g in s.groups ==> ValidGroup(g))
    && Ordered(s.authoredRows)
    && Contiguous(s.authoredRows)
    && s.retainedBytes == RetainedTotal(s.groups)
    && s.retainedBytes <= MAX_INJECTION_BYTES
    && s.absentRows == Absent(s.authoredRows)
    && (forall r :: r in s.absentRows ==> r.role == Optional)
    && multiset(GroupedRows(s.groups)) == multiset(Present(s.authoredRows))
    && StrictlySorted(TargetNames(s.groups))
  }

  // ---- The groups partition the present rows

  /** The rows whose target is among `targets`. */
  function RowsOf(rows: seq<Row>, targets: set<string>): seq<Row> {
    if rows == [] then []
    else (if rows[0].target.Some? && rows[0].target.value in targets then [rows[0]] else [])
         + RowsOf(rows[1..], targets)
  }

  lemma {:induction false} RowsOfSplits(rows: seq<Row>, target: string, targets: set<string>)
    requires target !in targets
    ensures multiset(RowsOf(rows, targets + {target}))
         == multiset(Aliases(rows, target)) + multiset(RowsOf(rows, targets))
  {
    if rows != [] {
      RowsOfSplits(rows[1..], target, targets);
    }
  }

  lemma {:induction false} RowsOfNothing(rows: seq<Row>)
    ensures RowsOf(rows, {}) == []
  {
    if rows != [] {
      RowsOfNothing(rows[1..]);
    }
  }

  lemma {:induction false} RowsOfAll(rows: seq<Row>, targets: set<string>)
    requires forall r :: r in rows && r.target.Some? ==> r.target.value in targets
    ensures RowsOf(rows, targets) == Present(rows)
  {
    if rows != [] {
      RowsOfAll(rows[1..], targets);
    }
  }

  function TargetSet(groups: seq<Group>): set<string> {
    if groups == [] then {} else {groups[0].target} + TargetSet(groups[1..])
  }

  lemma {:induction false} TargetSetMembers(groups: seq<Group>)
    ensures forall t :: t in TargetSet(groups) <==> exists i :: 0 <= i < |groups| && groups[i].target == t
  {
    if groups != [] {
      TargetSetMembers(groups[1..]);
      forall t
        ensures t in TargetSet(groups) <==> exists i :: 0 <= i < |groups| && groups[i].target == t
      {
        if t in TargetSet(groups[1..]) {
          var i :| 0 <= i < |groups[1..]| && groups[1..][i].target == t;
          assert groups[i + 1].target == t;
        }
        if i :| 0 <= i < |groups| && groups[i].target == t && i > 0 {
          assert groups[1..][i - 1].target == t;
        }
      }
    }
  }

  lemma {:induction false} GroupsCoverRowsOf(rows: seq<Row>, groups: seq<Group>)
    requires forall i :: 0 <= i < |groups| ==> groups[i].rows == Aliases(rows, groups[i].target)
    requires forall i, j :: 0 <= i < j < |groups| ==> groups[i].target != groups[j].target
    ensures multiset(GroupedRows(groups)) == multiset(RowsOf(rows, TargetSet(groups)))
  {
    if groups == [] {
      RowsOfNothing(rows);
    } else {
      var tail := groups[1..];
      GroupsCoverRowsOf(rows, tail);
      TargetSetMembers(tail);
      assert groups[0].target !in TargetSet(tail);
      RowsOfSplits(rows, groups[0].target, TargetSet(tail));
      assert TargetSet(groups) == TargetSet(tail) + {groups[0].target};
    }
  }

  // ---- Building

  datatype Content = Content(target: string, bytes: seq<Byte>)

  /** The checks of the content constructor. */
  predicate ValidContent(c: Content) {
    CanonicalTarget(c.target) && Decodes(c.bytes)
  }

  datatype BuildError = IndicesNotContiguous | PayloadTargetsRepeat | PayloadMembership | RequiredAbsent

  predicate DistinctTargets(contents: seq<Content>) {
    forall i, j :: 0 <= i < j < |contents| ==> contents[i].target != contents[j].target
  }

  function PayloadMap(contents: seq<Content>): map<string, seq<Byte>> {
    if contents == [] then map[]
    else PayloadMap(contents[1..])[contents[0].target := contents[0].bytes]
  }

  lemma {:induction false} PayloadMapValid(contents: seq<Content>)
    requires forall c :: c in contents ==> ValidContent(c)
    ensures forall t :: t in PayloadMap(contents) ==> CanonicalTarget(t) && Decodes(PayloadMap(contents)[t])
  {
    if contents != [] {
      PayloadMapValid(contents[1..]);
      assert contents[0] in contents;
    }
  }

  /** The map has the bytes given for each target, and nothing else. */
  ghost predicate MapsContents(m: map<string, seq<Byte>>, contents: seq<Content>) {
    && (forall i :: 0 <= i < |contents| ==> contents[i].target in m && m[contents[i].target] == contents[i].bytes)
    && (forall t :: t in m ==> Content(t, m[t]) in contents)
  }

  lemma MapsOneMore(m: map<string, seq<Byte>>, first: Content, rest: seq<Content>)
    requires MapsContents(m, rest) && forall i :: 0 <= i < |rest| ==> rest[i].target != first.target
    ensures MapsContents(m[first.target := first.bytes], [first] + rest)
  {
    var all, more := [first] + rest, m[first.target := first.bytes];
    assert forall i :: 1 <= i < |all| ==> all[i] == rest[i - 1];
    forall t | t in more
      ensures Content(t, more[t]) in all
    {
      if t == first.target {
        assert all[0] == Content(t, more[t]);
      } else {
        assert Content(t, m[t]) in rest;
      }
    }
  }

  /** The payload of a target is the bytes given for it. */
  lemma {:induction false} PayloadMapIs(contents: seq<Content>)
    requires DistinctTargets(contents)
    ensures MapsContents(PayloadMap(contents), contents)
  {
    if contents != [] {
      var first, rest := contents[0], contents[1..];
      assert contents == [first] + rest;
      forall i | 0 <= i < |rest|
        ensures rest[i].target != first.target
      {
        assert contents[i + 1] == rest[i];
      }
      forall i, j | 0 <= i < j < |rest|
        ensures rest[i].target != rest[j].target
      {
        assert contents[i + 1] == rest[i] && contents[j + 1] == rest[j];
      }
      PayloadMapIs(rest);
      MapsOneMore(PayloadMap(rest), first, rest);
    }
  }

  /** Every present row has exactly one payload and every payload is referenced. */
  predicate PayloadsMatch(rows: seq<Row>, payloads: map<string, seq<Byte>>) {
    (set t | t in Targets(EvidenceOrder(rows))) == payloads.Keys
  }

  predicate RequiredMissing(rows: seq<Row>) {
    exists r :: r in rows && r.role == Required && r.target.None?
  }

  /** The snapshot that a successful build returns. */
  function Built(rows: seq<Row>, payloads: map<string, seq<Byte>>): Snapshot
    requires PayloadsMatch(rows, payloads)
  {
    var ordered := EvidenceOrder(rows);
    var whole := BuiltWhole(rows, payloads);
    var kept := Retain(whole, MAX_INJECTION_BYTES);
    Snapshot(ordered, Absent(ordered), kept, RetainedTotal(kept))
  }

  /** The same groups with every payload kept whole. */
  function BuiltWhole(rows: seq<Row>, payloads: map<string, seq<Byte>>): seq<Group>
    requires PayloadsMatch(rows, payloads)
  {
    var ordered := EvidenceOrder(rows);
    TargetsAreKeys(rows, payloads);
    WholeGroups(ordered, Targets(ordered), payloads)
  }

  lemma TargetsAreKeys(rows: seq<Row>, payloads: map<string, seq<Byte>>)
    requires PayloadsMatch(rows, payloads)
    ensures forall t :: t in Targets(EvidenceOrder(rows)) ==> t in payloads
  {
    forall t | t in Targets(EvidenceOrder(rows))
      ensures t in payloads
    {
      assert t in (set u | u in Targets(EvidenceOrder(rows)));
    }
  }

  lemma BuiltWholeIsWhole(rows: seq<Row>, contents: seq<Content>)
    requires forall c :: c in contents ==> ValidContent(c)
    requires PayloadsMatch(rows, PayloadMap(contents))
    ensures AllWhole(BuiltWhole(rows, PayloadMap(contents)))
  {
    PayloadMapValid(contents);
    TargetsAreKeys(rows, PayloadMap(contents));
  }

  lemma WholeGroupValid(rows: seq<Row>, target: string, payload: seq<Byte>, r: Row)
    requires Ordered(rows) && CanonicalTarget(target) && Decodes(payload)
    requires r in rows && r.target == Some(target)
    ensures ValidGroup(WholeGroup(rows, target, payload))
  {
    AliasesProperties(rows, target);
    assert r in Aliases(rows, target);
  }

  lemma BuiltGroupsValid(rows: seq<Row>, contents: seq<Content>)
    requires forall c :: c in contents ==> ValidContent(c)
    requires Contiguous(rows) && PayloadsMatch(rows, PayloadMap(contents))
    ensures forall g :: g in Built(rows, PayloadMap(contents)).groups ==> ValidGroup(g)
  {
    var payloads, ordered := PayloadMap(contents), EvidenceOrder(rows);
    var whole := BuiltWhole(rows, payloads);
    ContiguousMeansDistinct(rows);
    EvidenceOrderOrdered(rows);
    TargetsProperties(ordered);
    TargetsAreKeys(rows, payloads);
    PayloadMapValid(contents);
    BuiltWholeIsWhole(rows, contents);
    RetainProperties(whole, MAX_INJECTION_BYTES);
    RetainKeepsNames(whole, MAX_INJECTION_BYTES);
    var kept := Retain(whole, MAX_INJECTION_BYTES);
    forall g | g in kept
      ensures ValidGroup(g)
    {
      var i :| 0 <= i < |kept| && kept[i] == g;
      var target := Targets(ordered)[i];
      assert target in Targets(ordered);
      var r :| r in ordered && r.target == Some(target);
      WholeGroupValid(ordered, target, payloads[target], r);
      assert g == whole[i].(bytes := g.bytes) && Renderable(g);
    }
  }

  lemma KeptTargets(rows: seq<Row>, payloads: map<string, seq<Byte>>)
    requires PayloadsMatch(rows, payloads)
    ensures var ordered, kept := EvidenceOrder(rows), Built(rows, payloads).groups;
            && |kept| == |Targets(ordered)|
            && forall i :: 0 <= i < |kept| ==>
                 kept[i].target == Targets(ordered)[i] && kept[i].rows == Aliases(ordered, kept[i].target)
  {
    TargetsAreKeys(rows, payloads);
    RetainKeepsNames(BuiltWhole(rows, payloads), MAX_INJECTION_BYTES);
  }

  lemma BuiltGroupsPartition(rows: seq<Row>, contents: seq<Content>)
    requires PayloadsMatch(rows, PayloadMap(contents))
    ensures multiset(GroupedRows(Built(rows, PayloadMap(contents)).groups)) == multiset(Present(EvidenceOrder(rows)))
  {
    var ordered := EvidenceOrder(rows);
    var kept := Built(rows, PayloadMap(contents)).groups;
    KeptTargets(rows, PayloadMap(contents));
    TargetsProperties(ordered);
    forall i, j | 0 <= i < j < |kept|
      ensures kept[i].target != kept[j].target
    {
      LessIrreflexive(kept[i].target);
    }
    GroupsCoverRowsOf(ordered, kept);
    TargetSetMembers(kept);
    forall r | r in ordered && r.target.Some?
      ensures r.target.value in TargetSet(kept)
    {
      assert r.target.value in Targets(ordered);
      var i :| 0 <= i < |Targets(ordered)| && Targets(ordered)[i] == r.target.value;
      assert kept[i].target == r.target.value;
    }
    RowsOfAll(ordered, TargetSet(kept));
  }

  lemma {:induction false} AbsentMembers(rows: seq<Row>)
    ensures forall r :: r in Absent(rows) <==> r in rows && r.target.None?
  {
    if rows != [] {
      AbsentMembers(rows[1..]);
      assert rows == [rows[0]] + rows[1..];
    }
  }

  lemma BuiltRowsValid(rows: seq<Row>)
    requires Contiguous(rows)
    ensures Ordered(EvidenceOrder(rows)) && Contiguous(EvidenceOrder(rows))
    ensures (forall r :: r in Absent(EvidenceOrder(rows)) ==> r.role == Optional) <==> !RequiredMissing(rows)
  {
    var ordered := EvidenceOrder(rows);
    ContiguousMeansDistinct(rows);
    EvidenceOrderOrdered(rows);
    EvidenceOrderContiguous(rows);
    EvidenceOrderMembers(rows);
    AbsentMembers(ordered);
    if RequiredMissing(rows) {
      var r :| r in rows && r.role == Required && r.target.None?;
      assert r in Absent(ordered);
    }
  }

  lemma BuiltTargetsSorted(rows: seq<Row>, payloads: map<string, seq<Byte>>)
    requires PayloadsMatch(rows, payloads)
    ensures StrictlySorted(TargetNames(Built(rows, payloads).groups))
  {
    KeptTargets(rows, payloads);
    TargetsProperties(EvidenceOrder(rows));
    assert TargetNames(Built(rows, payloads).groups) == Targets(EvidenceOrder(rows));
  }

  /** The groups have the bytes that were given for their targets, in order of the targets, one group for each content. */
  ghost predicate Given(groups: seq<Group>, contents: seq<Content>) {
    && (forall i :: 0 <= i < |groups| ==>
          Content(groups[i].target, groups[i].bytes) in contents && groups[i].totalBytes == |groups[i].bytes|)
    && (forall i :: 0 <= i < |contents| ==> contents[i].target in TargetNames(groups))
    && StrictlySorted(TargetNames(groups))
  }

  lemma WholeIsGiven(rows: seq<Row>, contents: seq<Content>)
    requires DistinctTargets(contents) && PayloadsMatch(rows, PayloadMap(contents))
    ensures Given(BuiltWhole(rows, PayloadMap(contents)), contents)
  {
    var payloads, targets := PayloadMap(contents), Targets(EvidenceOrder(rows));
    var groups := BuiltWhole(rows, payloads);
    PayloadMapIs(contents);
    TargetsAreKeys(rows, payloads);
    TargetsProperties(EvidenceOrder(rows));
    assert TargetNames(groups) == targets;
    forall i | 0 <= i < |groups|
      ensures Content(groups[i].target, groups[i].bytes) in contents
    {
      assert targets[i] in targets;
    }
    forall i | 0 <= i < |contents|
      ensures contents[i].target in targets
    {
      assert contents[i].target in payloads.Keys;
    }
  }

  /** What is kept of the given contents: for each a prefix of its bytes, and its whole length. */
  ghost predicate KeptOf(groups: seq<Group>, contents: seq<Content>) {
    && (forall i :: 0 <= i < |groups| ==>
          exists c :: c in contents && c.target == groups[i].target && groups[i].totalBytes == |c.bytes| && groups[i].bytes <= c.bytes)
    && (forall i :: 0 <= i < |contents| ==> contents[i].target in TargetNames(groups))
  }

  lemma {:induction false} RetainKeepsPrefixes(groups: seq<Group>, keep: nat)
    ensures forall i :: 0 <= i < |groups| ==> Retain(groups, keep)[i].bytes <= groups[i].bytes
    decreases |groups|
  {
    if groups != [] {
      RetainKeepsPrefixes(groups[1..], keep - |RetainedBytes(groups[0], keep)|);
      RetainCons(groups, keep);
    }
  }

  lemma BuiltIsKeptOf(rows: seq<Row>, contents: seq<Content>)
    requires DistinctTargets(contents) && PayloadsMatch(rows, PayloadMap(contents))
    ensures KeptOf(Built(rows, PayloadMap(contents)).groups, contents)
  {
    var whole := BuiltWhole(rows, PayloadMap(contents));
    var kept := Built(rows, PayloadMap(contents)).groups;
    WholeIsGiven(rows, contents);
    RetainKeepsNames(whole, MAX_INJECTION_BYTES);
    RetainKeepsPrefixes(whole, MAX_INJECTION_BYTES);
    assert TargetNames(kept) == TargetNames(whole);
    forall i | 0 <= i < |kept|
      ensures exists c :: c in contents && c.target == kept[i].target && kept[i].totalBytes == |c.bytes| && kept[i].bytes <= c.bytes
    {
      assert Content(whole[i].target, whole[i].bytes) in contents;
    }
  }

  /** Apart from an absent required row, no constructor check can fail on a build. */
  lemma BuiltSnapshotIsValid(rows: seq<Row>, contents: seq<Content>)
    requires forall c :: c in contents ==> ValidContent(c)
    requires Contiguous(rows) && PayloadsMatch(rows, PayloadMap(contents))
    ensures ValidSnapshot(Built(rows, PayloadMap(contents))) <==> !RequiredMissing(rows)
  {
    var payloads := PayloadMap(contents);
    BuiltGroupsValid(rows, contents);
    BuiltGroupsPartition(rows, contents);
    BuiltRowsValid(rows);
    BuiltTargetsSorted(rows, payloads);
    BuiltWholeIsWhole(rows, contents);
    RetainProperties(BuiltWhole(rows, payloads), MAX_INJECTION_BYTES);
  }

  method RetainGroup(ordered: seq<Row>, target: string, payload: seq<Byte>, keep: nat) returns (group: Group)
    ensures group == WholeGroup(ordered, target, payload).(bytes := StrictPrefix(payload, keep))
  {
    var aliases := Aliases(ordered, target);
    var kept := StrictUtf8Prefix(payload, keep);
    group := Group(target, EffectiveRole(aliases), aliases, kept, |payload|);
  }

  /** The loop over targets: group the aliases and keep what the budget still allows. */
  method RetainGroups(ordered: seq<Row>, referenced: seq<string>, payloads: map<string, seq<Byte>>)
    returns (groups: seq<Group>, retained: nat)
    requires forall t :: t in referenced ==> t in payloads
    ensures groups == Retain(WholeGroups(ordered, referenced, payloads), MAX_INJECTION_BYTES)
    ensures retained == RetainedTotal(groups)
  {
    ghost var whole := WholeGroups(ordered, referenced, payloads);
    retained, groups := 0, [];
    KeptNothing(whole);
    for i := 0 to |referenced|
      invariant KeptSoFar(groups, whole, i, retained)
    {
      var target := referenced[i];
      var group := RetainGroup(ordered, target, payloads[target], MAX_INJECTION_BYTES - retained);
      assert group == whole[i].(bytes := StrictPrefix(whole[i].bytes, MAX_INJECTION_BYTES - retained));
      RetainNext(groups, group, whole, i, retained);
      retained := retained + |group.bytes|;
      groups := groups + [group];
    }
    KeptAll(groups, whole, retained);
  }

  /** `build_content_snapshot`. */
  method BuildContentSnapshot(rows: seq<Row>, contents: seq<Content>) returns (r: Result<Snapshot, BuildError>)
    requires forall c :: c in contents ==> ValidContent(c)
    ensures r.Ok? <==> Contiguous(rows) && DistinctTargets(contents) && PayloadsMatch(rows, PayloadMap(contents))
                       && !RequiredMissing(rows)
    ensures r.Ok? ==> r.value == Built(rows, PayloadMap(contents)) && ValidSnapshot(r.value)
    ensures r.Ok? ==> KeptOf(r.value.groups, contents)
    ensures r == Err(IndicesNotContiguous) <==> !Contiguous(rows)
    ensures r == Err(RequiredAbsent) ==> RequiredMissing(rows)
  {
    if !Contiguous(rows) {
      return Err(IndicesNotContiguous);
    }
    var ordered := EvidenceOrder(rows);
    if !DistinctTargets(contents) {
      return Err(PayloadTargetsRepeat);
    }
    var payloads := PayloadMap(contents);
    var referenced := Targets(ordered);
    if (set t | t in referenced) != payloads.Keys {
      return Err(PayloadMembership);
    }
    assert PayloadsMatch(rows, payloads);
    TargetsAreKeys(rows, payloads);
    var groups, retained := RetainGroups(ordered, referenced, payloads);
    var snapshot := Snapshot(ordered, Absent(ordered), groups, retained);
    assert snapshot == Built(rows, payloads);
    BuiltSnapshotIsValid(rows, contents);
    BuiltIsKeptOf(rows, contents);
    BuiltRowsValid(rows);
    if exists row :: row in snapshot.absentRows && row.role != Optional {
      return Err(RequiredAbsent);
    }
    return Ok(snapshot);
  }

  lemma {:induction false} RetainedTotalAppend(groups: seq<Group>, g: Group)
    ensures RetainedTotal(groups + [g]) == RetainedTotal(groups) + |g.bytes|
  {
    if groups == [] {
      assert groups + [g] == [g];
    } else {
      RetainedTotalAppend(groups[1..], g);
      assert (groups + [g])[1..] == groups[1..] + [g];
    }
  }

  /** `groups` and what is still to be kept of `left` make up `goal`. */
  ghost predicate Kept(groups: seq<Group>, left: seq<Group>, keep: nat, goal: seq<Group>) {
    groups + Retain(left, keep) == goal
  }

  lemma RetainStep(groups: seq<Group>, group: Group, left: seq<Group>, keep: nat, goal: seq<Group>)
    requires Kept(groups, left, keep, goal)
    requires left != [] && group == left[0].(bytes := StrictPrefix(left[0].bytes, keep))
    ensures |group.bytes| <= keep
    ensures Kept(groups + [group], left[1..], keep - |group.bytes|, goal)
    ensures RetainedTotal(groups + [group]) == RetainedTotal(groups) + |group.bytes|
  {
    RetainedTotalAppend(groups, group);
    assert RetainedBytes(left[0], keep) == group.bytes;
  }

  /** What the loop keeps: the groups kept of the first `i`, and their total size. */
  ghost predicate KeptSoFar(groups: seq<Group>, whole: seq<Group>, i: nat, retained: nat) {
    && i <= |whole| && retained <= MAX_INJECTION_BYTES && retained == RetainedTotal(groups)
    && Kept(groups, whole[i..], MAX_INJECTION_BYTES - retained, Retain(whole, MAX_INJECTION_BYTES))
  }

  lemma KeptNothing(whole: seq<Group>)
    ensures KeptSoFar([], whole, 0, 0)
  {
    assert whole[0..] == whole;
  }

  lemma RetainNext(groups: seq<Group>, group: Group, whole: seq<Group>, i: nat, retained: nat)
    requires KeptSoFar(groups, whole, i, retained) && i < |whole|
    requires group == whole[i].(bytes := StrictPrefix(whole[i].bytes, MAX_INJECTION_BYTES - retained))
    ensures KeptSoFar(groups + [group], whole, i + 1, retained + |group.bytes|)
  {
    assert whole[i..][0] == whole[i] && whole[i..][1..] == whole[i + 1..];
    RetainStep(groups, group, whole[i..], MAX_INJECTION_BYTES - retained, Retain(whole, MAX_INJECTION_BYTES));
  }

  lemma KeptAll(groups: seq<Group>, whole: seq<Group>, retained: nat)
    requires KeptSoFar(groups, whole, |whole|, retained)
    ensures groups == Retain(whole, MAX_INJECTION_BYTES) && retained == RetainedTotal(groups)
  {
    assert whole[|whole|..] == [] && groups + [] == groups;
  }

  /** Rendering a built snapshot equals rendering it with every payload kept whole. */
  lemma BuiltRendersAsWhole(lay: Layout, rows: seq<Row>, contents: seq<Content>, instructionText: string)
    requires Orderly(lay) && forall c :: c in contents ==> ValidContent(c)
    requires PayloadsMatch(rows, PayloadMap(contents))
    ensures AllRenderable(Built(rows, PayloadMap(contents)).groups)
    ensures AllRenderable(BuiltWhole(rows, PayloadMap(contents)))
    ensures Render(lay, Built(rows, PayloadMap(contents)).groups, instructionText)
         == Render(lay, BuiltWhole(rows, PayloadMap(contents)), instructionText)
  {
    BuiltWholeIsWhole(rows, contents);
    RetentionIsInvisible(lay, BuiltWhole(rows, PayloadMap(contents)), instructionText);
  }
}
