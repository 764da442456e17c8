/** The two tagged-union validators as programs, proved against what they accept
    (orchestrator/contracts/output_contract.py). */
module UnionValidators {
  import opened Text
  import opened JsonPointer
  import opened ContractParse
  import opened UnionContracts

  // ---- The projection resolver

  datatype Reason = BadMetadata | DiscriminantCount | SchemaMismatch | MembershipInvalid | InactivePresent

  /** `names` lists a set of names without repetition. */
  ghost predicate Lists(names: seq<string>, all: set<string>) {
    Distinct(names) && forall n :: n in names <==> n in all
  }

  lemma ListsMore(names: seq<string>, n: string, all: set<string>)
    requires Lists(names, all) && n !in all
    ensures Lists(names + [n], all + {n})
  {
  }

  lemma ListedOnce(names: seq<string>, d: string)
    requires Lists(names, {d})
    ensures names == [d]
  {
    assert d in names;
    assert |names| >= 2 ==> names[0] != names[1];
    assert forall i :: 0 <= i < |names| ==> names[i] in names;
    assert forall i :: 0 <= i < |names| ==> names[i] == d;
  }

  lemma GroupOkNames(meta: Meta, group: string, d: string, discriminants: seq<string>)
    requires GroupOk(meta, group, d) && Lists(discriminants, Discriminants(meta, group))
    ensures discriminants == [d]
  {
    ListedOnce(discriminants, d);
  }

  /** When the group's discriminant is known, cleanness and inactivity speak of that discriminant. */
  lemma GroupSettled(meta: Meta, group: string, d: string, document: Value)
    requires GroupOk(meta, group, d)
    ensures GroupClean(meta, group, document) <==> NoIntruder(meta, group, d, document)
    ensures forall n :: n in Members(meta, group) ==>
              (Inactive(meta, n, document) <==> SwitchedOff(meta, d, n, document))
  {
    forall e | GroupOk(meta, group, e)
      ensures e == d
    {
      assert d in {e};
    }
  }

  lemma GroupUnsettled(meta: Meta, group: string, document: Value)
    requires forall d :: !GroupOk(meta, group, d)
    ensures !GroupClean(meta, group, document)
    ensures forall n :: n in Members(meta, group) ==> !Inactive(meta, n, document)
  {
  }

  method FindDiscriminants(meta: Meta, group: string, members: seq<string>) returns (discriminants: seq<string>)
    requires Lists(members, Members(meta, group))
    ensures Lists(discriminants, Discriminants(meta, group))
  {
    discriminants := [];
    ghost var seen: set<string> := {};
    for i := 0 to |members|
      invariant forall n :: n in seen <==> n in members[..i] && n in Discriminants(meta, group)
      invariant Lists(discriminants, seen)
    {
      assert members[..i + 1] == members[..i] + [members[i]];
      assert members[i] !in members[..i] && members[i] in members;
      if meta[members[i]].projection.role == Discriminant {
        ListsMore(discriminants, members[i], seen);
        discriminants := discriminants + [members[i]];
        seen := seen + {members[i]};
      }
    }
    assert members[..|members|] == members;
  }

  /** `valid` says whether every member seen so far is in `good`. */
  ghost predicate AllIn(done: seq<string>, good: set<string>, valid: bool) {
    valid <==> forall n :: n in done ==> n in good
  }

  lemma AllInMore(done: seq<string>, n: string, good: set<string>, valid: bool)
    requires AllIn(done, good, valid)
    ensures AllIn(done + [n], good, valid && n in good)
  {
    assert n in done + [n];
    assert forall k :: k in done ==> k in done + [n];
  }

  ghost function Consistent(meta: Meta, d: string): set<string>
    requires d in meta
  {
    set n | n in meta && MemberOk(meta[n], d, meta[d].projection.active)
  }

  method CheckMembers(meta: Meta, group: string, members: seq<string>, d: string) returns (valid: bool)
    requires Lists(members, Members(meta, group)) && d in meta
    ensures AllIn(members, Consistent(meta, d), valid)
  {
    valid := true;
    ghost var good := Consistent(meta, d);
    for i := 0 to |members|
      invariant AllIn(members[..i], good, valid)
    {
      assert members[..i + 1] == members[..i] + [members[i]];
      assert members[i] in members;
      AllInMore(members[..i], members[i], good, valid);
      if !MemberOk(meta[members[i]], d, meta[d].projection.active) {
        valid := false;
      }
    }
    assert members[..|members|] == members;
  }

  /** What one pass over the members of a group leaves behind, given the members that are switched off and those present. */
  ghost predicate Marked(off: set<string>, present: set<string>, done: seq<string>, activity: map<string, bool>, clean: bool) {
    && (forall n :: n in activity <==> n in done)
    && (forall n :: n in activity ==> activity[n] == (n !in off))
    && (clean <==> forall n :: n in done ==> !(n in off && n in present))
  }

  lemma MarkOne(off: set<string>, present: set<string>, done: seq<string>, n: string, activity: map<string, bool>, clean: bool)
    requires Marked(off, present, done, activity, clean)
    ensures Marked(off, present, done + [n], activity[n := n !in off], clean && !(n in off && n in present))
  {
  }

  lemma MarkNext(off: set<string>, present: set<string>, members: seq<string>, i: nat, activity: map<string, bool>,
                 violations: seq<Reason>, isActive: bool, intrudes: bool)
    requires i < |members| && Marked(off, present, members[..i], activity, violations == [])
    requires isActive <==> members[i] !in off
    requires intrudes <==> members[i] in off && members[i] in present
    ensures Marked(off, present, members[..i + 1], activity[members[i] := isActive],
                   (if intrudes then violations + [InactivePresent] else violations) == [])
  {
    MarkOne(off, present, members[..i], members[i], activity, violations == []);
    assert members[..i + 1] == members[..i] + [members[i]];
  }

  ghost function OffUnder(meta: Meta, d: string, document: Value): set<string>
    requires d in meta
  {
    set n | n in meta && SwitchedOff(meta, d, n, document)
  }

  ghost function PresentIn(meta: Meta, document: Value): set<string> {
    set n | n in meta && Present(meta[n], document)
  }

  method MarkMember(meta: Meta, d: string, variant: string, document: Value, n: string)
    returns (isActive: bool, intrudes: bool)
    requires d in meta && n in meta && Selected(meta, d, document) == Some(variant)
    ensures isActive <==> n !in OffUnder(meta, d, document)
    ensures intrudes <==> n in OffUnder(meta, d, document) && n in PresentIn(meta, document)
  {
    var f := meta[n];
    isActive := f.projection.role != Variant || variant in f.projection.active;
    intrudes := false;
    if !isActive && PointerShape(f.plain.pointer) {
      var found, value := ResolveJsonPointer(document, f.plain.pointer);
      intrudes := found;
    }
  }

  method MarkActivity(meta: Meta, group: string, members: seq<string>, d: string, variant: string, document: Value)
    returns (activity: map<string, bool>, violations: seq<Reason>)
    requires Lists(members, Members(meta, group))
    requires d in meta && Selected(meta, d, document) == Some(variant)
    ensures Marked(OffUnder(meta, d, document), PresentIn(meta, document), members, activity, violations == [])
  {
    activity, violations := map[], [];
    ghost var off, present := OffUnder(meta, d, document), PresentIn(meta, document);
    for i := 0 to |members|
      invariant Marked(off, present, members[..i], activity, violations == [])
    {
      assert members[i] in members;
      var isActive, intrudes := MarkMember(meta, d, variant, document, members[i]);
      MarkNext(off, present, members, i, activity, violations, isActive, intrudes);
      activity := activity[members[i] := isActive];
      if intrudes {
        violations := violations + [InactivePresent];
      }
    }
    assert members[..|members|] == members;
  }

  /** What the resolver reports on one group. */
  ghost predicate Reported(meta: Meta, group: string, document: Value, activity: map<string, bool>, violations: seq<Reason>) {
    && (violations == [] <==> GroupClean(meta, group, document))
    && (forall n :: n in activity ==> n in Members(meta, group))
    && (forall n :: n in Members(meta, group) ==>
          (n in activity && !activity[n] <==> Inactive(meta, n, document)))
  }

  method CheckGroup(meta: Meta, group: string, members: seq<string>, document: Value)
    returns (activity: map<string, bool>, violations: seq<Reason>)
    requires members != [] && Lists(members, Members(meta, group))
    ensures Reported(meta, group, document, activity, violations)
  {
    activity, violations := map[], [];
    var discriminants := FindDiscriminants(meta, group, members);
    forall d | GroupOk(meta, group, d)
      ensures discriminants == [d]
    {
      GroupOkNames(meta, group, d, discriminants);
    }
    if |discriminants| != 1 {
      GroupUnsettled(meta, group, document);
      return map[], seq(|members|, _ => DiscriminantCount);
    }
    var d := discriminants[0];
    assert d in discriminants;
    if !SchemaOk(meta[d]) {
      GroupUnsettled(meta, group, document);
      return map[], [SchemaMismatch];
    }
    var valid := CheckMembers(meta, group, members, d);
    if !valid {
      GroupUnsettled(meta, group, document);
      return map[], [MembershipInvalid];
    }
    OneDiscriminant(meta, group, d, discriminants);
    GroupSettled(meta, group, d, document);
    var selected := Selected(meta, d, document);
    if selected.Some? {
      activity, violations := MarkActivity(meta, group, members, d, selected.value, document);
    }
  }

  lemma OneDiscriminant(meta: Meta, group: string, d: string, discriminants: seq<string>)
    requires discriminants == [d] && Lists(discriminants, Discriminants(meta, group))
    ensures Discriminants(meta, group) == {d}
  {
    assert forall n :: n in [d] <==> n == d;
  }

  /** What has been collected from these fields: the metadata, and its names in order of first appearance. */
  ghost predicate Collected(fields: seq<Field>, meta: Meta, names: seq<string>) {
    meta == Collect(fields) && Lists(names, meta.Keys)
  }

  lemma CollectOne(fields: seq<Field>, f: Field, meta: Meta, names: seq<string>)
    requires Collected(fields, meta, names)
    ensures !InUnion(f) ==> Collected(fields + [f], meta, names)
    ensures InUnion(f) ==>
              Collected(fields + [f], meta[FieldName(f) := f], if FieldName(f) in meta then names else names + [FieldName(f)])
  {
    assert (fields + [f])[..|fields|] == fields && (fields + [f])[|fields|] == f;
    if FieldName(f) !in meta {
      ListsMore(names, FieldName(f), meta.Keys);
    }
  }

  predicate AllMetadataOk(fields: seq<Field>) {
    forall i :: 0 <= i < |fields| ==> MetadataOk(fields[i])
  }

  lemma MetadataOne(fields: seq<Field>, f: Field)
    ensures AllMetadataOk(fields + [f]) <==> AllMetadataOk(fields) && MetadataOk(f)
  {
    var all := fields + [f];
    assert all[|fields|] == f && forall i :: 0 <= i < |fields| ==> all[i] == fields[i];
  }

  method CollectMetadata(fields: seq<Field>) returns (meta: Meta, names: seq<string>, violations: seq<Reason>)
    ensures Collected(fields, meta, names)
    ensures violations == [] <==> AllMetadataOk(fields)
  {
    meta, names, violations := map[], [], [];
    for i := 0 to |fields|
      invariant Collected(fields[..i], meta, names)
      invariant violations == [] <==> AllMetadataOk(fields[..i])
    {
      CollectOne(fields[..i], fields[i], meta, names);
      MetadataOne(fields[..i], fields[i]);
      assert fields[..i + 1] == fields[..i] + [fields[i]];
      if !MetadataOk(fields[i]) {
        violations := violations + [BadMetadata];
      } else if fields[i].projection.UnionProjection? {
        var name := FieldName(fields[i]);
        names := if name in meta then names else names + [name];
        meta := meta[name := fields[i]];
      }
    }
    assert fields[..|fields|] == fields;
  }

  ghost function MembersAmong(meta: Meta, group: string, done: seq<string>): set<string> {
    set n | n in done && n in meta && meta[n].projection.group == group
  }

  /** The groups found among the names read so far, in order of first appearance, with their members. */
  ghost predicate Grouped(meta: Meta, done: seq<string>, order: seq<string>, groups: map<string, seq<string>>) {
    && (forall g :: g in order <==> g in groups)
    && (forall g :: g in groups ==> groups[g] != [] && Lists(groups[g], MembersAmong(meta, g, done)))
    && (forall n :: n in done && n in meta ==> meta[n].projection.group in groups)
  }

  /** Adding a member puts it into its own group and leaves the others alone. */
  lemma GroupOne(meta: Meta, done: seq<string>, n: string, order: seq<string>, groups: map<string, seq<string>>,
                 newOrder: seq<string>, newGroups: map<string, seq<string>>)
    requires Grouped(meta, done, order, groups) && n !in done && n in meta
    requires var g := meta[n].projection.group;
             && newGroups == groups[g := (if g in groups then groups[g] else []) + [n]]
             && newOrder == if g in groups then order else order + [g]
    ensures Grouped(meta, done + [n], newOrder, newGroups)
  {
    forall h | h in newGroups
      ensures newGroups[h] != [] && Lists(newGroups[h], MembersAmong(meta, h, done + [n]))
    {
      GroupMembers(meta, done, n, groups, h);
    }
  }

  lemma GroupMembers(meta: Meta, done: seq<string>, n: string, groups: map<string, seq<string>>, h: string)
    requires n !in done && n in meta && (h == meta[n].projection.group || h in groups)
    requires h in groups ==> Lists(groups[h], MembersAmong(meta, h, done))
    requires h !in groups ==> MembersAmong(meta, h, done) == {}
    ensures var before := if h in groups then groups[h] else [];
            Lists(if h == meta[n].projection.group then before + [n] else before, MembersAmong(meta, h, done + [n]))
  {
    MembersMore(meta, h, done, n);
    if h == meta[n].projection.group {
      ListsMore(if h in groups then groups[h] else [], n, MembersAmong(meta, h, done));
    }
  }

  lemma MembersMore(meta: Meta, group: string, done: seq<string>, n: string)
    requires n in meta
    ensures MembersAmong(meta, group, done + [n]) ==
            if meta[n].projection.group == group then MembersAmong(meta, group, done) + {n} else MembersAmong(meta, group, done)
  {
  }

  lemma GroupNext(meta: Meta, names: seq<string>, i: nat, order: seq<string>, groups: map<string, seq<string>>)
    requires Distinct(names) && i < |names| && names[i] in meta && Grouped(meta, names[..i], order, groups)
    ensures var g := meta[names[i]].projection.group;
            if g in groups then Grouped(meta, names[..i + 1], order, groups[g := groups[g] + [names[i]]])
            else Grouped(meta, names[..i + 1], order + [g], groups[g := [names[i]]])
  {
    assert names[..i + 1] == names[..i] + [names[i]];
    assert names[i] !in names[..i];
    var g := meta[names[i]].projection.group;
    assert [] + [names[i]] == [names[i]];
    GroupOne(meta, names[..i], names[i], order, groups, if g in groups then order else order + [g],
             groups[g := (if g in groups then groups[g] else []) + [names[i]]]);
  }

  method GroupByUnion(meta: Meta, names: seq<string>) returns (order: seq<string>, groups: map<string, seq<string>>)
    requires Lists(names, meta.Keys)
    ensures forall g :: g in order <==> exists n :: n in meta && meta[n].projection.group == g
    ensures forall g :: g in order ==> g in groups && groups[g] != [] && Lists(groups[g], Members(meta, g))
  {
    order, groups := [], map[];
    for i := 0 to |names|
      invariant Grouped(meta, names[..i], order, groups)
    {
      assert names[i] in names;
      GroupNext(meta, names, i, order, groups);
      var g := meta[names[i]].projection.group;
      if g !in groups {
        order := order + [g];
        groups := groups[g := [names[i]]];
      } else {
        groups := groups[g := groups[g] + [names[i]]];
      }
    }
    assert names[..|names|] == names;
    GroupedAll(meta, names, order, groups);
  }

  lemma GroupedAll(meta: Meta, names: seq<string>, order: seq<string>, groups: map<string, seq<string>>)
    requires Lists(names, meta.Keys) && Grouped(meta, names, order, groups)
    ensures forall g :: g in order <==> exists n :: n in meta && meta[n].projection.group == g
    ensures forall g :: g in order ==> g in groups && groups[g] != [] && Lists(groups[g], Members(meta, g))
  {
    assert forall g :: MembersAmong(meta, g, names) == Members(meta, g);
    forall g | g in order
      ensures exists n :: n in meta && meta[n].projection.group == g
    {
      assert groups[g][0] in groups[g];
      assert groups[g][0] in MembersAmong(meta, g, names);
    }
  }

  /** What the resolver has established for the groups in `done`. */
  ghost predicate Settled(meta: Meta, document: Value, done: seq<string>, activity: map<string, bool>, violations: seq<Reason>) {
    && (violations == [] <==> forall g :: g in done ==> GroupClean(meta, g, document))
    && (forall n :: n in activity ==> n in meta && meta[n].projection.group in done)
    && (forall n :: n in meta && meta[n].projection.group in done ==>
          (n in activity && !activity[n] <==> Inactive(meta, n, document)))
  }

  lemma SettleOne(meta: Meta, document: Value, done: seq<string>, g: string,
                  activity: map<string, bool>, violations: seq<Reason>, more: map<string, bool>, found: seq<Reason>)
    requires Settled(meta, document, done, activity, violations) && Reported(meta, g, document, more, found)
    ensures Settled(meta, document, done + [g], activity + more, violations + found)
  {
    assert violations + found == [] <==> violations == [] && found == [];
    assert forall h :: h in done + [g] <==> h in done || h == g;
    forall n | n in meta && meta[n].projection.group in done + [g]
      ensures n in activity + more && !(activity + more)[n] <==> Inactive(meta, n, document)
    {
      assert n in Members(meta, g) <==> meta[n].projection.group == g;
    }
  }

  /** `_resolve_union_output_projection_activity`: exactly the clean bundles pass, and exactly the
      members outside the selected variant are marked inactive. */
  method ResolveProjectionActivity(fields: seq<Field>, document: Value)
    returns (activity: map<string, bool>, violations: seq<Reason>)
    ensures violations == [] <==> ProjectionClean(fields, document)
    ensures forall n :: n in activity && !activity[n] <==> Inactive(Collect(fields), n, document)
  {
    var meta, names, metadata := CollectMetadata(fields);
    var order, groups := GroupByUnion(meta, names);
    activity, violations := map[], [];
    for i := 0 to |order|
      invariant Settled(meta, document, order[..i], activity, violations)
    {
      assert order[..i + 1] == order[..i] + [order[i]];
      assert order[i] in order;
      var more, found := CheckGroup(meta, order[i], groups[order[i]], document);
      SettleOne(meta, document, order[..i], order[i], activity, violations, more, found);
      activity, violations := activity + more, violations + found;
    }
    assert order[..|order|] == order;
    violations := metadata + violations;
  }

  // ---- The flat bundle

  /** Resolve the field's pointer and parse what it finds. */
  method ReadField(env: Env, document: Value, p: Plain, required: bool) returns (c: Contribution)
    ensures c == Contributes(env, document, p, required)
  {
    var found, raw := ResolveJsonPointer(document, p.pointer);
    if !found {
      return if p.spec.OptionalType? then Gives(Null) else if !required then Nothing else Bad;
    }
    var parsed := ParseOutputBundleValue(env, p.spec, raw, "");
    match parsed
    case Parsed(v) => c := Gives(v);
    case Violation(_, _) => c := Bad;
    case Raises => c := Throws;
  }

  ghost function NamesBefore(fields: seq<Field>, i: nat): set<string>
    requires i <= |fields|
  {
    set j | 0 <= j < i && FieldName(fields[j]) != "" :: FieldName(fields[j])
  }

  /** What the loop of the flat-bundle validator knows after `i` fields. */
  ghost predicate BundleSoFar(env: Env, document: Value, off: set<string>, fields: seq<Field>, i: nat,
                              seen: set<string>, artifacts: map<string, Value>, clean: bool)
    requires i <= |fields|
  {
    && seen == NamesBefore(fields, i)
    && (clean <==> forall j :: 0 <= j < i ==> FieldFine(env, document, off, fields, j))
    && (clean ==> artifacts == BundleGather(env, document, off, fields[..i]))
  }

  function AddTo(artifacts: map<string, Value>, env: Env, document: Value, off: set<string>, f: Field): map<string, Value> {
    if FieldName(f) in off then artifacts
    else
      match Contributes(env, document, f.plain, f.required)
      case Gives(v) => artifacts[FieldName(f) := v]
      case _ => artifacts
  }

  /** The outcome of checking one field: whether it is fine, the names seen and the artifacts after it. */
  ghost predicate Checked(env: Env, document: Value, off: set<string>, f: Field, seen: set<string>, artifacts: map<string, Value>,
                          fine: bool, names: set<string>, values: map<string, Value>) {
    && (fine <==> FieldName(f) != "" && FieldName(f) !in seen && PointerShape(f.plain.pointer)
                  && (FieldName(f) in off || Harmless(Contributes(env, document, f.plain, f.required))))
    && names == (if FieldName(f) == "" then seen else seen + {FieldName(f)})
    && (fine ==> values == AddTo(artifacts, env, document, off, f))
  }

  lemma SeenMore(fields: seq<Field>, i: nat, seen: set<string>)
    requires i < |fields| && seen == NamesBefore(fields, i)
    ensures NamesBefore(fields, i + 1) == if FieldName(fields[i]) == "" then seen else seen + {FieldName(fields[i])}
    ensures FieldName(fields[i]) != "" ==>
              (FieldName(fields[i]) in seen <==> exists j :: 0 <= j < i && FieldName(fields[j]) == FieldName(fields[i]))
  {
  }

  lemma BundleStep(env: Env, document: Value, off: set<string>, fields: seq<Field>, i: nat,
                   seen: set<string>, artifacts: map<string, Value>, clean: bool,
                   fine: bool, names: set<string>, values: map<string, Value>)
    requires i < |fields| && BundleSoFar(env, document, off, fields, i, seen, artifacts, clean)
    requires Checked(env, document, off, fields[i], seen, artifacts, fine, names, values)
    ensures BundleSoFar(env, document, off, fields, i + 1, names, values, clean && fine)
  {
    SeenMore(fields, i, seen);
    assert fine <==> FieldFine(env, document, off, fields, i);
    assert fields[..i + 1][..i] == fields[..i] && fields[..i + 1][i] == fields[i];
  }

  /** One field of the flat bundle; a field whose parse raises stops the validator. */
  method CheckField(env: Env, document: Value, activity: map<string, bool>, f: Field, seen: set<string>, artifacts: map<string, Value>,
                    ghost off: set<string>)
    returns (raised: bool, fine: bool, names: set<string>, values: map<string, Value>)
    requires forall n :: n in off <==> n in activity && !activity[n]
    ensures raised ==> FieldName(f) !in off && Contributes(env, document, f.plain, f.required).Throws?
    ensures !raised ==> Checked(env, document, off, f, seen, artifacts, fine, names, values)
  {
    raised, fine, names, values := false, false, seen, artifacts;
    var name := FieldName(f);
    if name == "" || name in seen {
      return;
    }
    names := seen + {name};
    if !PointerShape(f.plain.pointer) {
      return;
    }
    if name in activity && !activity[name] {
      fine := true;
      return;
    }
    var c := ReadField(env, document, f.plain, f.required);
    match c
    case Gives(v) => fine, values := true, artifacts[name := v];
    case Nothing => fine := true;
    case Bad => fine := false;
    case Throws => raised := true;
  }

  /** The loop over the fields of a flat bundle. */
  method CheckFields(env: Env, fields: seq<Field>, document: Value, activity: map<string, bool>, ghost off: set<string>)
    returns (raised: bool, clean: bool, artifacts: map<string, Value>)
    requires forall n :: n in off <==> n in activity && !activity[n]
    ensures raised ==> exists i :: 0 <= i < |fields| && !FieldFine(env, document, off, fields, i)
    ensures !raised ==> (clean <==> forall i :: 0 <= i < |fields| ==> FieldFine(env, document, off, fields, i))
    ensures !raised && clean ==> artifacts == BundleGather(env, document, off, fields)
  {
    raised, clean, artifacts := false, true, map[];
    var seen := {};
    for i := 0 to |fields|
      invariant !raised && BundleSoFar(env, document, off, fields, i, seen, artifacts, clean)
    {
      var stop, fine, names, values := CheckField(env, document, activity, fields[i], seen, artifacts, off);
      if stop {
        raised := true;
        assert !FieldFine(env, document, off, fields, i);
        return;
      }
      BundleStep(env, document, off, fields, i, seen, artifacts, clean, fine, names, values);
      seen, artifacts, clean := names, values, clean && fine;
    }
    assert fields[..|fields|] == fields;
  }

  /** `validate_output_bundle` on a decoded document. */
  method ValidateOutputBundle(env: Env, fields: seq<Field>, document: Value) returns (verdict: Verdict)
    ensures verdict.Accepted? <==> BundleAccepts(env, fields, document)
    ensures verdict.Accepted? ==>
              verdict.artifacts == BundleGather(env, document, Off(Collect(fields), document), fields)
  {
    var activity, violations := ResolveProjectionActivity(fields, document);
    var raised, clean, artifacts := CheckFields(env, fields, document, activity, Off(Collect(fields), document));
    verdict := if raised then Crashed else if violations == [] && clean then Accepted(artifacts) else Refused;
  }

  // ---- variant_output

  /** What a loop over required fields knows after reading `done`, given that the fields `before` it were read
      without a violation if `ok`. */
  ghost predicate FieldsSoFar(env: Env, document: Value, ok: bool, before: seq<Plain>, done: seq<Plain>,
                              artifacts: map<string, Value>, clean: bool) {
    && (clean <==> ok && forall p :: p in done ==> FieldAccepted(env, document, p))
    && (clean ==> artifacts == Gather(env, document, before + done))
  }

  lemma FieldsStep(env: Env, document: Value, ok: bool, before: seq<Plain>, done: seq<Plain>, p: Plain,
                   artifacts: map<string, Value>, clean: bool)
    requires FieldsSoFar(env, document, ok, before, done, artifacts, clean)
    ensures !FieldAccepted(env, document, p) ==> FieldsSoFar(env, document, ok, before, done + [p], artifacts, false)
    ensures FieldAccepted(env, document, p) ==>
              FieldsSoFar(env, document, ok, before, done + [p],
                          artifacts[p.name := Contributes(env, document, p, true).value], clean)
  {
    var all := before + (done + [p]);
    assert all[..|all| - 1] == before + done && all[|all| - 1] == p;
    assert forall q :: q in done + [p] <==> q in done || q == p;
  }

  /** The loop over shared fields, and the same loop over the fields of the selected variant. */
  method ReadRequiredFields(env: Env, document: Value, fields: seq<Plain>, ok: bool, start: map<string, Value>,
                            ghost before: seq<Plain>)
    returns (raised: bool, clean: bool, artifacts: map<string, Value>)
    requires ok ==> start == Gather(env, document, before)
    ensures raised ==> exists p :: p in fields && !FieldAccepted(env, document, p)
    ensures !raised ==> FieldsSoFar(env, document, ok, before, fields, artifacts, clean)
  {
    raised, clean, artifacts := false, ok, start;
    assert before + [] == before;
    for i := 0 to |fields|
      invariant !raised && FieldsSoFar(env, document, ok, before, fields[..i], artifacts, clean)
    {
      assert fields[..i + 1] == fields[..i] + [fields[i]];
      FieldsStep(env, document, ok, before, fields[..i], fields[i], artifacts, clean);
      if fields[i].name == "" {
        clean := false;
      } else {
        var c := ReadField(env, document, fields[i], true);
        if c.Throws? {
          raised := true;
          return;
        }
        if c.Gives? {
          artifacts := artifacts[fields[i].name := c.value];
        } else {
          clean := false;
        }
      }
    }
    assert fields[..|fields|] == fields;
  }

  method FindForbidden(document: Value, variants: seq<(string, seq<Plain>)>, chosen: string) returns (clean: bool)
    ensures clean <==> NoneForbidden(document, variants, chosen)
  {
    clean := true;
    for i := 0 to |variants|
      invariant clean <==> NoneForbidden(document, variants[..i], chosen)
    {
      ForbiddenNext(document, variants, chosen, i);
      if variants[i].0 != chosen {
        var absent := AllAbsent(document, variants[i].1);
        clean := clean && absent;
      }
    }
    assert variants[..|variants|] == variants;
  }

  lemma ForbiddenNext(document: Value, variants: seq<(string, seq<Plain>)>, chosen: string, i: nat)
    requires i < |variants|
    ensures NoneForbidden(document, variants[..i + 1], chosen) <==>
              && NoneForbidden(document, variants[..i], chosen)
              && (variants[i].0 == chosen || forall p :: p in variants[i].1 ==> Resolve(document, p.pointer).None?)
  {
    var more, less := variants[..i + 1], variants[..i];
    assert more[i] == variants[i] && forall j :: 0 <= j < i ==> more[j] == less[j];
    if NoneForbidden(document, more, chosen) {
      forall j, p | 0 <= j < |less| && less[j].0 != chosen && p in less[j].1
        ensures Resolve(document, p.pointer).None?
      {
        assert p in more[j].1;
      }
    }
  }

  method AllAbsent(document: Value, fields: seq<Plain>) returns (absent: bool)
    ensures absent <==> forall p :: p in fields ==> Resolve(document, p.pointer).None?
  {
    absent := true;
    for i := 0 to |fields|
      invariant absent <==> forall j :: 0 <= j < i ==> Resolve(document, fields[j].pointer).None?
    {
      var found, value := ResolveJsonPointer(document, fields[i].pointer);
      absent := absent && !found;
    }
  }

  /** Read the discriminant and select a variant, or say how the validator stops. */
  method ReadDiscriminant(env: Env, contract: VariantContract, document: Value) returns (stop: Verdict, selected: Option<string>)
    ensures !stop.Accepted?
    ensures selected == if Resolve(document, contract.discriminant.pointer).None? then None else Chosen(env, contract, document)
    ensures selected.Some? ==> Contributes(env, document, contract.discriminant, true) == Gives(Str(selected.value))
  {
    var found, raw := ResolveJsonPointer(document, contract.discriminant.pointer);
    if !found {
      return Refused, None;
    }
    var parsed := ParseOutputBundleValue(env, contract.discriminant.spec, raw, "");
    if !parsed.Parsed? {
      return if parsed.Raises? then Crashed else Refused, None;
    }
    if !parsed.value.Str? {
      return if contract.variants != [] && (parsed.value.List? || parsed.value.Dict?) then Crashed else Refused, None;
    }
    if FieldsOf(contract.variants, parsed.value.text).None? {
      return Refused, None;
    }
    return Refused, Some(parsed.value.text);
  }

  /** `validate_variant_output_bundle` on a decoded document. */
  method ValidateVariantOutput(env: Env, contract: VariantContract, document: Value) returns (verdict: Verdict)
    ensures verdict.Accepted? <==> VariantAccepts(env, contract, document)
    ensures verdict.Accepted? ==>
              verdict.artifacts == Gather(env, document, InEffect(contract, Chosen(env, contract, document).value))
  {
    var d := contract.discriminant;
    if d.name == "" {
      return Refused;
    }
    var stop, selected := ReadDiscriminant(env, contract, document);
    if selected.None? {
      return stop;
    }
    var chosen := selected.value;
    assert Gather(env, document, [d]) == map[d.name := Str(chosen)];
    var artifacts := map[d.name := Str(chosen)];
    var raised, clean;
    raised, clean, artifacts := ReadRequiredFields(env, document, contract.shared, true, artifacts, [d]);
    if raised {
      return Crashed;
    }
    raised, clean, artifacts := ReadRequiredFields(env, document, FieldsOf(contract.variants, chosen).value, clean, artifacts, [d] + contract.shared);
    if raised {
      return Crashed;
    }
    var noneForbidden := FindForbidden(document, contract.variants, chosen);
    verdict := if clean && noneForbidden then Accepted(artifacts) else Refused;
  }
}
