/** The two tagged-union validators accept the same documents with the same artifacts
    (orchestrator/contracts/output_contract.py). */
module UnionAgreement {
  import opened Text
  import opened JsonPointer
  import opened ContractParse
  import opened UnionContracts

  /** A tagged union as its author thinks of it. */
  datatype TaggedUnion = TaggedUnion(
    group: string,
    tagName: string,
    tagPointer: string,
    shared: seq<Plain>,
    variants: seq<(string, seq<Plain>)>)

  function VariantNames(variants: seq<(string, seq<Plain>)>): (names: seq<string>)
    ensures |names| == |variants|
    ensures forall i :: 0 <= i < |names| ==> names[i] == variants[i].0
  {
    if variants == [] then [] else [variants[0].0] + VariantNames(variants[1..])
  }

  function Tag(u: TaggedUnion): Plain {
    Plain(u.tagName, u.tagPointer, EnumType(VariantNames(u.variants)))
  }

  function Projected(u: TaggedUnion, p: Plain, role: Role, active: seq<string>): Field {
    Field(p, true, UnionProjection(true, true, u.group, u.tagName, role, active))
  }

  function SharedFields(u: TaggedUnion, shared: seq<Plain>): seq<Field> {
    if shared == [] then []
    else [Projected(u, shared[0], Shared, VariantNames(u.variants))] + SharedFields(u, shared[1..])
  }

  function FieldsOfVariant(u: TaggedUnion, variant: string, fields: seq<Plain>): seq<Field> {
    if fields == [] then []
    else [Projected(u, fields[0], Variant, [variant])] + FieldsOfVariant(u, variant, fields[1..])
  }

  function VariantFields(u: TaggedUnion, variants: seq<(string, seq<Plain>)>): seq<Field> {
    if variants == [] then []
    else FieldsOfVariant(u, variants[0].0, variants[0].1) + VariantFields(u, variants[1..])
  }

  /** The union as the fields of a flat bundle. */
  function AsBundle(u: TaggedUnion): seq<Field> {
    [Projected(u, Tag(u), Discriminant, VariantNames(u.variants))] + SharedFields(u, u.shared) + VariantFields(u, u.variants)
  }

  /** The union as a `variant_output` contract. */
  function AsVariantOutput(u: TaggedUnion): VariantContract {
    VariantContract(Tag(u), u.shared, u.variants)
  }

  predicate GoodPlain(p: Plain) {
    p.name != "" && Strip(p.name) == p.name && PointerShape(p.pointer)
  }

  /** Variants with distinct names; fields with distinct stripped names and well-formed pointers. */
  ghost predicate Sane(u: TaggedUnion) {
    && u.group != ""
    && GoodNames(VariantNames(u.variants))
    && (forall f :: f in AsBundle(u) ==> GoodPlain(f.plain))
    && (forall i, j :: 0 <= i < j < |AsBundle(u)| ==> AsBundle(u)[i].plain.name != AsBundle(u)[j].plain.name)
  }

  /** A projected field must be missing from some variant, so a lone variant must not have fields of its own. */
  predicate TellsApart(u: TaggedUnion) {
    |u.variants| >= 2 || (|u.variants| == 1 && u.variants[0].1 == [])
  }

  ghost predicate WellFormed(u: TaggedUnion) {
    Sane(u) && TellsApart(u)
  }

  // ---- Where a projected field comes from

  lemma {:induction false} SharedFieldsAre(u: TaggedUnion, shared: seq<Plain>, f: Field)
    ensures f in SharedFields(u, shared) <==>
              f.plain in shared && f == Projected(u, f.plain, Shared, VariantNames(u.variants))
  {
    if shared != [] {
      SharedFieldsAre(u, shared[1..], f);
    }
  }

  lemma {:induction false} FieldsOfVariantAre(u: TaggedUnion, variant: string, fields: seq<Plain>, f: Field)
    ensures f in FieldsOfVariant(u, variant, fields) <==>
              f.plain in fields && f == Projected(u, f.plain, Variant, [variant])
  {
    if fields != [] {
      FieldsOfVariantAre(u, variant, fields[1..], f);
    }
  }

  ghost predicate FromVariant(u: TaggedUnion, variants: seq<(string, seq<Plain>)>, f: Field, k: int) {
    0 <= k < |variants| && f.plain in variants[k].1 && f == Projected(u, f.plain, Variant, [variants[k].0])
  }

  lemma {:induction false} VariantFieldsAre(u: TaggedUnion, variants: seq<(string, seq<Plain>)>, f: Field)
    ensures f in VariantFields(u, variants) <==> exists k :: FromVariant(u, variants, f, k)
  {
    if variants != [] {
      FieldsOfVariantAre(u, variants[0].0, variants[0].1, f);
      VariantFieldsAre(u, variants[1..], f);
      assert FromVariant(u, variants, f, 0) <==> f in FieldsOfVariant(u, variants[0].0, variants[0].1);
      if k :| FromVariant(u, variants[1..], f, k) {
        assert FromVariant(u, variants, f, k + 1);
      }
      if k :| FromVariant(u, variants, f, k) && k > 0 {
        assert FromVariant(u, variants[1..], f, k - 1);
      }
    }
  }

  /** Every projected field is the discriminant, a shared field, or a field of one variant. */
  lemma Origins(u: TaggedUnion, f: Field)
    ensures f in AsBundle(u) <==>
              || f == Projected(u, Tag(u), Discriminant, VariantNames(u.variants))
              || (f.plain in u.shared && f == Projected(u, f.plain, Shared, VariantNames(u.variants)))
              || (exists k :: FromVariant(u, u.variants, f, k))
  {
    SharedFieldsAre(u, u.shared, f);
    VariantFieldsAre(u, u.variants, f);
  }

  // ---- The projected metadata is consistent

  /** The collected metadata names exactly these fields. */
  ghost predicate Holds(meta: Meta, fields: seq<Field>) {
    && (forall f :: f in fields ==> FieldName(f) in meta && meta[FieldName(f)] == f)
    && (forall n :: n in meta ==> meta[n] in fields && FieldName(meta[n]) == n)
  }

  lemma HoldsMore(meta: Meta, fields: seq<Field>, f: Field)
    requires Holds(meta, fields) && InUnion(f)
    requires forall g :: g in fields ==> FieldName(g) != FieldName(f)
    ensures Holds(meta[FieldName(f) := f], fields + [f])
  {
  }

  lemma {:induction false} CollectKeepsAll(fields: seq<Field>)
    requires forall f :: f in fields ==> InUnion(f)
    requires forall i, j :: 0 <= i < j < |fields| ==> FieldName(fields[i]) != FieldName(fields[j])
    ensures Holds(Collect(fields), fields)
  {
    if fields != [] {
      var before, last := fields[..|fields| - 1], fields[|fields| - 1];
      assert fields == before + [last];
      CollectKeepsAll(before);
      CollectLast(before, last);
      NamesApart(before, last);
      HoldsMore(Collect(before), before, last);
    }
  }

  lemma NamesApart(before: seq<Field>, last: Field)
    requires forall i, j :: 0 <= i < j < |before + [last]| ==> FieldName((before + [last])[i]) != FieldName((before + [last])[j])
    ensures forall g :: g in before ==> FieldName(g) != FieldName(last)
  {
    var all := before + [last];
    forall g | g in before
      ensures FieldName(g) != FieldName(last)
    {
      var i :| 0 <= i < |before| && before[i] == g;
      assert all[i] == g && all[|before|] == last;
    }
  }

  lemma CollectLast(before: seq<Field>, last: Field)
    requires InUnion(last)
    ensures Collect(before + [last]) == Collect(before)[FieldName(last) := last]
  {
    assert (before + [last])[..|before|] == before && (before + [last])[|before|] == last;
  }

  lemma {:induction false} KeepNothing(allowed: seq<string>, v: string)
    requires v !in allowed
    ensures Keep(allowed, [v]) == []
  {
    if allowed != [] {
      KeepNothing(allowed[1..], v);
      assert allowed[0] in allowed;
    }
  }

  lemma {:induction false} KeepOne(allowed: seq<string>, v: string)
    requires Distinct(allowed) && v in allowed
    ensures Keep(allowed, [v]) == [v]
  {
    if allowed[0] == v {
      assert v !in allowed[1..];
      KeepNothing(allowed[1..], v);
    } else {
      KeepOne(allowed[1..], v);
    }
  }

  lemma {:induction false} KeepAll(allowed: seq<string>, active: seq<string>)
    requires forall v :: v in allowed ==> v in active
    ensures Keep(allowed, active) == allowed
  {
    if allowed != [] {
      assert allowed[0] in allowed;
      KeepAll(allowed[1..], active);
    }
  }

  lemma WholeMember(names: seq<string>, f: Field, tag: string)
    requires InUnion(f) && f.projection.discriminantOutput == tag && f.projection.active == names
    requires f.projection.role != Variant
    ensures MemberOk(f, tag, names)
  {
    KeepAll(names, names);
  }

  lemma VariantMember(names: seq<string>, f: Field, tag: string, k: nat)
    requires InUnion(f) && f.projection.discriminantOutput == tag && Distinct(names)
    requires f.projection.role == Variant && k < |names| && |names| >= 2 && f.projection.active == [names[k]]
    ensures MemberOk(f, tag, names)
  {
    KeepOne(names, names[k]);
  }

  lemma VariantNameGood(u: TaggedUnion, k: nat)
    requires GoodNames(VariantNames(u.variants)) && k < |u.variants|
    ensures GoodNames([u.variants[k].0])
  {
    assert VariantNames(u.variants)[k] == u.variants[k].0;
  }

  lemma ProjectedIsMember(u: TaggedUnion, f: Field)
    requires WellFormed(u) && f in AsBundle(u)
    ensures InUnion(f) && FieldName(f) == f.plain.name
    ensures f.projection.group == u.group && f.required
    ensures MemberOk(f, u.tagName, VariantNames(u.variants))
  {
    Origins(u, f);
    var tag := Projected(u, Tag(u), Discriminant, VariantNames(u.variants));
    assert tag in AsBundle(u);
    if k :| FromVariant(u, u.variants, f, k) {
      VariantNameGood(u, k);
      VariantMember(VariantNames(u.variants), f, u.tagName, k);
    } else {
      WholeMember(VariantNames(u.variants), f, u.tagName);
    }
  }

  ghost function MetaOf(u: TaggedUnion): Meta {
    Collect(AsBundle(u))
  }

  lemma MetaIs(u: TaggedUnion)
    requires WellFormed(u)
    ensures forall f :: f in AsBundle(u) ==> f.plain.name in MetaOf(u) && MetaOf(u)[f.plain.name] == f
    ensures forall n :: n in MetaOf(u) ==> MetaOf(u)[n] in AsBundle(u) && MetaOf(u)[n].plain.name == n
  {
    forall f | f in AsBundle(u)
      ensures InUnion(f) && FieldName(f) == f.plain.name
    {
      ProjectedIsMember(u, f);
    }
    CollectKeepsAll(AsBundle(u));
  }

  lemma ProjectedDiscriminant(u: TaggedUnion, f: Field)
    requires f in AsBundle(u) && f.projection.UnionProjection? && f.projection.role == Discriminant
    ensures f == Projected(u, Tag(u), Discriminant, VariantNames(u.variants))
  {
    Origins(u, f);
  }

  /** The projected metadata forms one consistent group. */
  lemma ProjectedGroupOk(u: TaggedUnion)
    requires WellFormed(u)
    ensures GroupOk(MetaOf(u), u.group, u.tagName)
    ensures MetaOf(u)[u.tagName] == Projected(u, Tag(u), Discriminant, VariantNames(u.variants))
    ensures Members(MetaOf(u), u.group) == MetaOf(u).Keys
  {
    var meta := MetaOf(u);
    var tag := Projected(u, Tag(u), Discriminant, VariantNames(u.variants));
    assert AsBundle(u)[0] == tag;
    MetaIs(u);
    assert meta[u.tagName] == tag;
    forall n | n in meta
      ensures meta[n].projection.group == u.group
      ensures MemberOk(meta[n], u.tagName, VariantNames(u.variants))
      ensures meta[n].projection.role == Discriminant ==> n == u.tagName
    {
      ProjectedIsMember(u, meta[n]);
      if meta[n].projection.role == Discriminant {
        ProjectedDiscriminant(u, meta[n]);
      }
    }
    assert Discriminants(meta, u.group) == {u.tagName};
  }

  // ---- The selected variant

  lemma {:induction false} FieldsOfNames(variants: seq<(string, seq<Plain>)>, name: string)
    ensures FieldsOf(variants, name).Some? <==> name in VariantNames(variants)
  {
    if variants != [] {
      FieldsOfNames(variants[1..], name);
    }
  }

  lemma {:induction false} FieldsOfAt(variants: seq<(string, seq<Plain>)>, k: nat)
    requires k < |variants| && forall i, j :: 0 <= i < j < |variants| ==> variants[i].0 != variants[j].0
    ensures FieldsOf(variants, variants[k].0) == Some(variants[k].1)
  {
    if k > 0 {
      FieldsOfAt(variants[1..], k - 1);
    }
  }

  function TagRead(names: seq<string>, found: Option<Value>): Option<string> {
    match found
    case Some(Str(text)) => if text in names then Some(text) else None
    case _ => None
  }

  lemma ReadTag(env: Env, document: Value, p: Plain)
    requires p.spec.EnumType?
    ensures Contributes(env, document, p, true) ==
            match TagRead(p.spec.allowed, Resolve(document, p.pointer))
            case Some(text) => Gives(Str(text))
            case None => Bad
  {
  }

  /** Both validators select the same variant. */
  lemma SameSelection(env: Env, u: TaggedUnion, document: Value)
    requires WellFormed(u)
    ensures u.tagName in MetaOf(u)
    ensures Selected(MetaOf(u), u.tagName, document) == Chosen(env, AsVariantOutput(u), document)
    ensures Chosen(env, AsVariantOutput(u), document).Some? <==> Contributes(env, document, Tag(u), true).Gives?
    ensures Chosen(env, AsVariantOutput(u), document).Some? ==> Resolve(document, u.tagPointer).Some?
  {
    ProjectedGroupOk(u);
    assert AsBundle(u)[0].plain == Tag(u);
    ReadTag(env, document, Tag(u));
    var read := TagRead(VariantNames(u.variants), Resolve(document, u.tagPointer));
    assert Selected(MetaOf(u), u.tagName, document) == read;
    if read.Some? {
      FieldsOfNames(u.variants, read.value);
    }
  }

  predicate Active(f: Field, t: string) {
    f.projection.UnionProjection? && (f.projection.role != Variant || t in f.projection.active)
  }

  /** With variant `t` selected, exactly the fields of other variants are off. */
  lemma OffExactly(u: TaggedUnion, document: Value, t: string)
    requires WellFormed(u) && u.tagName in MetaOf(u)
    requires Selected(MetaOf(u), u.tagName, document) == Some(t)
    ensures forall f :: f in AsBundle(u) ==> (f.plain.name in Off(MetaOf(u), document) <==> !Active(f, t))
  {
    ProjectedGroupOk(u);
    MetaIs(u);
    OneGroup(MetaOf(u), u.group, u.tagName, document);
  }

  lemma OneGroup(meta: Meta, group: string, d: string, document: Value)
    requires GroupOk(meta, group, d) && Members(meta, group) == meta.Keys
    ensures forall n :: n in meta ==> (n in Off(meta, document) <==> SwitchedOff(meta, d, n, document))
    ensures GroupClean(meta, group, document) <==> NoIntruder(meta, group, d, document)
  {
    forall e | GroupOk(meta, group, e)
      ensures e == d
    {
      assert d in {e};
    }
    forall n | n in meta
      ensures meta[n].projection.group == group
    {
      assert n in Members(meta, group);
    }
  }

  // ---- Both validators ask the same of every field

  /** What either validator asks of a field once variant `t` is selected. */
  predicate AsAsked(env: Env, document: Value, f: Field, t: string) {
    if Active(f, t) then Contributes(env, document, f.plain, true).Gives? else Resolve(document, f.plain.pointer).None?
  }

  /** No field outside variant `t` is present. */
  ghost predicate OthersAbsent(fields: seq<Field>, document: Value, t: string) {
    forall f :: f in fields && !Active(f, t) ==> Resolve(document, f.plain.pointer).None?
  }

  ghost predicate AllAsAsked(env: Env, fields: seq<Field>, document: Value, t: string) {
    forall f :: f in fields ==> AsAsked(env, document, f, t)
  }

  lemma NoIntruderMeans(meta: Meta, fields: seq<Field>, group: string, d: string, document: Value, t: string)
    requires d in meta && Selected(meta, d, document) == Some(t) && Members(meta, group) == meta.Keys
    requires forall f :: f in fields ==> f.plain.name in meta && meta[f.plain.name] == f && PointerShape(f.plain.pointer)
    requires forall n :: n in meta ==> meta[n] in fields && meta[n].plain.name == n
    ensures NoIntruder(meta, group, d, document) <==> OthersAbsent(fields, document, t)
  {
    if NoIntruder(meta, group, d, document) {
      forall f | f in fields && !Active(f, t)
        ensures Resolve(document, f.plain.pointer).None?
      {
        assert f.plain.name in Members(meta, group) && SwitchedOff(meta, d, f.plain.name, document);
      }
    }
  }

  lemma OneGroupClean(meta: Meta, group: string, d: string, fields: seq<Field>, document: Value)
    requires meta == Collect(fields) && d in meta && Members(meta, group) == meta.Keys
    requires forall i :: 0 <= i < |fields| ==> MetadataOk(fields[i])
    ensures ProjectionClean(fields, document) <==> GroupClean(meta, group, document)
  {
    forall n | n in meta
      ensures meta[n].projection.group == group
    {
      assert n in Members(meta, group);
    }
  }

  lemma AllMetadataOk(u: TaggedUnion)
    requires WellFormed(u)
    ensures forall i :: 0 <= i < |AsBundle(u)| ==> MetadataOk(AsBundle(u)[i])
    ensures forall f :: f in AsBundle(u) ==> PointerShape(f.plain.pointer)
  {
    forall i | 0 <= i < |AsBundle(u)|
      ensures MetadataOk(AsBundle(u)[i])
    {
      ProjectedIsMember(u, AsBundle(u)[i]);
    }
  }

  lemma CleanWhen(meta: Meta, fields: seq<Field>, group: string, d: string, document: Value, t: string)
    requires meta == Collect(fields) && GroupOk(meta, group, d) && Members(meta, group) == meta.Keys
    requires Selected(meta, d, document) == Some(t)
    requires forall i :: 0 <= i < |fields| ==> MetadataOk(fields[i])
    requires forall f :: f in fields ==> f.plain.name in meta && meta[f.plain.name] == f && PointerShape(f.plain.pointer)
    requires forall n :: n in meta ==> meta[n] in fields && meta[n].plain.name == n
    ensures ProjectionClean(fields, document) <==> OthersAbsent(fields, document, t)
  {
    OneGroup(meta, group, d, document);
    OneGroupClean(meta, group, d, fields, document);
    NoIntruderMeans(meta, fields, group, d, document, t);
  }

  lemma CleanSide(u: TaggedUnion, document: Value, t: string)
    requires WellFormed(u) && u.tagName in MetaOf(u)
    requires Selected(MetaOf(u), u.tagName, document) == Some(t)
    ensures ProjectionClean(AsBundle(u), document) <==> OthersAbsent(AsBundle(u), document, t)
  {
    ProjectedGroupOk(u);
    MetaIs(u);
    AllMetadataOk(u);
    CleanWhen(MetaOf(u), AsBundle(u), u.group, u.tagName, document, t);
  }

  predicate Wanted(env: Env, document: Value, f: Field, t: string) {
    Active(f, t) ==> Contributes(env, document, f.plain, true).Gives?
  }

  lemma AskedSplits(env: Env, fields: seq<Field>, document: Value, t: string)
    ensures AllAsAsked(env, fields, document, t) <==>
              OthersAbsent(fields, document, t) && forall i :: 0 <= i < |fields| ==> Wanted(env, document, fields[i], t)
  {
    if AllAsAsked(env, fields, document, t) {
      forall f | f in fields && !Active(f, t)
        ensures Resolve(document, f.plain.pointer).None?
      {
        assert AsAsked(env, document, f, t);
      }
      forall i | 0 <= i < |fields|
        ensures Wanted(env, document, fields[i], t)
      {
        assert AsAsked(env, document, fields[i], t);
      }
    }
  }

  lemma BundleSide(env: Env, u: TaggedUnion, document: Value, t: string)
    requires WellFormed(u) && u.tagName in MetaOf(u)
    requires Selected(MetaOf(u), u.tagName, document) == Some(t)
    ensures BundleAccepts(env, AsBundle(u), document) <==> AllAsAsked(env, AsBundle(u), document, t)
  {
    CleanSide(u, document, t);
    OffExactly(u, document, t);
    AskedSplits(env, AsBundle(u), document, t);
    AllFine(env, u, document, t);
    AcceptsWhen(env, AsBundle(u), document, t);
  }

  lemma AllFine(env: Env, u: TaggedUnion, document: Value, t: string)
    requires WellFormed(u)
    requires forall f :: f in AsBundle(u) ==> (f.plain.name in Off(MetaOf(u), document) <==> !Active(f, t))
    ensures forall i :: 0 <= i < |AsBundle(u)| ==>
              (FieldFine(env, document, Off(MetaOf(u), document), AsBundle(u), i) <==> Wanted(env, document, AsBundle(u)[i], t))
  {
    forall i | 0 <= i < |AsBundle(u)|
      ensures FieldFine(env, document, Off(MetaOf(u), document), AsBundle(u), i) <==> Wanted(env, document, AsBundle(u)[i], t)
    {
      NamesDiffer(u, i);
      FineMeans(env, AsBundle(u), document, Off(MetaOf(u), document), t, i);
    }
  }

  lemma NamesDiffer(u: TaggedUnion, i: nat)
    requires WellFormed(u) && i < |AsBundle(u)|
    ensures AsBundle(u)[i].required
    ensures forall j :: 0 <= j < i ==> FieldName(AsBundle(u)[j]) != AsBundle(u)[i].plain.name
  {
    ProjectedIsMember(u, AsBundle(u)[i]);
    forall j | 0 <= j < i
      ensures FieldName(AsBundle(u)[j]) != AsBundle(u)[i].plain.name
    {
      ProjectedIsMember(u, AsBundle(u)[j]);
    }
  }

  lemma AcceptsWhen(env: Env, fields: seq<Field>, document: Value, t: string)
    requires forall i :: 0 <= i < |fields| ==>
               (FieldFine(env, document, Off(Collect(fields), document), fields, i) <==> Wanted(env, document, fields[i], t))
    ensures BundleAccepts(env, fields, document) <==>
              ProjectionClean(fields, document) && forall i :: 0 <= i < |fields| ==> Wanted(env, document, fields[i], t)
  {
  }

  lemma FineMeans(env: Env, fields: seq<Field>, document: Value, off: set<string>, t: string, i: nat)
    requires i < |fields| && fields[i].required && GoodPlain(fields[i].plain)
    requires forall j :: 0 <= j < i ==> FieldName(fields[j]) != fields[i].plain.name
    requires fields[i].plain.name in off <==> !Active(fields[i], t)
    ensures FieldFine(env, document, off, fields, i) <==> Wanted(env, document, fields[i], t)
  {
  }

  /** What `variant_output` asks of the fields of the variant at `k`. */
  ghost predicate VariantAsked(env: Env, document: Value, variants: seq<(string, seq<Plain>)>, k: int, t: string)
    requires 0 <= k < |variants|
  {
    if variants[k].0 == t then AllGiven(env, document, variants[k].1) else NonePresent(document, variants[k].1)
  }

  ghost predicate AllGiven(env: Env, document: Value, fields: seq<Plain>) {
    forall p :: p in fields ==> Contributes(env, document, p, true).Gives?
  }

  ghost predicate NonePresent(document: Value, fields: seq<Plain>) {
    forall p :: p in fields ==> Resolve(document, p.pointer).None?
  }

  lemma AskedOfShared(env: Env, u: TaggedUnion, document: Value, t: string)
    requires AllAsAsked(env, AsBundle(u), document, t)
    ensures AllGiven(env, document, u.shared)
  {
    forall p | p in u.shared
      ensures Contributes(env, document, p, true).Gives?
    {
      var f := Projected(u, p, Shared, VariantNames(u.variants));
      Origins(u, f);
      assert AsAsked(env, document, f, t);
    }
  }

  lemma AskedOfVariant(env: Env, u: TaggedUnion, document: Value, t: string, k: nat)
    requires AllAsAsked(env, AsBundle(u), document, t) && k < |u.variants|
    ensures VariantAsked(env, document, u.variants, k, t)
  {
    forall p | p in u.variants[k].1
      ensures AsAsked(env, document, Projected(u, p, Variant, [u.variants[k].0]), t)
    {
      var f := Projected(u, p, Variant, [u.variants[k].0]);
      assert FromVariant(u, u.variants, f, k);
      Origins(u, f);
    }
  }

  lemma OriginsAsked(env: Env, u: TaggedUnion, document: Value, t: string, f: Field)
    requires Contributes(env, document, Tag(u), true).Gives?
    requires AllGiven(env, document, u.shared)
    requires forall k :: 0 <= k < |u.variants| ==> VariantAsked(env, document, u.variants, k, t)
    requires f in AsBundle(u)
    ensures AsAsked(env, document, f, t)
  {
    Origins(u, f);
    if k :| FromVariant(u, u.variants, f, k) {
      assert VariantAsked(env, document, u.variants, k, t);
    }
  }

  lemma AskedByOrigin(env: Env, u: TaggedUnion, document: Value, t: string)
    requires Contributes(env, document, Tag(u), true).Gives?
    ensures AllAsAsked(env, AsBundle(u), document, t) <==>
              && AllGiven(env, document, u.shared)
              && (forall k :: 0 <= k < |u.variants| ==> VariantAsked(env, document, u.variants, k, t))
  {
    if AllAsAsked(env, AsBundle(u), document, t) {
      AskedOfShared(env, u, document, t);
      forall k | 0 <= k < |u.variants|
        ensures VariantAsked(env, document, u.variants, k, t)
      {
        AskedOfVariant(env, u, document, t, k);
      }
    } else if AllGiven(env, document, u.shared) && forall k :: 0 <= k < |u.variants| ==> VariantAsked(env, document, u.variants, k, t) {
      forall f | f in AsBundle(u)
        ensures AsAsked(env, document, f, t)
      {
        OriginsAsked(env, u, document, t, f);
      }
    }
  }

  lemma GoodOrigins(u: TaggedUnion)
    requires WellFormed(u)
    ensures u.tagName != ""
    ensures forall p :: p in u.shared ==> p.name != ""
    ensures forall k, p :: 0 <= k < |u.variants| && p in u.variants[k].1 ==> p.name != ""
  {
    assert AsBundle(u)[0] in AsBundle(u);
    forall p | p in u.shared
      ensures p.name != ""
    {
      Origins(u, Projected(u, p, Shared, VariantNames(u.variants)));
    }
    forall k, p | 0 <= k < |u.variants| && p in u.variants[k].1
      ensures p.name != ""
    {
      var f := Projected(u, p, Variant, [u.variants[k].0]);
      assert FromVariant(u, u.variants, f, k);
      Origins(u, f);
    }
  }

  lemma VariantPosition(u: TaggedUnion, t: string) returns (k: nat)
    requires WellFormed(u) && FieldsOf(u.variants, t).Some?
    ensures k < |u.variants| && u.variants[k].0 == t && FieldsOf(u.variants, t).value == u.variants[k].1
    ensures forall j :: 0 <= j < |u.variants| && u.variants[j].0 == t ==> j == k
  {
    FieldsOfNames(u.variants, t);
    var names := VariantNames(u.variants);
    k :| 0 <= k < |names| && names[k] == t;
    assert forall i :: 0 <= i < |names| ==> names[i] == u.variants[i].0;
    FieldsOfAt(u.variants, k);
  }

  lemma ForbiddenByVariant(env: Env, document: Value, variants: seq<(string, seq<Plain>)>, k: nat, t: string)
    requires k < |variants| && forall j :: 0 <= j < |variants| ==> (variants[j].0 == t <==> j == k)
    ensures (forall j :: 0 <= j < |variants| ==> VariantAsked(env, document, variants, j, t)) <==>
              AllGiven(env, document, variants[k].1) && NoneForbidden(document, variants, t)
  {
    assert VariantAsked(env, document, variants, k, t) <==> AllGiven(env, document, variants[k].1);
    if NoneForbidden(document, variants, t) {
      forall j | 0 <= j < |variants| && j != k
        ensures VariantAsked(env, document, variants, j, t)
      {
      }
    }
    if forall j :: 0 <= j < |variants| ==> VariantAsked(env, document, variants, j, t) {
      forall j, p | 0 <= j < |variants| && variants[j].0 != t && p in variants[j].1
        ensures Resolve(document, p.pointer).None?
      {
        assert VariantAsked(env, document, variants, j, t);
      }
    }
  }

  lemma AcceptedFields(env: Env, document: Value, fields: seq<Plain>)
    requires forall p :: p in fields ==> p.name != ""
    ensures AllGiven(env, document, fields) <==> forall p :: p in fields ==> FieldAccepted(env, document, p)
  {
  }

  lemma VariantSide(env: Env, u: TaggedUnion, document: Value, t: string)
    requires WellFormed(u) && Chosen(env, AsVariantOutput(u), document) == Some(t)
    requires Resolve(document, u.tagPointer).Some? && Contributes(env, document, Tag(u), true).Gives?
    ensures VariantAccepts(env, AsVariantOutput(u), document) <==> AllAsAsked(env, AsBundle(u), document, t)
  {
    GoodOrigins(u);
    AskedByOrigin(env, u, document, t);
    var k := VariantPosition(u, t);
    ForbiddenByVariant(env, document, u.variants, k, t);
    AcceptedFields(env, document, u.shared);
    AcceptedFields(env, document, u.variants[k].1);
  }

  /** The two encodings of a well-formed tagged union accept the same documents. */
  lemma SameDocuments(env: Env, u: TaggedUnion, document: Value)
    requires WellFormed(u)
    ensures BundleAccepts(env, AsBundle(u), document) <==> VariantAccepts(env, AsVariantOutput(u), document)
  {
    SameSelection(env, u, document);
    match Chosen(env, AsVariantOutput(u), document)
    case Some(t) =>
      BundleSide(env, u, document, t);
      VariantSide(env, u, document, t);
    case None =>
      NothingSelected(env, u, document);
  }

  /** A document whose discriminant selects nothing is refused by the flat bundle as well. */
  lemma NothingSelected(env: Env, u: TaggedUnion, document: Value)
    requires WellFormed(u) && u.tagName in MetaOf(u) && Selected(MetaOf(u), u.tagName, document).None?
    requires !Contributes(env, document, Tag(u), true).Gives?
    ensures !BundleAccepts(env, AsBundle(u), document)
  {
    ProjectedGroupOk(u);
    OneGroup(MetaOf(u), u.group, u.tagName, document);
    var off := Off(MetaOf(u), document);
    assert AsBundle(u)[0] == Projected(u, Tag(u), Discriminant, VariantNames(u.variants));
    ProjectedIsMember(u, AsBundle(u)[0]);
    ReadTag(env, document, Tag(u));
    assert !FieldFine(env, document, off, AsBundle(u), 0);
  }

  // ---- The artifacts

  /** The active fields, in order. */
  function ActiveFields(fields: seq<Field>, t: string): seq<Plain> {
    if fields == [] then []
    else (if Active(fields[0], t) then [fields[0].plain] else []) + ActiveFields(fields[1..], t)
  }

  lemma {:induction false} ActiveConcat(a: seq<Field>, b: seq<Field>, t: string)
    ensures ActiveFields(a + b, t) == ActiveFields(a, t) + ActiveFields(b, t)
  {
    if a == [] {
      assert a + b == b;
    } else {
      assert (a + b)[1..] == a[1..] + b && (a + b)[0] == a[0];
      ActiveConcat(a[1..], b, t);
      var first := if Active(a[0], t) then [a[0].plain] else [];
      PlainAssociates(first, ActiveFields(a[1..], t), ActiveFields(b, t));
    }
  }

  lemma PlainAssociates(a: seq<Plain>, b: seq<Plain>, c: seq<Plain>)
    ensures a + (b + c) == (a + b) + c
  {
  }

  lemma {:induction false} ActiveShared(u: TaggedUnion, shared: seq<Plain>, t: string)
    ensures ActiveFields(SharedFields(u, shared), t) == shared
  {
    if shared != [] {
      ActiveShared(u, shared[1..], t);
      assert SharedFields(u, shared)[1..] == SharedFields(u, shared[1..]);
    }
  }

  lemma {:induction false} ActiveOfVariant(u: TaggedUnion, variant: string, fields: seq<Plain>, t: string)
    ensures ActiveFields(FieldsOfVariant(u, variant, fields), t) == if variant == t then fields else []
  {
    if fields != [] {
      ActiveOfVariant(u, variant, fields[1..], t);
      assert FieldsOfVariant(u, variant, fields)[1..] == FieldsOfVariant(u, variant, fields[1..]);
    }
  }

  lemma {:induction false} ActiveVariants(u: TaggedUnion, variants: seq<(string, seq<Plain>)>, t: string)
    requires Distinct(VariantNames(variants))
    ensures ActiveFields(VariantFields(u, variants), t) ==
            match FieldsOf(variants, t)
            case Some(fields) => fields
            case None => []
  {
    if variants != [] {
      var rest := variants[1..];
      var names := VariantNames(variants);
      assert names[0] == variants[0].0 && names[1..] == VariantNames(rest);
      assert names[0] !in names[1..];
      ActiveVariants(u, rest, t);
      ActiveOfVariant(u, variants[0].0, variants[0].1, t);
      ActiveConcat(FieldsOfVariant(u, variants[0].0, variants[0].1), VariantFields(u, rest), t);
      FieldsOfNames(rest, t);
    }
  }

  /** The active fields of the flat bundle are the fields in effect, in the same order. */
  lemma ActiveInEffect(u: TaggedUnion, t: string)
    requires GoodNames(VariantNames(u.variants)) && FieldsOf(u.variants, t).Some?
    ensures ActiveFields(AsBundle(u), t) == InEffect(AsVariantOutput(u), t)
  {
    var tag := [Projected(u, Tag(u), Discriminant, VariantNames(u.variants))];
    assert ActiveFields(tag, t) == [Tag(u)];
    ActiveConcat(tag + SharedFields(u, u.shared), VariantFields(u, u.variants), t);
    ActiveConcat(tag, SharedFields(u, u.shared), t);
    ActiveShared(u, u.shared, t);
    ActiveVariants(u, u.variants, t);
  }

  lemma {:induction false} GatherActive(env: Env, document: Value, off: set<string>, fields: seq<Field>, t: string)
    requires forall f :: f in fields ==> f.required && FieldName(f) == f.plain.name && (f.plain.name in off <==> !Active(f, t))
    ensures BundleGather(env, document, off, fields) == Gather(env, document, ActiveFields(fields, t))
  {
    if fields != [] {
      var before, last := fields[..|fields| - 1], fields[|fields| - 1];
      assert fields == before + [last];
      GatherActive(env, document, off, before, t);
      ActiveSnoc(before, last, t);
      if Active(last, t) {
        GatherSnoc(env, document, ActiveFields(before, t), last.plain);
      }
    }
  }

  lemma ActiveSnoc(before: seq<Field>, last: Field, t: string)
    ensures ActiveFields(before + [last], t) ==
            if Active(last, t) then ActiveFields(before, t) + [last.plain] else ActiveFields(before, t)
  {
    ActiveConcat(before, [last], t);
    assert ActiveFields([last], t) == if Active(last, t) then [last.plain] else [];
  }

  lemma GatherSnoc(env: Env, document: Value, before: seq<Plain>, p: Plain)
    ensures Gather(env, document, before + [p]) ==
            match Contributes(env, document, p, true)
            case Gives(v) => Gather(env, document, before)[p.name := v]
            case _ => Gather(env, document, before)
  {
    assert (before + [p])[..|before|] == before && (before + [p])[|before|] == p;
  }

  /** The two tagged-union validators agree: they accept the same documents, and an accepted document
      yields the same artifacts. */
  lemma ValidatorsAgree(env: Env, u: TaggedUnion, document: Value)
    requires WellFormed(u)
    ensures BundleAccepts(env, AsBundle(u), document) <==> VariantAccepts(env, AsVariantOutput(u), document)
    ensures VariantAccepts(env, AsVariantOutput(u), document) ==>
              BundleGather(env, document, Off(Collect(AsBundle(u)), document), AsBundle(u)) ==
              Gather(env, document, InEffect(AsVariantOutput(u), Chosen(env, AsVariantOutput(u), document).value))
  {
    SameDocuments(env, u, document);
    SameSelection(env, u, document);
    if VariantAccepts(env, AsVariantOutput(u), document) {
      var t := Chosen(env, AsVariantOutput(u), document).value;
      SameArtifacts(env, u, document, t);
    }
  }

  lemma SameArtifacts(env: Env, u: TaggedUnion, document: Value, t: string)
    requires WellFormed(u) && u.tagName in MetaOf(u) && FieldsOf(u.variants, t).Some?
    requires Selected(MetaOf(u), u.tagName, document) == Some(t)
    ensures BundleGather(env, document, Off(MetaOf(u), document), AsBundle(u)) ==
            Gather(env, document, InEffect(AsVariantOutput(u), t))
  {
    OffExactly(u, document, t);
    forall f | f in AsBundle(u)
      ensures f.required && FieldName(f) == f.plain.name
    {
      ProjectedIsMember(u, f);
    }
    GatherActive(env, document, Off(MetaOf(u), document), AsBundle(u), t);
    ActiveInEffect(u, t);
  }

  // ---- Where they disagree

  lemma SaneMember(u: TaggedUnion, f: Field)
    requires Sane(u) && f in AsBundle(u)
    ensures InUnion(f) && FieldName(f) == f.plain.name && f.projection.group == u.group
  {
    Origins(u, f);
    assert AsBundle(u)[0] in AsBundle(u);
    if k :| FromVariant(u, u.variants, f, k) {
      VariantNameGood(u, k);
    }
  }

  /** A lone variant with fields of its own is refused by the flat bundle, whatever the document. */
  lemma LoneVariantRefused(env: Env, u: TaggedUnion, document: Value)
    requires Sane(u) && !TellsApart(u)
    ensures !BundleAccepts(env, AsBundle(u), document)
  {
    var p := u.variants[0].1[0];
    var f := Projected(u, p, Variant, [u.variants[0].0]);
    var tag := Projected(u, Tag(u), Discriminant, VariantNames(u.variants));
    assert FromVariant(u, u.variants, f, 0);
    Origins(u, f);
    Origins(u, tag);
    forall g | g in AsBundle(u)
      ensures InUnion(g) && FieldName(g) == g.plain.name && g.projection.group == u.group
    {
      SaneMember(u, g);
    }
    CollectKeepsAll(AsBundle(u));
    NotGroupOk(MetaOf(u), u.group, f, tag);
  }

  lemma NotGroupOk(meta: Meta, group: string, f: Field, tag: Field)
    requires InUnion(f) && InUnion(tag) && f.plain.name in meta && meta[f.plain.name] == f
    requires tag.plain.name in meta && meta[tag.plain.name] == tag && tag.projection.role == Discriminant
    requires f.projection.group == group == tag.projection.group
    requires f.projection.role == Variant && f.projection.active == tag.projection.active
    ensures forall d :: !GroupOk(meta, group, d)
  {
    assert f.plain.name in Members(meta, group) && tag.plain.name in Discriminants(meta, group);
    forall d | Discriminants(meta, group) == {d}
      ensures d == tag.plain.name
    {
      assert tag.plain.name in {d};
    }
  }

  /** The exact relation of the two encodings, document by document. */
  lemma AgreementExactly(env: Env, u: TaggedUnion, document: Value)
    requires Sane(u)
    ensures BundleAccepts(env, AsBundle(u), document) <==>
              TellsApart(u) && VariantAccepts(env, AsVariantOutput(u), document)
  {
    if TellsApart(u) {
      SameDocuments(env, u, document);
    } else {
      LoneVariantRefused(env, u, document);
    }
  }

  /** A union with the single variant "a", which has one string field. */
  function LoneUnion(): TaggedUnion {
    TaggedUnion("g", "t", "/t", [], [("a", [Plain("x", "/x", StringType)])])
  }

  function LoneDocument(): Value {
    Dict([("t", Str("a")), ("x", Str("s"))])
  }

  lemma OneToken(document: Value, name: string)
    requires name != "" && '/' !in name && Unescape(name) == name
    ensures Resolve(document, "/" + name) == Descend(document, name)
  {
    var pointer := "/" + name;
    assert pointer[1..] == name;
    SplitToken(name, '/');
    assert [name][1..] == [] && DescendAll(document, [name]) ==
           match Descend(document, name) case None => None case Some(next) => DescendAll(next, [name][1..]);
  }

  lemma StripNothing(s: string)
    requires s != "" && !IsSpace(s[0]) && !IsSpace(s[|s| - 1])
    ensures Strip(s) == s
  {
  }

  lemma LoneUnionIsSane()
    ensures Sane(LoneUnion()) && !TellsApart(LoneUnion())
  {
    var u := LoneUnion();
    var x := Plain("x", "/x", StringType);
    assert u.variants[1..] == [] && VariantNames(u.variants) == ["a"];
    assert [x][1..] == [] && FieldsOfVariant(u, "a", [x]) == [Projected(u, x, Variant, ["a"])];
    assert VariantFields(u, u.variants) == [Projected(u, x, Variant, ["a"])];
    assert AsBundle(u) == [Projected(u, Tag(u), Discriminant, ["a"]), Projected(u, x, Variant, ["a"])];
    StripNothing("x");
    StripNothing("t");
  }

  /** A union with one variant accepts a document that names the variant and gives its one string field. */
  lemma LoneAccepted(env: Env, u: TaggedUnion, x: Plain, document: Value, text: string)
    requires u.tagName != "" && u.shared == [] && |u.variants| == 1 && u.variants[0].1 == [x]
    requires x.name != "" && x.spec == StringType
    requires Resolve(document, u.tagPointer) == Some(Str(u.variants[0].0))
    requires Resolve(document, x.pointer) == Some(Str(text))
    ensures VariantAccepts(env, AsVariantOutput(u), document)
  {
    var a := u.variants[0].0;
    assert VariantNames(u.variants)[0] == a;
    ReadTag(env, document, Tag(u));
    assert FieldsOf(u.variants, a) == Some([x]);
    assert FieldAccepted(env, document, x);
  }

  lemma LoneResolves()
    ensures Resolve(LoneDocument(), "/t") == Some(Str("a")) && Resolve(LoneDocument(), "/x") == Some(Str("s"))
  {
    var entries := LoneDocument().entries;
    assert Unescape("t") == "t" && Unescape("x") == "x";
    OneToken(LoneDocument(), "t");
    OneToken(LoneDocument(), "x");
    assert "/" + "t" == "/t" && "/" + "x" == "/x";
    assert entries[1..][0] == ("x", Str("s"));
    assert Lookup(entries, "x") == Lookup(entries[1..], "x");
  }

  /** The disagreement exists: a sane union and a document that `variant_output` accepts and the flat bundle refuses. */
  lemma ValidatorsCanDisagree(env: Env)
    ensures Sane(LoneUnion())
    ensures VariantAccepts(env, AsVariantOutput(LoneUnion()), LoneDocument())
    ensures !BundleAccepts(env, AsBundle(LoneUnion()), LoneDocument())
  {
    LoneUnionIsSane();
    LoneResolves();
    LoneAccepted(env, LoneUnion(), Plain("x", "/x", StringType), LoneDocument(), "s");
    LoneVariantRefused(env, LoneUnion(), LoneDocument());
  }
}
