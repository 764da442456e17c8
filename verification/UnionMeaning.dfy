/** What a tagged union's validators accept and return, said without their parser and their pointer walk
    (orchestrator/contracts/output_contract.py). */
module UnionMeaning {
  import opened Text
  import opened JsonPointer
  import opened ContractParse
  import opened UnionContracts

  ghost predicate Absent(document: Value, pointer: string) {
    forall raw :: !Names(document, pointer, raw)
  }

  /** The document holds `v` for this field: what its JSON Pointer leads to means `v`, or an optional field is absent. */
  ghost predicate FieldHolds(env: Env, document: Value, p: Plain, v: Value) {
    || (exists raw :: Names(document, p.pointer, raw) && Means(env, p.spec, raw, v))
    || (p.spec.OptionalType? && v == Null && Absent(document, p.pointer))
  }

  lemma AbsentExactly(document: Value, pointer: string)
    ensures Absent(document, pointer) <==> Resolve(document, pointer).None?
  {
    forall raw
      ensures Resolve(document, pointer) == Some(raw) <==> Names(document, pointer, raw)
    {
      ResolvesExactly(document, pointer, raw);
    }
    if Resolve(document, pointer).Some? {
      assert Names(document, pointer, Resolve(document, pointer).value);
    }
  }

  /** A field gives exactly the value that the document holds for it. */
  lemma ContributesExactly(env: Env, document: Value, p: Plain, required: bool, v: Value)
    ensures Contributes(env, document, p, required) == Gives(v) <==> FieldHolds(env, document, p, v)
  {
    AbsentExactly(document, p.pointer);
    match Resolve(document, p.pointer)
    case None =>
    case Some(raw) =>
      ParseExactly(env, p.spec, raw, "", v);
      forall other
        ensures Names(document, p.pointer, other) <==> other == raw
      {
        ResolvesExactly(document, p.pointer, other);
      }
  }

  /** A field is passed over exactly when it is absent and neither required nor optional in its type. */
  lemma PassedOverExactly(env: Env, document: Value, p: Plain, required: bool)
    ensures Contributes(env, document, p, required) == Nothing <==>
              !required && !p.spec.OptionalType? && Absent(document, p.pointer)
  {
    AbsentExactly(document, p.pointer);
  }

  ghost predicate SomeHeld(env: Env, document: Value, p: Plain) {
    exists v :: FieldHolds(env, document, p, v)
  }

  lemma GivesExactly(env: Env, document: Value, p: Plain, required: bool)
    ensures Contributes(env, document, p, required).Gives? <==> SomeHeld(env, document, p)
  {
    if Contributes(env, document, p, required).Gives? {
      ContributesExactly(env, document, p, required, Contributes(env, document, p, required).value);
    }
    if v :| FieldHolds(env, document, p, v) {
      ContributesExactly(env, document, p, required, v);
    }
  }

  // ---- variant_output

  /** The discriminant is in the document and means this text. */
  ghost predicate Tagged(env: Env, contract: VariantContract, document: Value, variant: string) {
    exists raw :: Names(document, contract.discriminant.pointer, raw) && Means(env, contract.discriminant.spec, raw, Str(variant))
  }

  /** Every field has a name and a value in the document. */
  ghost predicate AllHeld(env: Env, document: Value, fields: seq<Plain>) {
    forall p :: p in fields ==> p.name != "" && SomeHeld(env, document, p)
  }

  /** The document is one of the variant at `k`, the first of its name: tagged with it, with every field of that variant, and no
      field of a variant of another name. */
  ghost predicate IsVariant(env: Env, contract: VariantContract, document: Value, k: int) {
    && 0 <= k < |contract.variants|
    && (forall j :: 0 <= j < k ==> contract.variants[j].0 != contract.variants[k].0)
    && contract.discriminant.name != "" && Tagged(env, contract, document, contract.variants[k].0)
    && AllHeld(env, document, contract.shared) && AllHeld(env, document, contract.variants[k].1)
    && forall j, p :: 0 <= j < |contract.variants| && contract.variants[j].0 != contract.variants[k].0 && p in contract.variants[j].1 ==>
         Absent(document, p.pointer)
  }

  lemma TaggedExactly(env: Env, contract: VariantContract, document: Value, variant: string)
    ensures Tagged(env, contract, document, variant) <==>
              && Resolve(document, contract.discriminant.pointer).Some?
              && Contributes(env, document, contract.discriminant, true) == Gives(Str(variant))
  {
    var d := contract.discriminant;
    AbsentExactly(document, d.pointer);
    ContributesExactly(env, document, d, true, Str(variant));
    if Tagged(env, contract, document, variant) {
      var raw :| Names(document, d.pointer, raw) && Means(env, d.spec, raw, Str(variant));
      ResolvesExactly(document, d.pointer, raw);
    }
  }

  lemma HeldExactly(env: Env, document: Value, fields: seq<Plain>)
    ensures AllHeld(env, document, fields) <==> forall p :: p in fields ==> FieldAccepted(env, document, p)
  {
    forall p
      ensures Contributes(env, document, p, true).Gives? <==> SomeHeld(env, document, p)
    {
      GivesExactly(env, document, p, true);
    }
  }

  lemma {:induction false} FieldsOfFirst(variants: seq<(string, seq<Plain>)>, k: nat)
    requires k < |variants| && forall j :: 0 <= j < k ==> variants[j].0 != variants[k].0
    ensures FieldsOf(variants, variants[k].0) == Some(variants[k].1)
  {
    if k > 0 {
      FieldsOfFirst(variants[1..], k - 1);
    }
  }

  lemma {:induction false} FirstOf(variants: seq<(string, seq<Plain>)>, name: string) returns (k: nat)
    requires FieldsOf(variants, name).Some?
    ensures k < |variants| && variants[k].0 == name && forall j :: 0 <= j < k ==> variants[j].0 != name
  {
    k := 0;
    if variants[0].0 != name {
      var i := FirstOf(variants[1..], name);
      k := i + 1;
    }
  }

  /** Once the variant is known, acceptance asks the same of the other fields. */
  lemma VariantExactly(env: Env, contract: VariantContract, document: Value, k: nat)
    requires k < |contract.variants| && forall j :: 0 <= j < k ==> contract.variants[j].0 != contract.variants[k].0
    requires Tagged(env, contract, document, contract.variants[k].0)
    ensures VariantAccepts(env, contract, document) <==> IsVariant(env, contract, document, k)
    ensures Chosen(env, contract, document) == Some(contract.variants[k].0)
  {
    var name := contract.variants[k].0;
    TaggedExactly(env, contract, document, name);
    FieldsOfFirst(contract.variants, k);
    HeldExactly(env, document, contract.shared);
    HeldExactly(env, document, contract.variants[k].1);
    ForbiddenExactly(document, contract.variants, name);
  }

  lemma ForbiddenExactly(document: Value, variants: seq<(string, seq<Plain>)>, name: string)
    ensures NoneForbidden(document, variants, name) <==>
              forall j, p :: 0 <= j < |variants| && variants[j].0 != name && p in variants[j].1 ==> Absent(document, p.pointer)
  {
    forall p: Plain
      ensures Absent(document, p.pointer) <==> Resolve(document, p.pointer).None?
    {
      AbsentExactly(document, p.pointer);
    }
  }

  /** `variant_output` accepts exactly the documents of its variants. */
  lemma AcceptsItsVariants(env: Env, contract: VariantContract, document: Value)
    ensures VariantAccepts(env, contract, document) <==> exists k :: IsVariant(env, contract, document, k)
  {
    if VariantAccepts(env, contract, document) {
      var name := Chosen(env, contract, document).value;
      var k := FirstOf(contract.variants, name);
      TaggedExactly(env, contract, document, name);
      VariantExactly(env, contract, document, k);
    }
    if k :| IsVariant(env, contract, document, k) {
      VariantExactly(env, contract, document, k);
    }
  }

  // ---- The artifacts

  ghost function FieldNames(fields: seq<Plain>): set<string> {
    set p | p in fields :: p.name
  }

  /** The field at `i` is the last of the fields with its name. */
  ghost predicate LastOfName(fields: seq<Plain>, i: int) {
    0 <= i < |fields| && forall j :: i < j < |fields| ==> fields[j].name != fields[i].name
  }

  /** The artifacts are named after the fields, and each is the value of the last field of its name. */
  ghost predicate Artifacts(env: Env, document: Value, fields: seq<Plain>, artifacts: map<string, Value>) {
    && artifacts.Keys == FieldNames(fields)
    && forall i :: LastOfName(fields, i) ==>
         fields[i].name in artifacts && FieldHolds(env, document, fields[i], artifacts[fields[i].name])
  }

  lemma ArtifactsStep(env: Env, document: Value, front: seq<Plain>, artifacts: map<string, Value>, last: Plain, v: Value)
    requires Artifacts(env, document, front, artifacts) && FieldHolds(env, document, last, v)
    ensures Artifacts(env, document, front + [last], artifacts[last.name := v])
  {
    var fields := front + [last];
    FieldNamesStep(front, last);
    forall i | LastOfName(fields, i)
      ensures fields[i].name in artifacts[last.name := v]
      ensures FieldHolds(env, document, fields[i], artifacts[last.name := v][fields[i].name])
    {
      LastStep(front, last, i);
    }
  }

  lemma FieldNamesStep(front: seq<Plain>, last: Plain)
    ensures FieldNames(front + [last]) == FieldNames(front) + {last.name}
  {
    assert forall p :: p in front + [last] <==> p in front || p == last;
  }

  lemma LastStep(front: seq<Plain>, last: Plain, i: nat)
    requires LastOfName(front + [last], i)
    ensures if i == |front| then (front + [last])[i] == last
            else LastOfName(front, i) && (front + [last])[i] == front[i] && front[i].name != last.name
  {
    var fields := front + [last];
    assert fields[|front|] == last;
    if i < |front| {
      assert fields[i].name != fields[|front|].name;
      assert forall j :: i < j < |front| ==> front[j] == fields[j];
    }
  }

  /** If every field has a value, gathering yields the artifacts of the fields. */
  lemma {:induction false} GatherExactly(env: Env, document: Value, fields: seq<Plain>)
    requires forall p :: p in fields ==> SomeHeld(env, document, p)
    ensures Artifacts(env, document, fields, Gather(env, document, fields))
  {
    if fields != [] {
      var front, last := fields[..|fields| - 1], fields[|fields| - 1];
      assert fields == front + [last] && last in fields;
      GatherExactly(env, document, front);
      GivesExactly(env, document, last, true);
      var v := Contributes(env, document, last, true).value;
      ContributesExactly(env, document, last, true, v);
      GatherLast(env, document, front, last, v);
      ArtifactsStep(env, document, front, Gather(env, document, front), last, v);
    }
  }

  lemma GatherLast(env: Env, document: Value, front: seq<Plain>, last: Plain, v: Value)
    requires Contributes(env, document, last, true) == Gives(v)
    ensures Gather(env, document, front + [last]) == Gather(env, document, front)[last.name := v]
  {
    assert (front + [last])[..|front|] == front && (front + [last])[|front|] == last;
  }

  /** The artifacts of an accepted document: those of the tag, the shared fields and the fields of its variant. */
  lemma ArtifactsAreTheFields(env: Env, contract: VariantContract, document: Value, k: nat)
    requires IsVariant(env, contract, document, k)
    ensures Chosen(env, contract, document).Some? && FieldsOf(contract.variants, Chosen(env, contract, document).value).Some?
    ensures Artifacts(env, document, [contract.discriminant] + contract.shared + contract.variants[k].1,
                      Gather(env, document, InEffect(contract, Chosen(env, contract, document).value)))
  {
    VariantExactly(env, contract, document, k);
    FieldsOfFirst(contract.variants, k);
    var fields := [contract.discriminant] + contract.shared + contract.variants[k].1;
    TaggedHeld(env, contract, document, contract.variants[k].0);
    assert forall p :: p in fields ==> SomeHeld(env, document, p);
    GatherExactly(env, document, fields);
  }

  lemma TaggedHeld(env: Env, contract: VariantContract, document: Value, variant: string)
    requires Tagged(env, contract, document, variant)
    ensures SomeHeld(env, document, contract.discriminant)
  {
    assert FieldHolds(env, document, contract.discriminant, Str(variant));
  }

  // ---- The flat bundle

  /** The artifact of a field of the bundle: its value, unless it is switched off or has none. */
  ghost predicate ArtifactOf(env: Env, document: Value, off: set<string>, f: Field, artifacts: map<string, Value>) {
    && (FieldName(f) in artifacts <==> FieldName(f) !in off && SomeHeld(env, document, f.plain))
    && (FieldName(f) in artifacts ==> FieldHolds(env, document, f.plain, artifacts[FieldName(f)]))
  }

  ghost predicate DistinctFields(fields: seq<Field>) {
    forall i, j :: 0 <= i < j < |fields| ==> FieldName(fields[i]) != FieldName(fields[j])
  }

  ghost function BundleNames(fields: seq<Field>): set<string> {
    set f | f in fields :: FieldName(f)
  }

  /** What one more field of a new name does to the artifacts. */
  lemma BundleGatherStep(env: Env, document: Value, off: set<string>, front: seq<Field>, last: Field)
    ensures var before, after := BundleGather(env, document, off, front), BundleGather(env, document, off, front + [last]);
            && before.Keys <= after.Keys <= before.Keys + {FieldName(last)}
            && (forall n :: n in before && n != FieldName(last) ==> after[n] == before[n])
            && (FieldName(last) !in before ==> ArtifactOf(env, document, off, last, after))
  {
    assert (front + [last])[..|front|] == front && (front + [last])[|front|] == last;
    GivesExactly(env, document, last.plain, last.required);
    if Contributes(env, document, last.plain, last.required).Gives? {
      ContributesExactly(env, document, last.plain, last.required, Contributes(env, document, last.plain, last.required).value);
    }
  }

  /** Among fields of distinct names the artifacts hold the value of every field that is not switched off and has one,
      and nothing else. */
  lemma {:induction false} BundleGatherExactly(env: Env, document: Value, off: set<string>, fields: seq<Field>)
    requires DistinctFields(fields)
    ensures BundleGather(env, document, off, fields).Keys <= BundleNames(fields)
    ensures forall f :: f in fields ==> ArtifactOf(env, document, off, f, BundleGather(env, document, off, fields))
  {
    if fields != [] {
      var front, last := fields[..|fields| - 1], fields[|fields| - 1];
      BundleGatherExactly(env, document, off, front);
      assert fields == front + [last];
      BundleGatherStep(env, document, off, front, last);
      NewName(front, last);
    }
  }

  lemma NewName(front: seq<Field>, last: Field)
    requires DistinctFields(front + [last])
    ensures FieldName(last) !in BundleNames(front) && BundleNames(front + [last]) == BundleNames(front) + {FieldName(last)}
  {
    var fields := front + [last];
    assert fields[|front|] == last && forall i :: 0 <= i < |front| ==> fields[i] == front[i];
    assert forall f :: f in fields <==> f in front || f == last;
    forall f | f in front
      ensures FieldName(f) != FieldName(last)
    {
      var i :| 0 <= i < |front| && front[i] == f;
      assert FieldName(fields[i]) != FieldName(fields[|front|]);
    }
  }

  /** The checks on a field of a flat bundle, said of the document. */
  lemma FieldFineExactly(env: Env, document: Value, off: set<string>, fields: seq<Field>, i: nat)
    requires i < |fields|
    ensures FieldFine(env, document, off, fields, i) <==>
              && FieldName(fields[i]) != "" && (forall j :: 0 <= j < i ==> FieldName(fields[j]) != FieldName(fields[i]))
              && PointerShape(fields[i].plain.pointer)
              && (|| FieldName(fields[i]) in off
                  || SomeHeld(env, document, fields[i].plain)
                  || (!fields[i].required && !fields[i].plain.spec.OptionalType? && Absent(document, fields[i].plain.pointer)))
  {
    GivesExactly(env, document, fields[i].plain, fields[i].required);
    PassedOverExactly(env, document, fields[i].plain, fields[i].required);
  }
}
