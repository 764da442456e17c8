/** The two validators for tagged unions (orchestrator/contracts/output_contract.py): projection
    metadata on a flat bundle, and `variant_output`. */
module UnionContracts {
  import opened Text
  import opened JsonPointer
  import opened ContractParse

  datatype Role = Discriminant | Shared | Variant | OtherRole

  /** The `projection` entry of a bundle field. */
  datatype Projection =
    | NoProjection
    | NotAnObject
    | PathProjection
    | OtherClass
    | UnionProjection(
        keysExact: bool,
        returnIsUnion: bool,
        group: string,
        discriminantOutput: string,
        role: Role,
        active: seq<string>)

  /** Name, pointer and type of a field. */
  datatype Plain = Plain(name: string, pointer: string, spec: Spec)

  datatype Field = Field(plain: Plain, required: bool, projection: Projection)

  /** What one field contributes: a value, nothing, a violation, or an uncaught exception. */
  datatype Contribution = Gives(value: Value) | Nothing | Bad | Throws

  datatype Verdict = Accepted(artifacts: map<string, Value>) | Refused | Crashed

  predicate PointerShape(pointer: string) {
    pointer == "" || pointer[0] == '/'
  }

  function Contributes(env: Env, document: Value, p: Plain, required: bool): Contribution {
    match Resolve(document, p.pointer)
    case None => if p.spec.OptionalType? then Gives(Null) else if !required then Nothing else Bad
    case Some(raw) =>
      match ParseValue(env, p.spec, raw, "")
      case Parsed(v) => Gives(v)
      case Violation(_, _) => Bad
      case Raises => Throws
  }

  /** The artifact map that the fields build in order; a later field of the same name wins. */
  function Gather(env: Env, document: Value, fields: seq<Plain>): map<string, Value> {
    if fields == [] then map[]
    else
      var before := Gather(env, document, fields[..|fields| - 1]);
      var last := fields[|fields| - 1];
      match Contributes(env, document, last, true)
      case Gives(v) => before[last.name := v]
      case _ => before
  }

  // ---- Projection metadata

  predicate Distinct(names: seq<string>) {
    forall i, j :: 0 <= i < j < |names| ==> names[i] != names[j]
  }

  predicate GoodNames(names: seq<string>) {
    names != [] && (forall i :: 0 <= i < |names| ==> names[i] != "") && Distinct(names)
  }

  function FieldName(f: Field): string {
    Strip(f.plain.name)
  }

  /** The field takes part in a union. */
  predicate InUnion(f: Field) {
    f.projection.UnionProjection? && MetadataOk(f)
  }

  /** The checks on one field's metadata alone. */
  predicate MetadataOk(f: Field) {
    match f.projection
    case NoProjection => true
    case NotAnObject => false
    case PathProjection => true
    case OtherClass => false
    case UnionProjection(keysExact, returnIsUnion, group, discriminantOutput, role, active) =>
      && keysExact && returnIsUnion && group != "" && discriminantOutput != "" && role != OtherRole
      && GoodNames(active)
      && FieldName(f) != ""
  }

  type Meta = m: map<string, Field> | forall n :: n in m ==> InUnion(m[n]) witness map[]

  /** The union fields by name; a later field replaces an earlier one of the same name. */
  function Collect(fields: seq<Field>): Meta {
    if fields == [] then map[]
    else
      var before := Collect(fields[..|fields| - 1]);
      var f := fields[|fields| - 1];
      if InUnion(f) then before[FieldName(f) := f] else before
  }

  function Members(meta: Meta, group: string): set<string> {
    set n | n in meta && meta[n].projection.group == group
  }

  function Discriminants(meta: Meta, group: string): set<string> {
    set n | n in meta && meta[n].projection.group == group && meta[n].projection.role == Discriminant
  }

  /** The discriminant's own schema lists exactly its variants. */
  predicate SchemaOk(f: Field)
    requires InUnion(f)
  {
    && f.plain.spec.EnumType?
    && f.required
    && GoodNames(f.plain.spec.allowed)
    && f.plain.spec.allowed == f.projection.active
  }

  function Keep(allowed: seq<string>, active: seq<string>): seq<string> {
    if allowed == [] then []
    else (if allowed[0] in active then [allowed[0]] else []) + Keep(allowed[1..], active)
  }

  predicate MemberOk(f: Field, discriminant: string, allowed: seq<string>)
    requires InUnion(f)
  {
    && f.projection.discriminantOutput == discriminant
    && (forall v :: v in f.projection.active ==> v in allowed)
    && Keep(allowed, f.projection.active) == f.projection.active
    && (f.projection.role != Variant ==> f.projection.active == allowed)
    && (f.projection.role == Variant ==> f.projection.active != allowed)
  }

  /** `d` is the one discriminant of the group and every member is consistent with it. */
  predicate GroupOk(meta: Meta, group: string, d: string) {
    && Discriminants(meta, group) == {d}
    && d in meta
    && SchemaOk(meta[d])
    && (forall n :: n in Members(meta, group) ==> MemberOk(meta[n], d, meta[d].projection.active))
  }

  /** The variant that the document selects, if its discriminant resolves to one. */
  function Selected(meta: Meta, d: string, document: Value): Option<string>
    requires d in meta
  {
    if !PointerShape(meta[d].plain.pointer) then None
    else
      match Resolve(document, meta[d].plain.pointer)
      case Some(Str(text)) => if text in meta[d].projection.active then Some(text) else None
      case _ => None
  }

  predicate IsActive(f: Field, variant: string)
    requires InUnion(f)
  {
    f.projection.role != Variant || variant in f.projection.active
  }

  predicate Present(f: Field, document: Value) {
    PointerShape(f.plain.pointer) && Resolve(document, f.plain.pointer).Some?
  }

  /** The member `n` does not belong to the variant that the discriminant `d` selects. */
  predicate SwitchedOff(meta: Meta, d: string, n: string, document: Value)
    requires d in meta && n in meta
  {
    Selected(meta, d, document).Some? && !IsActive(meta[n], Selected(meta, d, document).value)
  }

  /** No switched-off member of the group is present in the document. */
  ghost predicate NoIntruder(meta: Meta, group: string, d: string, document: Value)
    requires d in meta
  {
    forall n :: n in Members(meta, group) && SwitchedOff(meta, d, n, document) ==> !Present(meta[n], document)
  }

  /** The group is consistent and no inactive member is present. */
  ghost predicate GroupClean(meta: Meta, group: string, document: Value) {
    exists d :: GroupOk(meta, group, d) && NoIntruder(meta, group, d, document)
  }

  ghost predicate ProjectionClean(fields: seq<Field>, document: Value) {
    && (forall i :: 0 <= i < |fields| ==> MetadataOk(fields[i]))
    && (forall n :: n in Collect(fields) ==> GroupClean(Collect(fields), Collect(fields)[n].projection.group, document))
  }

  /** The member is switched off: its group is consistent, a variant is selected, and it is not in it. */
  ghost predicate Inactive(meta: Meta, n: string, document: Value) {
    && n in meta
    && exists d :: GroupOk(meta, meta[n].projection.group, d) && SwitchedOff(meta, d, n, document)
  }

  // ---- The flat bundle

  /** The names of the members that are switched off. */
  ghost function Off(meta: Meta, document: Value): set<string> {
    set n | n in meta && Inactive(meta, n, document)
  }

  /** The checks on the field at `i`, given the names that are switched off. */
  predicate FieldFine(env: Env, document: Value, off: set<string>, fields: seq<Field>, i: nat)
    requires i < |fields|
  {
    && FieldName(fields[i]) != ""
    && (forall j :: 0 <= j < i ==> FieldName(fields[j]) != FieldName(fields[i]))
    && PointerShape(fields[i].plain.pointer)
    && (FieldName(fields[i]) in off || Harmless(Contributes(env, document, fields[i].plain, fields[i].required)))
  }

  predicate Harmless(c: Contribution) {
    c.Gives? || c.Nothing?
  }

  /** Everything the flat-bundle validator accepts. */
  ghost predicate BundleAccepts(env: Env, fields: seq<Field>, document: Value) {
    && ProjectionClean(fields, document)
    && forall i :: 0 <= i < |fields| ==> FieldFine(env, document, Off(Collect(fields), document), fields, i)
  }

  /** The artifacts of a flat bundle: the values of the fields that are not switched off. */
  function BundleGather(env: Env, document: Value, off: set<string>, fields: seq<Field>): map<string, Value> {
    if fields == [] then map[]
    else
      var before := BundleGather(env, document, off, fields[..|fields| - 1]);
      var f := fields[|fields| - 1];
      if FieldName(f) in off then before
      else
        match Contributes(env, document, f.plain, f.required)
        case Gives(v) => before[FieldName(f) := v]
        case _ => before
  }

  // ---- variant_output

  datatype VariantContract = VariantContract(
    discriminant: Plain,
    shared: seq<Plain>,
    variants: seq<(string, seq<Plain>)>)

  function FieldsOf(variants: seq<(string, seq<Plain>)>, name: string): Option<seq<Plain>> {
    if variants == [] then None
    else if variants[0].0 == name then Some(variants[0].1)
    else FieldsOf(variants[1..], name)
  }

  /** The variant named by the parsed discriminant. */
  function Chosen(env: Env, contract: VariantContract, document: Value): Option<string> {
    match Contributes(env, document, contract.discriminant, true)
    case Gives(Str(text)) => if FieldsOf(contract.variants, text).Some? then Some(text) else None
    case _ => None
  }

  predicate FieldAccepted(env: Env, document: Value, p: Plain) {
    p.name != "" && Contributes(env, document, p, true).Gives?
  }

  /** No field of an unselected variant is present. */
  ghost predicate NoneForbidden(document: Value, variants: seq<(string, seq<Plain>)>, chosen: string) {
    forall i, p :: 0 <= i < |variants| && variants[i].0 != chosen && p in variants[i].1 ==> Resolve(document, p.pointer).None?
  }

  /** Everything the `variant_output` validator accepts. */
  ghost predicate VariantAccepts(env: Env, contract: VariantContract, document: Value) {
    && contract.discriminant.name != ""
    && Resolve(document, contract.discriminant.pointer).Some?
    && Chosen(env, contract, document).Some?
    && (forall p :: p in contract.shared ==> FieldAccepted(env, document, p))
    && (forall p :: p in FieldsOf(contract.variants, Chosen(env, contract, document).value).value ==>
          FieldAccepted(env, document, p))
    && NoneForbidden(document, contract.variants, Chosen(env, contract, document).value)
  }

  /** The fields in effect for the chosen variant, in the order in which they are read. */
  function InEffect(contract: VariantContract, chosen: string): seq<Plain>
    requires FieldsOf(contract.variants, chosen).Some?
  {
    [contract.discriminant] + contract.shared + FieldsOf(contract.variants, chosen).value
  }
}
