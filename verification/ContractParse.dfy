/** Typed bundle values: parsing, what a parsed value conforms to, and idempotence
    (orchestrator/contracts/output_contract.py, `_parse_output_bundle_value`). */
module ContractParse {
  import opened Text
  import opened JsonPointer
  import opened Workspace

  /** A field type. A missing item type is kept, since the code only notices it when it needs one. */
  datatype Spec =
    | ValueType
    | OptionalType(item: Option<Spec>)
    | ListType(item: Option<Spec>)
    | MapType(item: Option<Spec>)
    | StringType
    | EnumType(allowed: seq<string>)
    | IntegerType
    | FloatType
    | BoolType
    | RelpathType(under: string, mustExist: bool)
    | UnknownType

  datatype Kind =
    | InvalidTransportable | UnsupportedType | InvalidList | InvalidMap | InvalidString | InvalidEnum
    | InvalidInteger | InvalidFloat | InvalidBool | InvalidRelpath | EmptyRelpath | PathEscape
    | InvalidUnderRoot | OutsideUnderRoot | MissingTarget

  /** `Raises`: the conversion `float(n)` overflows and the exception is not caught. */
  datatype Parse = Parsed(value: Value) | Violation(kind: Kind, path: string) | Raises

  /** The file system and Python's float conversions. */
  datatype Env = Env(
    files: Files,
    floatOfInt: int -> Option<Number>,
    floatOfText: string -> Option<Number>)

  // ---- Scalars

  function Lower(s: string): string {
    if s == [] then []
    else [if 'A' <= s[0] <= 'Z' then (s[0] as int + 32) as char else s[0]] + Lower(s[1..])
  }

  function ParseBool(raw: Value): Option<bool> {
    match raw
    case Bool(flag) => Some(flag)
    case Str(text) => if Lower(text) == "true" then Some(true) else if Lower(text) == "false" then Some(false) else None
    case _ => None
  }

  function ParseFloat(env: Env, raw: Value): Parse {
    match raw
    case Int(n) => (match env.floatOfInt(n) case Some(x) => Parsed(Float(x)) case None => Raises)
    case Float(x) => Parsed(Float(x))
    case Str(text) => (match env.floatOfText(text) case Some(x) => Parsed(Float(x)) case None => Violation(InvalidFloat, ""))
    case _ => Violation(InvalidFloat, "")
  }

  /** `_normalize_relative_under_root`, for a value without ".." components. */
  function UnderRoot(fs: Files, text: string, root: seq<string>, mustExist: bool): Option<seq<string>> {
    if ".." in Parts(text) || (|Parts(text)| > 1 && !mustExist) then None
    else
      var candidate := fs.resolve(root + Parts(text));
      if Within(candidate, fs.workspace) && Within(candidate, root) && (mustExist ==> fs.exists_(candidate))
      then Some(candidate) else None
  }

  datatype Place = Place(target: seq<string>) | NoPlace(kind: Kind)

  /** The target a relpath value denotes, before the existence check. */
  function PlaceOf(fs: Files, text: string, under: string, mustExist: bool): Place {
    if text == "" then NoPlace(EmptyRelpath)
    else if Absolute(text) || ".." in Parts(text) then NoPlace(PathEscape)
    else
      match ResolveIn(fs, text)
      case None => NoPlace(PathEscape)
      case Some(target) =>
        if under == "" then Place(target)
        else
          match ResolveIn(fs, under)
          case None => NoPlace(InvalidUnderRoot)
          case Some(root) =>
            if Within(target, root) then Place(target)
            else
              match UnderRoot(fs, text, root, mustExist)
              case Some(refined) => Place(refined)
              case None => NoPlace(OutsideUnderRoot)
  }

  /** `_validate_relpath_value`. */
  function ParseRelpath(fs: Files, text: string, under: string, mustExist: bool): Parse {
    match PlaceOf(fs, text, under, mustExist)
    case NoPlace(kind) => Violation(kind, "")
    case Place(target) =>
      if mustExist && !fs.exists_(target) then Violation(MissingTarget, "")
      else if !Within(target, fs.workspace) then Raises
      else Parsed(Str(Posix(target[|fs.workspace|..])))
  }

  // ---- Transportable values, on decoded documents

  function CheckValue(v: Value, path: string): Parse
    decreases v, 1
  {
    match v
    case Float(number) => if number.Finite? then Parsed(v) else Violation(InvalidTransportable, path)
    case List(items) =>
      var r := CheckItems(items, path, 0);
      if r.Violation? then r else Parsed(v)
    case Dict(entries) =>
      var r := CheckEntries(v, 0, path);
      if r.Violation? then r else Parsed(v)
    case _ => Parsed(v)
  }

  function CheckItems(items: seq<Value>, path: string, index: nat): Parse
    decreases items
  {
    if items == [] then Parsed(Null)
    else
      var first := CheckValue(items[0], AppendValuePath(path, Decimal(index)));
      if first.Violation? then first else CheckItems(items[1..], path, index + 1)
  }

  function CheckEntries(v: Value, i: nat, path: string): Parse
    requires v.Dict? && i <= |v.entries|
    decreases v, 0, |v.entries| - i
  {
    if i == |v.entries| then Parsed(Null)
    else
      var first := CheckValue(v.entries[i].1, AppendValuePath(path, v.entries[i].0));
      if first.Violation? then first else CheckEntries(v, i + 1, path)
  }

  // ---- The parser

  datatype ParseItems = AllParsed(items: seq<Value>) | Stopped(cause: Parse)
  datatype ParseEntries = AllEntries(entries: seq<(string, Value)>) | StoppedAt(cause: Parse)

  /** `_parse_output_bundle_value`. */
  function ParseValue(env: Env, spec: Spec, raw: Value, path: string): Parse
    decreases spec, 0
  {
    match spec
    case ValueType => CheckValue(raw, path)
    case OptionalType(item) =>
      if raw.Null? then Parsed(Null)
      else if item.None? then Violation(UnsupportedType, path)
      else ParseValue(env, item.value, raw, path)
    case ListType(item) =>
      if !raw.List? then Violation(InvalidList, path)
      else if item.None? then Violation(UnsupportedType, path)
      else
        (match ParseAll(env, item.value, raw.items, path, 0)
         case AllParsed(items) => Parsed(List(items))
         case Stopped(cause) => cause)
    case MapType(item) =>
      if !raw.Dict? then Violation(InvalidMap, path)
      else if item.None? then Violation(UnsupportedType, path)
      else
        (match ParseAllEntries(env, item.value, raw.entries, path)
         case AllEntries(entries) => Parsed(Dict(entries))
         case StoppedAt(cause) => cause)
    case StringType => if raw.Str? then Parsed(raw) else Violation(InvalidString, path)
    case EnumType(allowed) =>
      if raw.Str? && raw.text in allowed then Parsed(raw) else Violation(InvalidEnum, path)
    case IntegerType =>
      (match raw
       case Int(_) => Parsed(raw)
       case Str(text) =>
         (match ParseInt(text) case Some(n) => Parsed(Int(n)) case None => Violation(InvalidInteger, path))
       case _ => Violation(InvalidInteger, path))
    case FloatType => ParseFloat(env, raw)
    case BoolType => (match ParseBool(raw) case Some(flag) => Parsed(Bool(flag)) case None => Violation(InvalidBool, path))
    case RelpathType(under, mustExist) =>
      if raw.Str? then ParseRelpath(env.files, raw.text, under, mustExist) else Violation(InvalidRelpath, path)
    case UnknownType => Violation(UnsupportedType, path)
  }

  function ParseAll(env: Env, spec: Spec, items: seq<Value>, path: string, index: nat): ParseItems
    decreases spec, 1, |items|
  {
    if items == [] then AllParsed([])
    else
      match ParseValue(env, spec, items[0], AppendValuePath(path, Decimal(index)))
      case Parsed(first) =>
        (match ParseAll(env, spec, items[1..], path, index + 1)
         case AllParsed(rest) => AllParsed([first] + rest)
         case Stopped(cause) => Stopped(cause))
      case cause => Stopped(cause)
  }

  function ParseAllEntries(env: Env, spec: Spec, entries: seq<(string, Value)>, path: string): ParseEntries
    decreases spec, 1, |entries|
  {
    if entries == [] then AllEntries([])
    else
      match ParseValue(env, spec, entries[0].1, AppendValuePath(path, entries[0].0))
      case Parsed(first) =>
        (match ParseAllEntries(env, spec, entries[1..], path)
         case AllEntries(rest) => AllEntries([(entries[0].0, first)] + rest)
         case StoppedAt(cause) => StoppedAt(cause))
      case cause => StoppedAt(cause)
  }

  function Prepend(done: seq<Value>, rest: ParseItems): ParseItems {
    match rest case AllParsed(items) => AllParsed(done + items) case Stopped(cause) => rest
  }

  function PrependEntries(done: seq<(string, Value)>, rest: ParseEntries): ParseEntries {
    match rest case AllEntries(entries) => AllEntries(done + entries) case StoppedAt(cause) => rest
  }

  /** `_parse_output_bundle_value` with its loops over list items and map entries. */
  method ParseOutputBundleValue(env: Env, spec: Spec, raw: Value, path: string) returns (r: Parse)
    ensures r == ParseValue(env, spec, raw, path)
    decreases spec, 0
  {
    match spec
    case OptionalType(item) =>
      if raw.Null? {
        return Parsed(Null);
      }
      if item.None? {
        return Violation(UnsupportedType, path);
      }
      r := ParseOutputBundleValue(env, item.value, raw, path);
    case ListType(item) =>
      if !raw.List? {
        return Violation(InvalidList, path);
      }
      if item.None? {
        return Violation(UnsupportedType, path);
      }
      r := ParseListItems(env, item.value, raw.items, path);
    case MapType(item) =>
      if !raw.Dict? {
        return Violation(InvalidMap, path);
      }
      if item.None? {
        return Violation(UnsupportedType, path);
      }
      r := ParseMapEntries(env, item.value, raw.entries, path);
    case _ =>
      r := ParseValue(env, spec, raw, path);
  }

  method ParseListItems(env: Env, spec: Spec, items: seq<Value>, path: string) returns (r: Parse)
    ensures r == match ParseAll(env, spec, items, path, 0)
                 case AllParsed(all) => Parsed(List(all))
                 case Stopped(cause) => cause
    decreases spec, 1
  {
    var parsed: seq<Value> := [];
    assert items[0..] == items;
    for index := 0 to |items|
      invariant ParseAll(env, spec, items, path, 0) == Prepend(parsed, ParseAll(env, spec, items[index..], path, index))
    {
      var item := ParseOutputBundleValue(env, spec, items[index], AppendValuePath(path, Decimal(index)));
      assert items[index..][0] == items[index] && items[index..][1..] == items[index + 1..];
      if !item.Parsed? {
        return item;
      }
      PrependMore(parsed, item.value, ParseAll(env, spec, items[index + 1..], path, index + 1));
      parsed := parsed + [item.value];
    }
    assert items[|items|..] == [] && parsed + [] == parsed;
    r := Parsed(List(parsed));
  }

  method ParseMapEntries(env: Env, spec: Spec, entries: seq<(string, Value)>, path: string) returns (r: Parse)
    ensures r == match ParseAllEntries(env, spec, entries, path)
                 case AllEntries(all) => Parsed(Dict(all))
                 case StoppedAt(cause) => cause
    decreases spec, 1
  {
    var parsed: seq<(string, Value)> := [];
    assert entries[0..] == entries;
    for i := 0 to |entries|
      invariant ParseAllEntries(env, spec, entries, path)
             == PrependEntries(parsed, ParseAllEntries(env, spec, entries[i..], path))
    {
      var item := ParseOutputBundleValue(env, spec, entries[i].1, AppendValuePath(path, entries[i].0));
      assert entries[i..][0] == entries[i] && entries[i..][1..] == entries[i + 1..];
      if !item.Parsed? {
        return item;
      }
      PrependMoreEntries(parsed, (entries[i].0, item.value), ParseAllEntries(env, spec, entries[i + 1..], path));
      parsed := parsed + [(entries[i].0, item.value)];
    }
    assert entries[|entries|..] == [] && parsed + [] == parsed;
    r := Parsed(Dict(parsed));
  }

  lemma PrependMore(done: seq<Value>, v: Value, rest: ParseItems)
    ensures Prepend(done, Prepend([v], rest)) == Prepend(done + [v], rest)
  {
    if rest.AllParsed? {
      assert done + ([v] + rest.items) == (done + [v]) + rest.items;
    }
  }

  lemma PrependMoreEntries(done: seq<(string, Value)>, e: (string, Value), rest: ParseEntries)
    ensures PrependEntries(done, PrependEntries([e], rest)) == PrependEntries(done + [e], rest)
  {
    if rest.AllEntries? {
      assert done + ([e] + rest.entries) == (done + [e]) + rest.entries;
    }
  }

  // ---- What a parsed value is

  predicate AllFinite(v: Value) {
    match v
    case Float(number) => number.Finite?
    case List(items) => forall i :: 0 <= i < |items| ==> AllFinite(items[i])
    case Dict(entries) => forall i :: 0 <= i < |entries| ==> AllFinite(entries[i].1)
    case _ => true
  }

  /** `text` is the canonical name of a target inside the workspace and the declared root. */
  ghost predicate NamesTarget(fs: Files, text: string, under: string, mustExist: bool, target: seq<string>) {
    && fs.resolve(target) == target
    && Within(target, fs.workspace)
    && text == Posix(target[|fs.workspace|..])
    && (under != "" ==> ResolveIn(fs, under).Some? && Within(target, ResolveIn(fs, under).value))
    && (mustExist ==> fs.exists_(target))
  }

  /** The values of a type, written without the parser. */
  ghost predicate Conforms(env: Env, spec: Spec, v: Value)
    decreases spec
  {
    match spec
    case ValueType => AllFinite(v)
    case OptionalType(item) => v.Null? || (item.Some? && Conforms(env, item.value, v))
    case ListType(item) =>
      v.List? && item.Some? && forall i :: 0 <= i < |v.items| ==> Conforms(env, item.value, v.items[i])
    case MapType(item) =>
      v.Dict? && item.Some? && forall i :: 0 <= i < |v.entries| ==> Conforms(env, item.value, v.entries[i].1)
    case StringType => v.Str?
    case EnumType(allowed) => v.Str? && v.text in allowed
    case IntegerType => v.Int?
    case FloatType => v.Float?
    case BoolType => v.Bool?
    case RelpathType(under, mustExist) =>
      v.Str? && exists target :: NamesTarget(env.files, v.text, under, mustExist, target)
    case UnknownType => false
  }

  // ---- Soundness

  lemma {:induction false} CheckValueExact(v: Value, path: string)
    ensures CheckValue(v, path) == Parsed(v) || CheckValue(v, path).Violation?
    ensures CheckValue(v, path).Parsed? <==> AllFinite(v)
    decreases v, 1
  {
    match v
    case List(items) => CheckItemsExact(items, path, 0);
    case Dict(entries) => CheckEntriesExact(v, 0, path);
    case _ =>
  }

  lemma {:induction false} CheckItemsExact(items: seq<Value>, path: string, index: nat)
    ensures !CheckItems(items, path, index).Violation? <==> forall i :: 0 <= i < |items| ==> AllFinite(items[i])
    decreases items
  {
    if items != [] {
      CheckValueExact(items[0], AppendValuePath(path, Decimal(index)));
      CheckItemsExact(items[1..], path, index + 1);
      assert forall i :: 1 <= i < |items| ==> items[i] == items[1..][i - 1];
    }
  }

  lemma {:induction false} CheckEntriesExact(v: Value, i: nat, path: string)
    requires v.Dict? && i <= |v.entries|
    ensures !CheckEntries(v, i, path).Violation? <==> forall j :: i <= j < |v.entries| ==> AllFinite(v.entries[j].1)
    decreases v, 0, |v.entries| - i
  {
    if i < |v.entries| {
      CheckValueExact(v.entries[i].1, AppendValuePath(path, v.entries[i].0));
      CheckEntriesExact(v, i + 1, path);
    }
  }

  lemma PlaceIsCanonical(fs: Files, text: string, under: string, mustExist: bool)
    requires Sound(fs)
    ensures var p := PlaceOf(fs, text, under, mustExist);
            p.Place? ==>
              && fs.resolve(p.target) == p.target && Within(p.target, fs.workspace)
              && (under != "" ==> ResolveIn(fs, under).Some? && Within(p.target, ResolveIn(fs, under).value))
  {
  }

  lemma RelpathSound(env: Env, text: string, under: string, mustExist: bool)
    requires Sound(env.files)
    ensures ParseRelpath(env.files, text, under, mustExist) != Raises
    ensures var r := ParseRelpath(env.files, text, under, mustExist);
            r.Parsed? ==> Conforms(env, RelpathType(under, mustExist), r.value)
  {
    PlaceIsCanonical(env.files, text, under, mustExist);
    var place := PlaceOf(env.files, text, under, mustExist);
    if place.Place? && (mustExist ==> env.files.exists_(place.target)) {
      var name := Posix(place.target[|env.files.workspace|..]);
      assert NamesTarget(env.files, name, under, mustExist, place.target);
    }
  }

  /** An accepted result conforms to its type. */
  lemma {:induction false} ParseSound(env: Env, spec: Spec, raw: Value, path: string)
    requires Sound(env.files)
    ensures var r := ParseValue(env, spec, raw, path);
            r.Parsed? ==> Conforms(env, spec, r.value)
    decreases spec, 0
  {
    match spec
    case ValueType => CheckValueExact(raw, path);
    case OptionalType(item) =>
      if item.Some? {
        ParseSound(env, item.value, raw, path);
      }
    case ListType(item) =>
      if raw.List? && item.Some? {
        ParseAllSound(env, item.value, raw.items, path, 0);
        var all := ParseAll(env, item.value, raw.items, path, 0);
        if all.AllParsed? {
          assert ParseValue(env, spec, raw, path) == Parsed(List(all.items));
        }
      }
    case MapType(item) =>
      if raw.Dict? && item.Some? {
        ParseAllEntriesSound(env, item.value, raw.entries, path);
        var all := ParseAllEntries(env, item.value, raw.entries, path);
        if all.AllEntries? {
          assert ParseValue(env, spec, raw, path) == Parsed(Dict(all.entries));
        }
      }
    case RelpathType(under, mustExist) =>
      if raw.Str? {
        RelpathSound(env, raw.text, under, mustExist);
      }
    case _ =>
  }

  lemma {:induction false} ParseAllSound(env: Env, spec: Spec, items: seq<Value>, path: string, index: nat)
    requires Sound(env.files)
    ensures var r := ParseAll(env, spec, items, path, index);
            r.AllParsed? ==> |r.items| == |items| && forall i :: 0 <= i < |items| ==> Conforms(env, spec, r.items[i])
    ensures var r := ParseAll(env, spec, items, path, index);
            r.Stopped? ==> !r.cause.Parsed?
    decreases spec, 1, |items|
  {
    if items != [] {
      ParseSound(env, spec, items[0], AppendValuePath(path, Decimal(index)));
      ParseAllSound(env, spec, items[1..], path, index + 1);
    }
  }

  /** Maps keep their keys, in order. */
  lemma {:induction false} ParseAllEntriesSound(env: Env, spec: Spec, entries: seq<(string, Value)>, path: string)
    requires Sound(env.files)
    ensures var r := ParseAllEntries(env, spec, entries, path);
            r.AllEntries? ==>
              && |r.entries| == |entries|
              && forall i :: 0 <= i < |entries| ==>
                   r.entries[i].0 == entries[i].0 && Conforms(env, spec, r.entries[i].1)
    ensures var r := ParseAllEntries(env, spec, entries, path);
            r.StoppedAt? ==> !r.cause.Parsed?
    decreases spec, 1, |entries|
  {
    if entries != [] {
      ParseSound(env, spec, entries[0].1, AppendValuePath(path, entries[0].0));
      ParseAllEntriesSound(env, spec, entries[1..], path);
    }
  }

  // ---- Conforming values are exactly the fixpoints of the parser

  lemma RelpathFixpoint(env: Env, text: string, under: string, mustExist: bool, target: seq<string>)
    requires Sound(env.files) && NamesTarget(env.files, text, under, mustExist, target)
    ensures ParseRelpath(env.files, text, under, mustExist) == Parsed(Str(text))
  {
    RelativeRoundTrip(env.files, target);
    var parts := target[|env.files.workspace|..];
    PosixRoundTrip(parts);
    assert ".." !in parts;
    assert PlaceOf(env.files, text, under, mustExist) == Place(target);
  }

  lemma {:induction false} ConformingIsFixpoint(env: Env, spec: Spec, v: Value, path: string)
    requires Sound(env.files) && Conforms(env, spec, v)
    ensures ParseValue(env, spec, v, path) == Parsed(v)
    decreases spec, 0
  {
    match spec
    case ValueType => CheckValueExact(v, path);
    case OptionalType(item) =>
      if !v.Null? {
        ConformingIsFixpoint(env, item.value, v, path);
      }
    case ListType(item) => ConformingItems(env, item.value, v.items, path, 0);
    case MapType(item) => ConformingEntries(env, item.value, v.entries, path);
    case RelpathType(under, mustExist) =>
      var target :| NamesTarget(env.files, v.text, under, mustExist, target);
      RelpathFixpoint(env, v.text, under, mustExist, target);
    case _ =>
  }

  lemma {:induction false} ConformingItems(env: Env, spec: Spec, items: seq<Value>, path: string, index: nat)
    requires Sound(env.files) && forall i :: 0 <= i < |items| ==> Conforms(env, spec, items[i])
    ensures ParseAll(env, spec, items, path, index) == AllParsed(items)
    decreases spec, 1, |items|
  {
    if items != [] {
      ConformingIsFixpoint(env, spec, items[0], AppendValuePath(path, Decimal(index)));
      ConformingItems(env, spec, items[1..], path, index + 1);
      ItemsUnchanged(env, spec, items, path, index);
    }
  }

  lemma ItemsUnchanged(env: Env, spec: Spec, items: seq<Value>, path: string, index: nat)
    requires items != []
    requires ParseValue(env, spec, items[0], AppendValuePath(path, Decimal(index))) == Parsed(items[0])
    requires ParseAll(env, spec, items[1..], path, index + 1) == AllParsed(items[1..])
    ensures ParseAll(env, spec, items, path, index) == AllParsed(items)
  {
    ParseAllUnfolds(env, spec, items, path, index);
    assert [items[0]] + items[1..] == items;
  }

  /** The loop over items, one item at a time. */
  lemma ParseAllUnfolds(env: Env, spec: Spec, items: seq<Value>, path: string, index: nat)
    requires items != []
    ensures var first := ParseValue(env, spec, items[0], AppendValuePath(path, Decimal(index)));
            ParseAll(env, spec, items, path, index) ==
              if first.Parsed? then Prepend([first.value], ParseAll(env, spec, items[1..], path, index + 1)) else Stopped(first)
  {
  }

  lemma ParseEntriesUnfolds(env: Env, spec: Spec, entries: seq<(string, Value)>, path: string)
    requires entries != []
    ensures var first := ParseValue(env, spec, entries[0].1, AppendValuePath(path, entries[0].0));
            ParseAllEntries(env, spec, entries, path) ==
              if first.Parsed? then PrependEntries([(entries[0].0, first.value)], ParseAllEntries(env, spec, entries[1..], path))
              else StoppedAt(first)
  {
  }

  lemma {:induction false} ConformingEntries(env: Env, spec: Spec, entries: seq<(string, Value)>, path: string)
    requires Sound(env.files) && forall i :: 0 <= i < |entries| ==> Conforms(env, spec, entries[i].1)
    ensures ParseAllEntries(env, spec, entries, path) == AllEntries(entries)
    decreases spec, 1, |entries|
  {
    if entries != [] {
      ConformingIsFixpoint(env, spec, entries[0].1, AppendValuePath(path, entries[0].0));
      ConformingEntries(env, spec, entries[1..], path);
      ParseEntriesUnfolds(env, spec, entries, path);
      assert [(entries[0].0, entries[0].1)] + entries[1..] == entries;
    }
  }

  /** A value conforms exactly when parsing returns it unchanged. */
  lemma ConformsIffFixpoint(env: Env, spec: Spec, v: Value, path: string)
    requires Sound(env.files)
    ensures Conforms(env, spec, v) <==> ParseValue(env, spec, v, path) == Parsed(v)
  {
    ParseSound(env, spec, v, path);
    if Conforms(env, spec, v) {
      ConformingIsFixpoint(env, spec, v, path);
    }
  }

  /** Parsing a parsed result again, under the same contract and files, changes nothing. */
  lemma ParseIdempotent(env: Env, spec: Spec, raw: Value, path: string)
    requires Sound(env.files) && ParseValue(env, spec, raw, path).Parsed?
    ensures var v := ParseValue(env, spec, raw, path).value;
            ParseValue(env, spec, v, path) == Parsed(v)
  {
    ParseSound(env, spec, raw, path);
    ConformingIsFixpoint(env, spec, ParseValue(env, spec, raw, path).value, path);
  }

  // ---- The reported value path

  /** Steps to a number outside the JSON domain, whose path is the reported one. */
  ghost predicate PointsAt(v: Value, base: string, path: string, steps: seq<Step>) {
    && path == PointerFrom(base, steps)
    && SubValue(v, steps).Some?
    && SubValue(v, steps).value.Float?
    && !SubValue(v, steps).value.number.Finite?
  }

  lemma PointsAtItem(items: seq<Value>, i: nat, base: string, path: string, steps: seq<Step>)
    requires i < |items| && PointsAt(items[i], AppendValuePath(base, Decimal(i)), path, steps)
    ensures PointsAt(List(items), base, path, [Index(i)] + steps)
  {
    assert ([Index(i)] + steps)[1..] == steps;
  }

  lemma {:induction false} LookupIsEntry(entries: seq<(string, Value)>, i: nat)
    requires i < |entries| && forall j, k :: 0 <= j < k < |entries| ==> entries[j].0 != entries[k].0
    ensures Lookup(entries, entries[i].0) == Some(entries[i].1)
  {
    if i > 0 {
      LookupIsEntry(entries[1..], i - 1);
    }
  }

  lemma PointsAtEntry(entries: seq<(string, Value)>, i: nat, base: string, path: string, steps: seq<Step>)
    requires i < |entries| && forall j, k :: 0 <= j < k < |entries| ==> entries[j].0 != entries[k].0
    requires PointsAt(entries[i].1, AppendValuePath(base, entries[i].0), path, steps)
    ensures PointsAt(Dict(entries), base, path, [Key(entries[i].0)] + steps)
  {
    LookupIsEntry(entries, i);
    assert ([Key(entries[i].0)] + steps)[1..] == steps;
  }

  /** Decoded dictionaries have no repeated keys, at any depth. */
  predicate KeysUnique(v: Value) {
    match v
    case List(items) => forall i :: 0 <= i < |items| ==> KeysUnique(items[i])
    case Dict(entries) =>
      && (forall j, k :: 0 <= j < k < |entries| ==> entries[j].0 != entries[k].0)
      && (forall i :: 0 <= i < |entries| ==> KeysUnique(entries[i].1))
    case _ => true
  }

  lemma {:induction false} CheckValuePoints(v: Value, base: string) returns (steps: seq<Step>)
    requires KeysUnique(v) && CheckValue(v, base).Violation?
    ensures PointsAt(v, base, CheckValue(v, base).path, steps)
    ensures CheckValue(v, base).kind == InvalidTransportable
    decreases v, 1
  {
    match v
    case List(items) =>
      var i, rest := CheckItemsPoints(items, base, 0);
      PointsAtItem(items, i, base, CheckValue(v, base).path, rest);
      steps := [Index(i)] + rest;
    case Dict(entries) =>
      var i, rest := CheckEntriesPoints(v, 0, base);
      PointsAtEntry(entries, i, base, CheckValue(v, base).path, rest);
      steps := [Key(entries[i].0)] + rest;
    case _ => steps := [];
  }

  lemma {:induction false} CheckItemsPoints(items: seq<Value>, base: string, index: nat)
    returns (i: nat, steps: seq<Step>)
    requires forall j :: 0 <= j < |items| ==> KeysUnique(items[j])
    requires CheckItems(items, base, index).Violation?
    ensures i < |items|
    ensures PointsAt(items[i], AppendValuePath(base, Decimal(index + i)), CheckItems(items, base, index).path, steps)
    ensures CheckItems(items, base, index).kind == InvalidTransportable
    decreases items
  {
    if CheckValue(items[0], AppendValuePath(base, Decimal(index))).Violation? {
      i := 0;
      steps := CheckValuePoints(items[0], AppendValuePath(base, Decimal(index)));
    } else {
      var j;
      j, steps := CheckItemsPoints(items[1..], base, index + 1);
      i := j + 1;
      assert index + 1 + j == index + i;
    }
  }

  lemma {:induction false} CheckEntriesPoints(v: Value, i: nat, base: string)
    returns (k: nat, steps: seq<Step>)
    requires v.Dict? && i <= |v.entries| && KeysUnique(v)
    requires CheckEntries(v, i, base).Violation?
    ensures k < |v.entries|
    ensures PointsAt(v.entries[k].1, AppendValuePath(base, v.entries[k].0), CheckEntries(v, i, base).path, steps)
    ensures CheckEntries(v, i, base).kind == InvalidTransportable
    decreases v, 0, |v.entries| - i
  {
    if CheckValue(v.entries[i].1, AppendValuePath(base, v.entries[i].0)).Violation? {
      k := i;
      steps := CheckValuePoints(v.entries[i].1, AppendValuePath(base, v.entries[i].0));
    } else {
      k, steps := CheckEntriesPoints(v, i + 1, base);
    }
  }

  /** The parser passes the path down through optional, list and map types. */
  lemma {:induction false} ParsePoints(env: Env, spec: Spec, raw: Value, base: string) returns (steps: seq<Step>)
    requires KeysUnique(raw)
    requires var r := ParseValue(env, spec, raw, base); r.Violation? && r.kind == InvalidTransportable
    ensures PointsAt(raw, base, ParseValue(env, spec, raw, base).path, steps)
    decreases spec, 0
  {
    match spec
    case ValueType => steps := CheckValuePoints(raw, base);
    case OptionalType(item) => steps := ParsePoints(env, item.value, raw, base);
    case ListType(item) =>
      var i, rest := ParseAllPoints(env, item.value, raw.items, base, 0);
      PointsAtItem(raw.items, i, base, ParseValue(env, spec, raw, base).path, rest);
      steps := [Index(i)] + rest;
    case MapType(item) =>
      var i, rest := ParseEntriesPoints(env, item.value, raw.entries, base);
      PointsAtEntry(raw.entries, i, base, ParseValue(env, spec, raw, base).path, rest);
      steps := [Key(raw.entries[i].0)] + rest;
    case _ => assert false;
  }

  lemma {:induction false} ParseAllPoints(env: Env, spec: Spec, items: seq<Value>, base: string, index: nat)
    returns (i: nat, steps: seq<Step>)
    requires forall j :: 0 <= j < |items| ==> KeysUnique(items[j])
    requires var r := ParseAll(env, spec, items, base, index);
             r.Stopped? && r.cause.Violation? && r.cause.kind == InvalidTransportable
    ensures i < |items|
    ensures PointsAt(items[i], AppendValuePath(base, Decimal(index + i)), ParseAll(env, spec, items, base, index).cause.path, steps)
    decreases spec, 1, |items|
  {
    ParseAllUnfolds(env, spec, items, base, index);
    if ParseValue(env, spec, items[0], AppendValuePath(base, Decimal(index))).Parsed? {
      var j;
      j, steps := ParseAllPoints(env, spec, items[1..], base, index + 1);
      i := j + 1;
      assert index + 1 + j == index + i;
    } else {
      i := 0;
      steps := ParsePoints(env, spec, items[0], AppendValuePath(base, Decimal(index)));
    }
  }

  lemma {:induction false} ParseEntriesPoints(env: Env, spec: Spec, entries: seq<(string, Value)>, base: string)
    returns (i: nat, steps: seq<Step>)
    requires forall j :: 0 <= j < |entries| ==> KeysUnique(entries[j].1)
    requires var r := ParseAllEntries(env, spec, entries, base);
             r.StoppedAt? && r.cause.Violation? && r.cause.kind == InvalidTransportable
    ensures i < |entries|
    ensures PointsAt(entries[i].1, AppendValuePath(base, entries[i].0), ParseAllEntries(env, spec, entries, base).cause.path, steps)
    decreases spec, 1, |entries|
  {
    ParseEntriesUnfolds(env, spec, entries, base);
    if ParseValue(env, spec, entries[0].1, AppendValuePath(base, entries[0].0)).Parsed? {
      var j;
      j, steps := ParseEntriesPoints(env, spec, entries[1..], base);
      i := j + 1;
    } else {
      i := 0;
      steps := ParsePoints(env, spec, entries[0].1, AppendValuePath(base, entries[0].0));
    }
  }

  /** Under every contract, however nested, the value path reported for a value outside the JSON domain resolves in the
      parsed value to a number that is not finite. */
  lemma RejectedPathResolves(env: Env, spec: Spec, raw: Value)
    requires KeysUnique(raw)
    requires var r := ParseValue(env, spec, raw, ""); r.Violation? && r.kind == InvalidTransportable
    ensures var found := Resolve(raw, ParseValue(env, spec, raw, "").path);
            found.Some? && found.value.Float? && !found.value.number.Finite?
  {
    var steps := ParsePoints(env, spec, raw, "");
    PointerRoundTrip(raw, steps);
  }

  // ---- What a raw value means under a type

  /** The text spells the word, up to the case of ASCII letters. */
  predicate Spells(text: string, word: string) {
    |text| == |word| && forall i :: 0 <= i < |text| ==> text[i] == word[i] || ('A' <= text[i] <= 'Z' && text[i] as int + 32 == word[i] as int)
  }

  /** The target of a relative path: resolved in the workspace or, if that is not under the declared root, in the root. */
  ghost predicate Denotes(fs: Files, text: string, under: string, mustExist: bool, target: seq<string>) {
    && text != "" && !Absolute(text) && ".." !in Parts(text)
    && Within(target, fs.workspace) && (mustExist ==> fs.exists_(target))
    && var direct := fs.resolve(fs.workspace + Parts(text));
       && Within(direct, fs.workspace)
       && (if under == "" then target == direct
           else
             && ResolveIn(fs, under).Some?
             && var root := ResolveIn(fs, under).value;
                if Within(direct, root) then target == direct
                else target == fs.resolve(root + Parts(text)) && Within(target, root) && (|Parts(text)| <= 1 || mustExist))
  }

  /** The value that a raw value stands for under a type, element by element and without a parser. */
  ghost predicate Means(env: Env, spec: Spec, raw: Value, v: Value)
    decreases spec
  {
    match spec
    case ValueType => v == raw && AllFinite(raw)
    case OptionalType(item) => if raw.Null? then v.Null? else item.Some? && Means(env, item.value, raw, v)
    case ListType(item) =>
      && raw.List? && v.List? && item.Some? && |v.items| == |raw.items|
      && forall i :: 0 <= i < |raw.items| ==> Means(env, item.value, raw.items[i], v.items[i])
    case MapType(item) =>
      && raw.Dict? && v.Dict? && item.Some? && |v.entries| == |raw.entries|
      && forall i :: 0 <= i < |raw.entries| ==>
           v.entries[i].0 == raw.entries[i].0 && Means(env, item.value, raw.entries[i].1, v.entries[i].1)
    case StringType => raw.Str? && v == raw
    case EnumType(allowed) => raw.Str? && raw.text in allowed && v == raw
    case IntegerType => v.Int? && (raw == v || (raw.Str? && ParseInt(raw.text) == Some(v.integer)))
    case FloatType =>
      && v.Float?
      && (|| raw == v
          || (raw.Int? && env.floatOfInt(raw.integer) == Some(v.number))
          || (raw.Str? && env.floatOfText(raw.text) == Some(v.number)))
    case BoolType => v.Bool? && (raw == v || (raw.Str? && Spells(raw.text, if v.flag then "true" else "false")))
    case RelpathType(under, mustExist) =>
      && raw.Str? && v.Str?
      && exists target :: Denotes(env.files, raw.text, under, mustExist, target) && v.text == Posix(target[|env.files.workspace|..])
    case UnknownType => false
  }

  lemma {:induction false} LowerSpells(text: string, word: string)
    requires forall i :: 0 <= i < |word| ==> 'a' <= word[i] <= 'z'
    ensures Lower(text) == word <==> Spells(text, word)
  {
    if text != [] && word != [] {
      LowerSpells(text[1..], word[1..]);
      var first := Lower(text)[0];
      assert Lower(text) == [first] + Lower(text[1..]) && word == [word[0]] + word[1..];
      assert first == word[0] <==> text[0] == word[0] || ('A' <= text[0] <= 'Z' && text[0] as int + 32 == word[0] as int);
      assert Lower(text) == word <==> first == word[0] && Lower(text[1..]) == word[1..] by {
        if Lower(text) == word {
          assert Lower(text)[1..] == Lower(text[1..]);
        }
      }
      assert Spells(text, word) <==> (text[0] == word[0] || ('A' <= text[0] <= 'Z' && text[0] as int + 32 == word[0] as int))
                                     && Spells(text[1..], word[1..]) by {
        assert forall i :: 1 <= i < |text| ==> text[i] == text[1..][i - 1];
        assert forall i :: 1 <= i < |word| ==> word[i] == word[1..][i - 1];
      }
    }
  }

  lemma BoolExactly(raw: Value, flag: bool)
    ensures ParseBool(raw) == Some(flag) <==> raw == Bool(flag) || (raw.Str? && Spells(raw.text, if flag then "true" else "false"))
  {
    if raw.Str? {
      LowerSpells(raw.text, "true");
      LowerSpells(raw.text, "false");
    }
  }

  lemma RelpathExactly(fs: Files, text: string, under: string, mustExist: bool, v: Value)
    ensures ParseRelpath(fs, text, under, mustExist) == Parsed(v) <==>
              v.Str? && exists target :: Denotes(fs, text, under, mustExist, target) && v.text == Posix(target[|fs.workspace|..])
  {
    var place := PlaceOf(fs, text, under, mustExist);
    if target :| Denotes(fs, text, under, mustExist, target) && v.Str? && v.text == Posix(target[|fs.workspace|..]) {
      assert place == Place(target);
    }
    if place.Place? && (mustExist ==> fs.exists_(place.target)) && Within(place.target, fs.workspace) {
      assert Denotes(fs, text, under, mustExist, place.target);
    }
  }

  /** Parsing succeeds exactly on the values that mean something under the type, with what they mean as the result. */
  lemma {:induction false} ParseExactly(env: Env, spec: Spec, raw: Value, path: string, v: Value)
    ensures ParseValue(env, spec, raw, path) == Parsed(v) <==> Means(env, spec, raw, v)
    decreases spec, 1
  {
    match spec
    case OptionalType(item) =>
      if item.Some? {
        ParseExactly(env, item.value, raw, path, v);
      }
    case ListType(item) => ListExactly(env, spec, raw, path, v);
    case MapType(item) => MapExactly(env, spec, raw, path, v);
    case RelpathType(under, mustExist) =>
      if raw.Str? {
        RelpathExactly(env.files, raw.text, under, mustExist, v);
      }
    case _ => PlainExactly(env, spec, raw, path, v);
  }

  lemma PlainExactly(env: Env, spec: Spec, raw: Value, path: string, v: Value)
    requires !spec.OptionalType? && !spec.ListType? && !spec.MapType? && !spec.RelpathType?
    ensures ParseValue(env, spec, raw, path) == Parsed(v) <==> Means(env, spec, raw, v)
  {
    match spec
    case ValueType => CheckValueExact(raw, path);
    case BoolType =>
      if v.Bool? {
        BoolExactly(raw, v.flag);
      }
    case _ =>
  }

  lemma {:induction false} ListExactly(env: Env, spec: Spec, raw: Value, path: string, v: Value)
    requires spec.ListType?
    ensures ParseValue(env, spec, raw, path) == Parsed(v) <==> Means(env, spec, raw, v)
    decreases spec, 0
  {
    if raw.List? && spec.item.Some? {
      StoppedIsNoResult(env, spec.item.value, raw.items, path, 0);
      if v.List? {
        ItemsExactly(env, spec.item.value, raw.items, path, 0, v.items);
        assert MeansAll(env, spec.item.value, raw.items, v.items) <==> Means(env, spec, raw, v);
      }
    }
  }

  lemma {:induction false} MapExactly(env: Env, spec: Spec, raw: Value, path: string, v: Value)
    requires spec.MapType?
    ensures ParseValue(env, spec, raw, path) == Parsed(v) <==> Means(env, spec, raw, v)
    decreases spec, 0
  {
    if raw.Dict? && spec.item.Some? {
      StoppedAtIsNoResult(env, spec.item.value, raw.entries, path);
      if v.Dict? {
        EntriesExactly(env, spec.item.value, raw.entries, path, v.entries);
        assert MeansEntries(env, spec.item.value, raw.entries, v.entries) <==> Means(env, spec, raw, v);
      }
    }
  }

  lemma {:induction false} StoppedIsNoResult(env: Env, spec: Spec, items: seq<Value>, path: string, index: nat)
    ensures var r := ParseAll(env, spec, items, path, index); r.Stopped? ==> !r.cause.Parsed?
    decreases |items|
  {
    if items != [] {
      ParseAllUnfolds(env, spec, items, path, index);
      StoppedIsNoResult(env, spec, items[1..], path, index + 1);
    }
  }

  lemma {:induction false} StoppedAtIsNoResult(env: Env, spec: Spec, entries: seq<(string, Value)>, path: string)
    ensures var r := ParseAllEntries(env, spec, entries, path); r.StoppedAt? ==> !r.cause.Parsed?
    decreases |entries|
  {
    if entries != [] {
      ParseEntriesUnfolds(env, spec, entries, path);
      StoppedAtIsNoResult(env, spec, entries[1..], path);
    }
  }

  ghost predicate MeansAll(env: Env, spec: Spec, items: seq<Value>, out: seq<Value>) {
    |out| == |items| && forall i :: 0 <= i < |items| ==> Means(env, spec, items[i], out[i])
  }

  lemma {:induction false} ItemsExactly(env: Env, spec: Spec, items: seq<Value>, path: string, index: nat, out: seq<Value>)
    ensures ParseAll(env, spec, items, path, index) == AllParsed(out) <==> MeansAll(env, spec, items, out)
    decreases spec, 2, |items|
  {
    if items != [] {
      ParseAllUnfolds(env, spec, items, path, index);
      if out != [] {
        ParseExactly(env, spec, items[0], AppendValuePath(path, Decimal(index)), out[0]);
        ItemsExactly(env, spec, items[1..], path, index + 1, out[1..]);
        MeansAllCons(env, spec, items, out);
        assert out == [out[0]] + out[1..];
      }
    }
  }

  lemma MeansAllCons(env: Env, spec: Spec, items: seq<Value>, out: seq<Value>)
    requires items != [] && out != []
    ensures MeansAll(env, spec, items, out) <==> Means(env, spec, items[0], out[0]) && MeansAll(env, spec, items[1..], out[1..])
  {
    if Means(env, spec, items[0], out[0]) && MeansAll(env, spec, items[1..], out[1..]) {
      forall i | 0 <= i < |items|
        ensures Means(env, spec, items[i], out[i])
      {
        if i > 0 {
          assert items[i] == items[1..][i - 1] && out[i] == out[1..][i - 1];
        }
      }
    }
  }

  ghost predicate MeansEntries(env: Env, spec: Spec, entries: seq<(string, Value)>, out: seq<(string, Value)>) {
    |out| == |entries| && forall i :: 0 <= i < |entries| ==> out[i].0 == entries[i].0 && Means(env, spec, entries[i].1, out[i].1)
  }

  lemma {:induction false} EntriesExactly(env: Env, spec: Spec, entries: seq<(string, Value)>, path: string, out: seq<(string, Value)>)
    ensures ParseAllEntries(env, spec, entries, path) == AllEntries(out) <==> MeansEntries(env, spec, entries, out)
    decreases spec, 2, |entries|
  {
    if entries != [] {
      ParseEntriesUnfolds(env, spec, entries, path);
      if out != [] {
        ParseExactly(env, spec, entries[0].1, AppendValuePath(path, entries[0].0), out[0].1);
        EntriesExactly(env, spec, entries[1..], path, out[1..]);
        MeansEntriesCons(env, spec, entries, out);
        assert out == [out[0]] + out[1..];
      }
    }
  }

  lemma MeansEntriesCons(env: Env, spec: Spec, entries: seq<(string, Value)>, out: seq<(string, Value)>)
    requires entries != [] && out != []
    ensures MeansEntries(env, spec, entries, out) <==>
              out[0].0 == entries[0].0 && Means(env, spec, entries[0].1, out[0].1) && MeansEntries(env, spec, entries[1..], out[1..])
  {
    if out[0].0 == entries[0].0 && Means(env, spec, entries[0].1, out[0].1) && MeansEntries(env, spec, entries[1..], out[1..]) {
      forall i | 0 <= i < |entries|
        ensures out[i].0 == entries[i].0 && Means(env, spec, entries[i].1, out[i].1)
      {
        if i > 0 {
          assert entries[i] == entries[1..][i - 1] && out[i] == out[1..][i - 1];
        }
      }
    }
  }
}
