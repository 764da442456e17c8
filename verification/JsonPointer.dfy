/** Decoded JSON documents, value paths and their resolution (sections 3 and 4 of RFC 6901). */
module JsonPointer {
  import opened Text

  datatype Number = Finite(value: real) | PositiveInfinity | NegativeInfinity | NotANumber

  /** A decoded document; a dictionary keeps its entries in insertion order. */
  datatype Value =
    | Null
    | Bool(flag: bool)
    | Int(integer: int)
    | Float(number: Number)
    | Str(text: string)
    | List(items: seq<Value>)
    | Dict(entries: seq<(string, Value)>)

  /** One step down: a dictionary key or a list index. */
  datatype Step = Key(key: string) | Index(index: nat)

  // ---- Escaping

  function ReplaceChar(s: string, c: char, text: string): string {
    if s == [] then [] else (if s[0] == c then text else [s[0]]) + ReplaceChar(s[1..], c, text)
  }

  /** Replace the two characters `a`, `b` by `c`, left to right. */
  function ReplacePair(s: string, a: char, b: char, c: char): string {
    if s == [] then []
    else if |s| >= 2 && s[0] == a && s[1] == b then [c] + ReplacePair(s[2..], a, b, c)
    else [s[0]] + ReplacePair(s[1..], a, b, c)
  }

  function Escape(token: string): string {
    ReplaceChar(ReplaceChar(token, '~', "~0"), '/', "~1")
  }

  function Unescape(raw: string): string {
    ReplacePair(ReplacePair(raw, '~', '1', '/'), '~', '0', '~')
  }

  lemma {:induction false} EscapeCons(c: char, rest: string)
    ensures Escape([c] + rest) == (if c == '~' then "~0" else if c == '/' then "~1" else [c]) + Escape(rest)
  {
    assert ([c] + rest)[1..] == rest;
    var inner := ReplaceChar(rest, '~', "~0");
    if c == '~' {
      assert ReplaceChar([c] + rest, '~', "~0") == "~0" + inner;
      assert ("~0" + inner)[1..] == "0" + inner && ("0" + inner)[1..] == inner;
      assert ReplaceChar("0" + inner, '/', "~1") == "0" + ReplaceChar(inner, '/', "~1");
      assert ReplaceChar("~0" + inner, '/', "~1") == "~" + ("0" + ReplaceChar(inner, '/', "~1"));
    } else {
      assert ReplaceChar([c] + rest, '~', "~0") == [c] + inner;
      assert ([c] + inner)[1..] == inner;
    }
  }

  lemma {:induction false} EscapeHidesSlash(token: string)
    ensures '/' !in Escape(token)
  {
    if token != [] {
      EscapeHidesSlash(token[1..]);
      EscapeCons(token[0], token[1..]);
      assert token == [token[0]] + token[1..];
    }
  }

  /** After the first pass of unescaping only tildes are still written as "~0". */
  lemma {:induction false} FirstPass(token: string)
    ensures ReplacePair(Escape(token), '~', '1', '/') == ReplaceChar(token, '~', "~0")
  {
    if token != [] {
      var c, rest := token[0], token[1..];
      assert token == [c] + rest;
      FirstPass(rest);
      EscapeCons(c, rest);
      var e := Escape(rest);
      if c == '~' {
        assert ("~0" + e)[1..] == "0" + e && ("0" + e)[1..] == e;
        assert ReplacePair("0" + e, '~', '1', '/') == "0" + ReplacePair(e, '~', '1', '/');
        assert ReplacePair("~0" + e, '~', '1', '/') == "~" + ("0" + ReplacePair(e, '~', '1', '/'));
      } else if c == '/' {
        assert ("~1" + e)[2..] == e;
      } else {
        assert ([c] + e)[1..] == e;
      }
    }
  }

  lemma {:induction false} SecondPass(token: string)
    ensures ReplacePair(ReplaceChar(token, '~', "~0"), '~', '0', '~') == token
  {
    if token != [] {
      var c, rest := token[0], token[1..];
      SecondPass(rest);
      var e := ReplaceChar(rest, '~', "~0");
      if c == '~' {
        assert ("~0" + e)[2..] == e;
      } else {
        assert ([c] + e)[1..] == e;
      }
      assert token == [c] + rest;
    }
  }

  /** Unescaping undoes escaping, also for keys with "~" and "/". */
  lemma UnescapeEscape(token: string)
    ensures Unescape(Escape(token)) == token
  {
    FirstPass(token);
    SecondPass(token);
  }

  // ---- Building and reading pointers

  /** `_append_value_path`. */
  function AppendValuePath(path: string, token: string): string {
    path + "/" + Escape(token)
  }

  function Token(step: Step): string {
    match step
    case Key(key) => key
    case Index(index) => Decimal(index)
  }

  /** The path that repeated `AppendValuePath` builds for these steps. */
  function PointerFrom(path: string, steps: seq<Step>): string
    decreases |steps|
  {
    if steps == [] then path else PointerFrom(AppendValuePath(path, Token(steps[0])), steps[1..])
  }

  function EscapedTokens(steps: seq<Step>): (t: seq<string>)
    ensures |t| == |steps|
  {
    if steps == [] then [] else [Escape(Token(steps[0]))] + EscapedTokens(steps[1..])
  }

  lemma {:induction false} SplitAppend(s: string, token: string, separator: char)
    requires separator !in token
    ensures Split(s + [separator] + token, separator) == Split(s, separator) + [token]
  {
    var all := s + [separator] + token;
    if s == [] {
      assert all == [] + [separator] + token;
      SplitPrepend([], token, separator);
      SplitToken(token, separator);
    } else {
      SplitAppend(s[1..], token, separator);
      assert all[1..] == s[1..] + [separator] + token;
      var rest := Split(s[1..], separator);
      assert Split(all[1..], separator) == rest + [token];
      assert (rest + [token])[0] == rest[0] && (rest + [token])[1..] == rest[1..] + [token];
    }
  }

  lemma {:induction false} PointerFromTokens(path: string, tokens: seq<string>, steps: seq<Step>)
    requires |path| > 0 && path[0] == '/' && Split(path[1..], '/') == tokens
    ensures var p := PointerFrom(path, steps);
            |p| > 0 && p[0] == '/' && Split(p[1..], '/') == tokens + EscapedTokens(steps)
    decreases |steps|
  {
    if steps == [] {
      assert tokens + [] == tokens;
    } else {
      var e := Escape(Token(steps[0]));
      AppendedTokens(path, Token(steps[0]), tokens);
      PointerFromTokens(AppendValuePath(path, Token(steps[0])), tokens + [e], steps[1..]);
      TokensRegroup(tokens, e, EscapedTokens(steps[1..]));
    }
  }

  lemma AppendedTokens(path: string, token: string, tokens: seq<string>)
    requires |path| > 0 && path[0] == '/' && Split(path[1..], '/') == tokens
    ensures var longer := AppendValuePath(path, token);
            |longer| > 0 && longer[0] == '/' && Split(longer[1..], '/') == tokens + [Escape(token)]
  {
    EscapeHidesSlash(token);
    assert AppendValuePath(path, token)[1..] == path[1..] + ['/'] + Escape(token);
    SplitAppend(path[1..], Escape(token), '/');
  }

  lemma TokensRegroup(a: seq<string>, e: string, rest: seq<string>)
    ensures (a + [e]) + rest == a + ([e] + rest)
  {
  }

  /** A built pointer splits back into its escaped tokens. */
  lemma PointerTokens(steps: seq<Step>)
    requires steps != []
    ensures var p := PointerFrom("", steps);
            |p| > 0 && p[0] == '/' && Split(p[1..], '/') == EscapedTokens(steps)
  {
    var e := Escape(Token(steps[0]));
    EscapeHidesSlash(Token(steps[0]));
    var first := AppendValuePath("", Token(steps[0]));
    assert first[1..] == e;
    SplitToken(e, '/');
    PointerFromTokens(first, [e], steps[1..]);
    assert [e] + EscapedTokens(steps[1..]) == EscapedTokens(steps);
  }

  // ---- Resolution in a document

  function Lookup(entries: seq<(string, Value)>, key: string): Option<Value> {
    if entries == [] then None
    else if entries[0].0 == key then Some(entries[0].1)
    else Lookup(entries[1..], key)
  }

  /** One token of `_resolve_json_pointer`. */
  function Descend(current: Value, token: string): Option<Value> {
    match current
    case Dict(entries) => Lookup(entries, token)
    case List(items) =>
      if token == "-" then None
      else
        (match ParseInt(token)
         case None => None
         case Some(index) => if 0 <= index < |items| then Some(items[index]) else None)
    case _ => None
  }

  function DescendAll(current: Value, rawTokens: seq<string>): Option<Value>
    decreases |rawTokens|
  {
    if rawTokens == [] then Some(current)
    else
      match Descend(current, Unescape(rawTokens[0]))
      case None => None
      case Some(next) => DescendAll(next, rawTokens[1..])
  }

  function Resolve(document: Value, pointer: string): Option<Value> {
    if pointer == "" then Some(document)
    else if pointer[0] != '/' then None
    else DescendAll(document, Split(pointer[1..], '/'))
  }

  /** `_resolve_json_pointer`. */
  method ResolveJsonPointer(document: Value, pointer: string) returns (found: bool, value: Value)
    ensures found <==> Resolve(document, pointer).Some?
    ensures found ==> Resolve(document, pointer) == Some(value)
  {
    if pointer == "" {
      return true, document;
    }
    if pointer[0] != '/' {
      return false, Null;
    }
    var tokens := Split(pointer[1..], '/');
    var current := document;
    assert tokens[0..] == tokens;
    for i := 0 to |tokens|
      invariant DescendAll(current, tokens[i..]) == DescendAll(document, tokens)
    {
      var next := Descend(current, Unescape(tokens[i]));
      assert tokens[i..][1..] == tokens[i + 1..];
      if next.None? {
        return false, Null;
      }
      current := next.value;
    }
    return true, current;
  }

  /** The sub-value at a path of steps. */
  function SubValue(v: Value, steps: seq<Step>): Option<Value>
    decreases |steps|
  {
    if steps == [] then Some(v)
    else
      match (v, steps[0])
      case (Dict(entries), Key(key)) =>
        (match Lookup(entries, key) case None => None case Some(next) => SubValue(next, steps[1..]))
      case (List(items), Index(index)) =>
        if index < |items| then SubValue(items[index], steps[1..]) else None
      case _ => None
  }

  lemma {:induction false} DescendFollowsSteps(v: Value, steps: seq<Step>)
    requires SubValue(v, steps).Some?
    ensures DescendAll(v, EscapedTokens(steps)) == SubValue(v, steps)
    decreases |steps|
  {
    if steps != [] {
      UnescapeEscape(Token(steps[0]));
      assert EscapedTokens(steps)[1..] == EscapedTokens(steps[1..]);
      match steps[0]
      case Key(key) =>
        DescendFollowsSteps(Lookup(v.entries, key).value, steps[1..]);
      case Index(index) =>
        ParseDecimal(index);
        DescendFollowsSteps(v.items[index], steps[1..]);
    }
  }

  /** The path built for any sub-value resolves to that sub-value. */
  lemma PointerRoundTrip(v: Value, steps: seq<Step>)
    requires SubValue(v, steps).Some?
    ensures Resolve(v, PointerFrom("", steps)) == SubValue(v, steps)
  {
    if steps != [] {
      PointerTokens(steps);
      DescendFollowsSteps(v, steps);
    }
  }

  // ---- When a pointer resolves

  /** Looking up finds an entry of that key, and fails exactly when there is none. */
  lemma {:induction false} LookupExactly(entries: seq<(string, Value)>, key: string)
    ensures Lookup(entries, key).None? <==> forall i :: 0 <= i < |entries| ==> entries[i].0 != key
    ensures Lookup(entries, key).Some? ==> (key, Lookup(entries, key).value) in entries
  {
    if entries != [] && entries[0].0 != key {
      LookupExactly(entries[1..], key);
      assert forall i :: 1 <= i < |entries| ==> entries[i] == entries[1..][i - 1];
    }
  }

  /** The step that a raw token can stand for. */
  predicate StandsFor(raw: string, step: Step) {
    match step
    case Key(key) => key == Unescape(raw)
    case Index(index) => ParseInt(Unescape(raw)) == Some(index)
  }

  predicate AllStandFor(raw: seq<string>, steps: seq<Step>) {
    |raw| == |steps| && forall i :: 0 <= i < |raw| ==> StandsFor(raw[i], steps[i])
  }

  lemma {:induction false} DescendFindsSteps(v: Value, raw: seq<string>) returns (steps: seq<Step>)
    requires DescendAll(v, raw).Some?
    ensures AllStandFor(raw, steps) && SubValue(v, steps) == DescendAll(v, raw)
    decreases |raw|
  {
    if raw == [] {
      steps := [];
    } else {
      var next := Descend(v, Unescape(raw[0])).value;
      var rest := DescendFindsSteps(next, raw[1..]);
      var first := if v.Dict? then Key(Unescape(raw[0])) else Index(ParseInt(Unescape(raw[0])).value);
      steps := [first] + rest;
      assert steps[1..] == rest;
      assert forall i :: 1 <= i < |raw| ==> raw[i] == raw[1..][i - 1] && steps[i] == rest[i - 1];
      assert StandsFor(raw[0], first);
    }
  }

  lemma {:induction false} StepsAreDescended(v: Value, raw: seq<string>, steps: seq<Step>)
    requires AllStandFor(raw, steps) && SubValue(v, steps).Some?
    ensures DescendAll(v, raw) == SubValue(v, steps)
    decreases |raw|
  {
    if raw != [] {
      var next := if v.Dict? then Lookup(v.entries, steps[0].key).value else v.items[steps[0].index];
      assert StandsFor(raw[0], steps[0]);
      assert !(ParseInt("-").Some?);
      assert Descend(v, Unescape(raw[0])) == Some(next);
      forall i | 0 <= i < |raw| - 1
        ensures StandsFor(raw[1..][i], steps[1..][i])
      {
        assert StandsFor(raw[i + 1], steps[i + 1]);
      }
      StepsAreDescended(next, raw[1..], steps[1..]);
    }
  }

  /** `x` is what a JSON Pointer leads to in `v`: the whole value, or the sub-value reached by one step a token. */
  ghost predicate Names(v: Value, pointer: string, x: Value) {
    || (pointer == "" && x == v)
    || (pointer != "" && pointer[0] == '/'
        && exists steps :: AllStandFor(Split(pointer[1..], '/'), steps) && SubValue(v, steps) == Some(x))
  }

  /** A pointer resolves exactly to the sub-value that its tokens name, and else to nothing. */
  lemma ResolvesExactly(v: Value, pointer: string, x: Value)
    ensures Resolve(v, pointer) == Some(x) <==> Names(v, pointer, x)
  {
    if pointer != "" && pointer[0] == '/' {
      var raw := Split(pointer[1..], '/');
      if Resolve(v, pointer) == Some(x) {
        var steps := DescendFindsSteps(v, raw);
        assert AllStandFor(raw, steps) && SubValue(v, steps) == Some(x);
      }
      if steps :| AllStandFor(raw, steps) && SubValue(v, steps) == Some(x) {
        StepsAreDescended(v, raw, steps);
      }
    }
  }
}
