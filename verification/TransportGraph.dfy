/** Validation of in-memory values: a graph of lists and dictionaries that may be shared or cyclic
    (orchestrator/contracts/output_contract.py, `_validate_transportable_value`). */
module TransportGraph {
  import opened Text
  import opened JsonPointer

  datatype Leaf = NoneLeaf | BoolLeaf | IntLeaf | FloatLeaf(number: Number) | StrLeaf | Foreign

  /** A reference held in a container: an immediate leaf or the identity of another container. */
  datatype Ref = Immediate(leaf: Leaf) | Ptr(id: nat)

  datatype MapKey = TextKey(text: string) | OtherKey(hash: int)

  datatype Container = ListOf(items: seq<Ref>) | DictOf(entries: seq<(MapKey, Ref)>)

  type Heap = map<nat, Container>

  predicate InDomain(leaf: Leaf) {
    match leaf
    case Foreign => false
    case FloatLeaf(number) => number.Finite?
    case _ => true
  }

  function Degree(c: Container): nat {
    match c case ListOf(items) => |items| case DictOf(entries) => |entries|
  }

  function Child(c: Container, i: nat): Ref
    requires i < Degree(c)
  {
    match c case ListOf(items) => items[i] case DictOf(entries) => entries[i].1
  }

  /** The step that names child `i`; a non-text key has no name of its own. */
  function ChildStep(c: Container, i: nat): Step
    requires i < Degree(c)
  {
    match c
    case ListOf(_) => Index(i)
    case DictOf(entries) => match entries[i].0 case TextKey(text) => Key(text) case OtherKey(_) => Key("")
  }

  predicate TextKeyAt(c: Container, i: nat)
    requires i < Degree(c)
  {
    c.DictOf? ==> c.entries[i].0.TextKey?
  }

  predicate Known(heap: Heap, r: Ref) {
    r.Ptr? ==> r.id in heap
  }

  /** Every container reference leads to a container. */
  ghost predicate Closed(heap: Heap) {
    forall id, i :: id in heap && 0 <= i < Degree(heap[id]) ==> Known(heap, Child(heap[id], i))
  }

  datatype Outcome = Accepted | Rejected(path: string, offender: Ref)

  // ---- The validator as a recursion over the containers not yet active

  function Check(heap: Heap, r: Ref, path: string, active: set<nat>): Outcome
    requires Closed(heap) && Known(heap, r)
    decreases heap.Keys - active, 0
  {
    match r
    case Immediate(leaf) => if InDomain(leaf) then Accepted else Rejected(path, r)
    case Ptr(id) =>
      if id in active then Rejected(path, r)
      else
        assert id in heap.Keys - active;
        CheckFrom(heap, id, 0, path, active + {id})
  }

  /** The loop over the children of container `id`, from child `i` on. */
  function CheckFrom(heap: Heap, id: nat, i: nat, path: string, active: set<nat>): Outcome
    requires Closed(heap) && id in heap && i <= Degree(heap[id])
    decreases heap.Keys - active, 1, Degree(heap[id]) - i
  {
    var c := heap[id];
    if i == Degree(c) then Accepted
    else if !TextKeyAt(c, i) then Rejected(path, Ptr(id))
    else
      var first := Check(heap, Child(c, i), AppendValuePath(path, Token(ChildStep(c, i))), active);
      if first.Rejected? then first else CheckFrom(heap, id, i + 1, path, active)
  }

  class Validator {
    var active: set<nat>

    constructor ()
      ensures active == {}
    {
      active := {};
    }

    /** `_validate_transportable_value`: adds the container, checks its children, removes it again. */
    method Validate(heap: Heap, r: Ref, path: string) returns (outcome: Outcome)
      requires Closed(heap) && Known(heap, r)
      modifies this
      ensures active == old(active)
      ensures outcome == Check(heap, r, path, old(active))
      decreases heap.Keys - active
    {
      match r
      case Immediate(leaf) =>
        outcome := if InDomain(leaf) then Accepted else Rejected(path, r);
      case Ptr(id) =>
        if id in active {
          return Rejected(path, r);
        }
        ghost var before := active;
        assert id in heap.Keys - active;
        active := active + {id};
        outcome := Accepted;
        var c := heap[id];
        var i := 0;
        while i < Degree(c) && outcome.Accepted?
          invariant 0 <= i <= Degree(c) && active == before + {id}
          invariant outcome.Accepted? ==>
                      CheckFrom(heap, id, i, path, active) == CheckFrom(heap, id, 0, path, active)
          invariant outcome.Rejected? ==> outcome == CheckFrom(heap, id, 0, path, active)
          decreases Degree(c) - i, outcome.Accepted?
        {
          if !TextKeyAt(c, i) {
            outcome := Rejected(path, r);
          } else {
            outcome := Validate(heap, Child(c, i), AppendValuePath(path, Token(ChildStep(c, i))));
            i := i + 1;
          }
        }
        active := active - {id};
        assert active == before;
    }
  }

  // ---- What acceptance means, in terms of all paths through the graph

  /** Where a choice of child positions leads, if it leads anywhere. */
  function Follow(heap: Heap, r: Ref, choice: seq<nat>): Option<Ref>
    requires Closed(heap) && Known(heap, r)
    decreases |choice|
  {
    if choice == [] then Some(r)
    else if r.Ptr? && choice[0] < Degree(heap[r.id]) then
      Follow(heap, Child(heap[r.id], choice[0]), choice[1..])
    else None
  }

  /** The containers met on the way, including the end. */
  function Trail(heap: Heap, r: Ref, choice: seq<nat>): seq<nat>
    requires Closed(heap) && Known(heap, r) && Follow(heap, r, choice).Some?
    decreases |choice|
  {
    (if r.Ptr? then [r.id] else [])
    + (if choice == [] then [] else Trail(heap, Child(heap[r.id], choice[0]), choice[1..]))
  }

  predicate NoRepeat(ids: seq<nat>) {
    forall i, j :: 0 <= i < j < |ids| ==> ids[i] != ids[j]
  }

  /** A leaf of the JSON domain, or a container whose keys are all text. */
  predicate GoodEnd(heap: Heap, r: Ref)
    requires Known(heap, r)
  {
    match r
    case Immediate(leaf) => InDomain(leaf)
    case Ptr(id) => forall i :: 0 <= i < Degree(heap[id]) ==> TextKeyAt(heap[id], i)
  }

  ghost predicate GoodPath(heap: Heap, r: Ref, active: set<nat>, choice: seq<nat>)
    requires Closed(heap) && Known(heap, r) && Follow(heap, r, choice).Some?
  {
    FollowIsKnown(heap, r, choice);
    && NoRepeat(Trail(heap, r, choice))
    && (forall id :: id in Trail(heap, r, choice) ==> id !in active)
    && GoodEnd(heap, Follow(heap, r, choice).value)
  }

  lemma {:induction false} FollowIsKnown(heap: Heap, r: Ref, choice: seq<nat>)
    requires Closed(heap) && Known(heap, r) && Follow(heap, r, choice).Some?
    ensures Known(heap, Follow(heap, r, choice).value)
    decreases |choice|
  {
    if choice != [] {
      FollowIsKnown(heap, Child(heap[r.id], choice[0]), choice[1..]);
    }
  }

  lemma {:induction false} AcceptedChildren(heap: Heap, id: nat, i: nat, path: string, active: set<nat>, j: nat)
    requires Closed(heap) && id in heap && i <= j < Degree(heap[id])
    requires CheckFrom(heap, id, i, path, active).Accepted?
    ensures TextKeyAt(heap[id], j)
    ensures Check(heap, Child(heap[id], j), AppendValuePath(path, Token(ChildStep(heap[id], j))), active).Accepted?
    decreases j - i
  {
    if i < j {
      AcceptedChildren(heap, id, i + 1, path, active, j);
    }
  }

  /** Acceptance covers every path: none repeats a container and every end is in the domain. */
  lemma {:induction false} AcceptedPathsAreGood(heap: Heap, r: Ref, path: string, active: set<nat>, choice: seq<nat>)
    requires Closed(heap) && Known(heap, r) && Follow(heap, r, choice).Some?
    requires Check(heap, r, path, active).Accepted?
    ensures GoodPath(heap, r, active, choice)
    decreases |choice|
  {
    if r.Ptr? {
      var c := heap[r.id];
      if choice == [] {
        forall i | 0 <= i < Degree(c)
          ensures TextKeyAt(c, i)
        {
          AcceptedChildren(heap, r.id, 0, path, active + {r.id}, i);
        }
      } else {
        AcceptedChildren(heap, r.id, 0, path, active + {r.id}, choice[0]);
        var child := Child(c, choice[0]);
        AcceptedPathsAreGood(heap, child, AppendValuePath(path, Token(ChildStep(c, choice[0]))),
                             active + {r.id}, choice[1..]);
        FollowIsKnown(heap, r, choice);
      }
    }
  }

  // ---- What a rejection points at

  /** The named steps of a choice. */
  function StepsOf(heap: Heap, r: Ref, choice: seq<nat>): seq<Step>
    requires Closed(heap) && Known(heap, r) && Follow(heap, r, choice).Some?
    decreases |choice|
  {
    if choice == [] then []
    else [ChildStep(heap[r.id], choice[0])] + StepsOf(heap, Child(heap[r.id], choice[0]), choice[1..])
  }

  /** Every key on the way is text. */
  predicate TextKeysOnly(heap: Heap, r: Ref, choice: seq<nat>)
    requires Closed(heap) && Known(heap, r) && Follow(heap, r, choice).Some?
    decreases |choice|
  {
    choice == []
    || (TextKeyAt(heap[r.id], choice[0]) && TextKeysOnly(heap, Child(heap[r.id], choice[0]), choice[1..]))
  }

  /** `choice` explains a rejection: it is a bad path, its end is the offender, and its name is the
      reported path. */
  ghost predicate Explains(heap: Heap, r: Ref, path: string, active: set<nat>, choice: seq<nat>, outcome: Outcome)
    requires Closed(heap) && Known(heap, r)
  {
    && outcome.Rejected?
    && Follow(heap, r, choice) == Some(outcome.offender)
    && TextKeysOnly(heap, r, choice)
    && outcome.path == PointerFrom(path, StepsOf(heap, r, choice))
    && !GoodPath(heap, r, active, choice)
  }

  lemma {:induction false} RejectionIsExplained(heap: Heap, r: Ref, path: string, active: set<nat>)
    returns (choice: seq<nat>)
    requires Closed(heap) && Known(heap, r)
    requires Check(heap, r, path, active).Rejected?
    ensures Explains(heap, r, path, active, choice, Check(heap, r, path, active))
    decreases heap.Keys - active, 0
  {
    if r.Immediate? || r.id in active {
      choice := [];
      assert r.Ptr? ==> r.id in Trail(heap, r, choice);
    } else {
      assert r.id in heap.Keys - active;
      choice := RejectedChild(heap, r.id, 0, path, active);
    }
  }

  lemma {:induction false} RejectedChild(heap: Heap, id: nat, i: nat, path: string, active: set<nat>)
    returns (choice: seq<nat>)
    requires Closed(heap) && id in heap && id !in active && i <= Degree(heap[id])
    requires CheckFrom(heap, id, i, path, active + {id}).Rejected?
    ensures Explains(heap, Ptr(id), path, active, choice, CheckFrom(heap, id, i, path, active + {id}))
    decreases heap.Keys - (active + {id}), 1, Degree(heap[id]) - i
  {
    var c := heap[id];
    if !TextKeyAt(c, i) {
      choice := [];
    } else {
      var childPath := AppendValuePath(path, Token(ChildStep(c, i)));
      var first := Check(heap, Child(c, i), childPath, active + {id});
      if first.Rejected? {
        var rest := RejectionIsExplained(heap, Child(c, i), childPath, active + {id});
        choice := [i] + rest;
        PrependExplains(heap, id, i, path, active, rest, first);
      } else {
        choice := RejectedChild(heap, id, i + 1, path, active);
      }
    }
  }

  lemma PrependExplains(heap: Heap, id: nat, i: nat, path: string, active: set<nat>, rest: seq<nat>, outcome: Outcome)
    requires Closed(heap) && id in heap && i < Degree(heap[id]) && TextKeyAt(heap[id], i)
    requires Explains(heap, Child(heap[id], i), AppendValuePath(path, Token(ChildStep(heap[id], i))),
                      active + {id}, rest, outcome)
    ensures Explains(heap, Ptr(id), path, active, [i] + rest, outcome)
  {
    var child, choice := Child(heap[id], i), [i] + rest;
    assert choice[1..] == rest;
    var steps := StepsOf(heap, Ptr(id), choice);
    assert steps[1..] == StepsOf(heap, child, rest);
    GoodPathTail(heap, id, i, active, rest);
  }

  lemma GoodPathTail(heap: Heap, id: nat, i: nat, active: set<nat>, rest: seq<nat>)
    requires Closed(heap) && id in heap && i < Degree(heap[id])
    requires Follow(heap, Child(heap[id], i), rest).Some?
    ensures Follow(heap, Ptr(id), [i] + rest) == Follow(heap, Child(heap[id], i), rest)
    ensures GoodPath(heap, Ptr(id), active, [i] + rest) ==>
              GoodPath(heap, Child(heap[id], i), active + {id}, rest)
  {
    assert ([i] + rest)[1..] == rest;
    var tail := Trail(heap, Child(heap[id], i), rest);
    var whole := Trail(heap, Ptr(id), [i] + rest);
    assert whole == [id] + tail;
    assert forall k :: 0 <= k < |tail| ==> tail[k] == whole[k + 1];
    if NoRepeat(whole) {
      forall x | x in tail
        ensures x != id && x in whole
      {
        var k :| 0 <= k < |tail| && tail[k] == x;
        assert whole[k + 1] == x && whole[0] == id;
      }
    }
  }

  /** Accepted exactly when no path repeats a container and every reachable leaf and key is in the
      JSON domain; sharing without a cycle is accepted. */
  lemma AcceptedExactly(heap: Heap, r: Ref)
    requires Closed(heap) && Known(heap, r)
    ensures Check(heap, r, "", {}).Accepted?
       <==> forall choice :: Follow(heap, r, choice).Some? ==> GoodPath(heap, r, {}, choice)
  {
    if Check(heap, r, "", {}).Accepted? {
      forall choice | Follow(heap, r, choice).Some?
        ensures GoodPath(heap, r, {}, choice)
      {
        AcceptedPathsAreGood(heap, r, "", {}, choice);
      }
    } else {
      var choice := RejectionIsExplained(heap, r, "", {});
      assert Follow(heap, r, choice).Some? && !GoodPath(heap, r, {}, choice);
    }
  }

  // ---- The reported path resolves to the offender

  /** Dictionary keys are unique. */
  predicate UniqueKeys(heap: Heap) {
    forall id :: id in heap && heap[id].DictOf? ==>
      forall i, j :: 0 <= i < j < |heap[id].entries| ==> heap[id].entries[i].0 != heap[id].entries[j].0
  }

  function LookupKey(entries: seq<(MapKey, Ref)>, key: string): Option<Ref> {
    if entries == [] then None
    else if entries[0].0 == TextKey(key) then Some(entries[0].1)
    else LookupKey(entries[1..], key)
  }

  lemma {:induction false} LookupFindsEntry(entries: seq<(MapKey, Ref)>, i: nat)
    requires i < |entries| && entries[i].0.TextKey?
    requires forall j, k :: 0 <= j < k < |entries| ==> entries[j].0 != entries[k].0
    ensures LookupKey(entries, entries[i].0.text) == Some(entries[i].1)
  {
    if i > 0 {
      LookupFindsEntry(entries[1..], i - 1);
    }
  }

  /** One token of `_resolve_json_pointer` on the graph. */
  function DescendRef(heap: Heap, r: Ref, token: string): Option<Ref>
    requires Known(heap, r)
  {
    if r.Immediate? then None
    else
      match heap[r.id]
      case DictOf(entries) => LookupKey(entries, token)
      case ListOf(items) =>
        if token == "-" then None
        else
          (match ParseInt(token)
           case None => None
           case Some(index) => if 0 <= index < |items| then Some(items[index]) else None)
  }

  function DescendRefs(heap: Heap, r: Ref, rawTokens: seq<string>): Option<Ref>
    requires Closed(heap) && Known(heap, r)
    decreases |rawTokens|
  {
    if rawTokens == [] then Some(r)
    else
      match DescendRef(heap, r, Unescape(rawTokens[0]))
      case None => None
      case Some(next) => if Known(heap, next) then DescendRefs(heap, next, rawTokens[1..]) else None
  }

  function ResolveRef(heap: Heap, r: Ref, pointer: string): Option<Ref>
    requires Closed(heap) && Known(heap, r)
  {
    if pointer == "" then Some(r)
    else if pointer[0] != '/' then None
    else DescendRefs(heap, r, Split(pointer[1..], '/'))
  }

  /** The name of a child leads to that child. */
  lemma ChildNameDescends(heap: Heap, r: Ref, i: nat)
    requires Closed(heap) && UniqueKeys(heap) && Known(heap, r) && r.Ptr?
    requires i < Degree(heap[r.id]) && TextKeyAt(heap[r.id], i)
    ensures DescendRef(heap, r, Token(ChildStep(heap[r.id], i))) == Some(Child(heap[r.id], i))
  {
    match heap[r.id]
    case ListOf(items) => ParseDecimal(i);
    case DictOf(entries) => LookupFindsEntry(entries, i);
  }

  lemma DescendCons(heap: Heap, r: Ref, next: Ref, step: Step, rest: seq<Step>)
    requires Closed(heap) && Known(heap, r) && Known(heap, next)
    requires DescendRef(heap, r, Token(step)) == Some(next)
    ensures DescendRefs(heap, r, EscapedTokens([step] + rest)) == DescendRefs(heap, next, EscapedTokens(rest))
  {
    UnescapeEscape(Token(step));
    assert ([step] + rest)[1..] == rest;
    assert EscapedTokens([step] + rest)[1..] == EscapedTokens(rest);
  }

  lemma {:induction false} DescendFollowsChoice(heap: Heap, r: Ref, choice: seq<nat>)
    requires Closed(heap) && UniqueKeys(heap) && Known(heap, r)
    requires Follow(heap, r, choice).Some? && TextKeysOnly(heap, r, choice)
    ensures DescendRefs(heap, r, EscapedTokens(StepsOf(heap, r, choice))) == Follow(heap, r, choice)
    decreases |choice|
  {
    if choice != [] {
      var next := Child(heap[r.id], choice[0]);
      ChildNameDescends(heap, r, choice[0]);
      DescendCons(heap, r, next, ChildStep(heap[r.id], choice[0]), StepsOf(heap, next, choice[1..]));
      DescendFollowsChoice(heap, next, choice[1..]);
    }
  }

  // ---- A value inside a larger one

  lemma {:induction false} FollowOn(heap: Heap, root: Ref, outer: seq<nat>, r: Ref, choice: seq<nat>)
    requires Closed(heap) && Known(heap, root) && Follow(heap, root, outer) == Some(r) && TextKeysOnly(heap, root, outer)
    requires Known(heap, r) && Follow(heap, r, choice).Some? && TextKeysOnly(heap, r, choice)
    ensures Follow(heap, root, outer + choice) == Follow(heap, r, choice)
    ensures TextKeysOnly(heap, root, outer + choice)
    ensures StepsOf(heap, root, outer + choice) == StepsOf(heap, root, outer) + StepsOf(heap, r, choice)
    decreases |outer|
  {
    if outer == [] {
      assert outer + choice == choice;
    } else {
      var next := Child(heap[root.id], outer[0]);
      assert (outer + choice)[1..] == outer[1..] + choice && (outer + choice)[0] == outer[0];
      FollowOn(heap, next, outer[1..], r, choice);
    }
  }

  lemma {:induction false} PointerOn(path: string, a: seq<Step>, b: seq<Step>)
    ensures PointerFrom(PointerFrom(path, a), b) == PointerFrom(path, a + b)
    decreases |a|
  {
    if a == [] {
      assert a + b == b;
    } else {
      assert (a + b)[1..] == a[1..] + b && (a + b)[0] == a[0];
      PointerOn(AppendValuePath(path, Token(a[0])), a[1..], b);
    }
  }

  lemma PathResolves(heap: Heap, r: Ref, choice: seq<nat>)
    requires Closed(heap) && UniqueKeys(heap) && Known(heap, r)
    requires Follow(heap, r, choice).Some? && TextKeysOnly(heap, r, choice)
    ensures ResolveRef(heap, r, PointerFrom("", StepsOf(heap, r, choice))) == Follow(heap, r, choice)
  {
    var steps := StepsOf(heap, r, choice);
    if steps != [] {
      PointerTokens(steps);
      DescendFollowsChoice(heap, r, choice);
    }
  }

  /** On any graph, and for a value reached from a root by any steps, validation under the path of those steps reports
      a value path that resolves from the root to the rejected value. */
  lemma ReportedPathResolves(heap: Heap, root: Ref, outer: seq<nat>, r: Ref)
    requires Closed(heap) && UniqueKeys(heap) && Known(heap, root) && Known(heap, r)
    requires Follow(heap, root, outer) == Some(r) && TextKeysOnly(heap, root, outer)
    ensures var outcome := Check(heap, r, PointerFrom("", StepsOf(heap, root, outer)), {});
            outcome.Rejected? ==> ResolveRef(heap, root, outcome.path) == Some(outcome.offender)
  {
    var path := PointerFrom("", StepsOf(heap, root, outer));
    if Check(heap, r, path, {}).Rejected? {
      var choice := RejectionIsExplained(heap, r, path, {});
      FollowOn(heap, root, outer, r, choice);
      PointerOn("", StepsOf(heap, root, outer), StepsOf(heap, r, choice));
      PathResolves(heap, root, outer + choice);
    }
  }
}
