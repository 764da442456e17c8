/** Lexicographic order on strings, as `sorted` uses it, and sorted duplicate-free lists. */
module Ordering {

  /** `s < t` on Python strings: compare the first differing code point, then length. */
  predicate Less(s: string, t: string) {
    if t == [] then false
    else if s == [] then true
    else if s[0] != t[0] then s[0] < t[0]
    else Less(s[1..], t[1..])
  }

  lemma {:induction false} LessTransitive(s: string, t: string, u: string)
    requires Less(s, t) && Less(t, u)
    ensures Less(s, u)
  {
    if s != [] && s[0] == t[0] == u[0] {
      LessTransitive(s[1..], t[1..], u[1..]);
    }
  }

  lemma {:induction false} LessIrreflexive(s: string)
    ensures !Less(s, s)
  {
    if s != [] {
      LessIrreflexive(s[1..]);
    }
  }

  lemma {:induction false} LessTotal(s: string, t: string)
    ensures Less(s, t) || s == t || Less(t, s)
  {
    if s != [] && t != [] && s[0] == t[0] {
      LessTotal(s[1..], t[1..]);
      assert s == [s[0]] + s[1..] && t == [t[0]] + t[1..];
    }
  }

  predicate StrictlySorted(list: seq<string>) {
    forall i, j :: 0 <= i < j < |list| ==> Less(list[i], list[j])
  }

  /** Add a name to a sorted duplicate-free list. */
  function InsertName(name: string, list: seq<string>): seq<string> {
    if list == [] then [name]
    else if name == list[0] then list
    else if Less(name, list[0]) then [name] + list
    else [list[0]] + InsertName(name, list[1..])
  }

  lemma {:induction false} InsertNameMembers(name: string, list: seq<string>)
    ensures forall x :: x in InsertName(name, list) <==> x == name || x in list
  {
    if list != [] && name != list[0] && !Less(name, list[0]) {
      InsertNameMembers(name, list[1..]);
      assert list == [list[0]] + list[1..];
    }
  }

  lemma {:induction false} InsertNameSorted(name: string, list: seq<string>)
    requires StrictlySorted(list)
    ensures StrictlySorted(InsertName(name, list))
  {
    if list == [] || name == list[0] {
    } else if Less(name, list[0]) {
      forall j | 0 <= j < |list|
        ensures Less(name, list[j])
      {
        if j > 0 {
          LessTransitive(name, list[0], list[j]);
        }
      }
    } else {
      LessTotal(name, list[0]);
      var rest := InsertName(name, list[1..]);
      InsertNameSorted(name, list[1..]);
      InsertNameMembers(name, list[1..]);
      forall j | 0 <= j < |rest|
        ensures Less(list[0], rest[j])
      {
        if rest[j] != name {
          assert rest[j] in list[1..];
          var k :| 0 <= k < |list[1..]| && list[1..][k] == rest[j];
          assert list[k + 1] == rest[j];
        }
      }
    }
  }

  // ---- Python's `sort` with a comparison

  /** Insert after everything that is not greater. */
  function InsertBy<T>(list: seq<T>, x: T, less: (T, T) -> bool): seq<T> {
    if list == [] || !less(x, list[|list| - 1]) then list + [x]
    else InsertBy(list[..|list| - 1], x, less) + [list[|list| - 1]]
  }

  function SortBy<T>(list: seq<T>, less: (T, T) -> bool): seq<T> {
    if list == [] then [] else InsertBy(SortBy(list[..|list| - 1], less), list[|list| - 1], less)
  }

  predicate SortedBy<T(!new)>(list: seq<T>, less: (T, T) -> bool) {
    forall i, j :: 0 <= i < j < |list| ==> !less(list[j], list[i])
  }

  /** "Not greater" is a total order. */
  ghost predicate Orders<T(!new)>(less: (T, T) -> bool) {
    && (forall a, b :: !(less(a, b) && less(b, a)))
    && (forall a, b, c :: !less(b, a) && !less(c, b) ==> !less(c, a))
  }

  lemma {:induction false} InsertByMembers<T>(list: seq<T>, x: T, less: (T, T) -> bool)
    ensures multiset(InsertBy(list, x, less)) == multiset(list) + multiset{x}
  {
    if list != [] && less(x, list[|list| - 1]) {
      var before, last := list[..|list| - 1], list[|list| - 1];
      InsertByMembers(before, x, less);
      assert list == before + [last];
    }
  }

  /** Sorting keeps exactly the elements. */
  lemma {:induction false} SortByMembers<T>(list: seq<T>, less: (T, T) -> bool)
    ensures multiset(SortBy(list, less)) == multiset(list)
  {
    if list != [] {
      var before, last := list[..|list| - 1], list[|list| - 1];
      SortByMembers(before, less);
      InsertByMembers(SortBy(before, less), last, less);
      assert list == before + [last];
    }
  }

  lemma SortByElements<T>(list: seq<T>, less: (T, T) -> bool)
    ensures |SortBy(list, less)| == |list| && forall x :: x in SortBy(list, less) <==> x in list
  {
    SortByMembers(list, less);
    var sorted := SortBy(list, less);
    assert |multiset(sorted)| == |sorted| && |multiset(list)| == |list|;
    assert forall x :: x in sorted <==> x in multiset(sorted);
  }

  lemma {:induction false} InsertBySorted<T(!new)>(list: seq<T>, x: T, less: (T, T) -> bool)
    requires Orders(less) && SortedBy(list, less)
    ensures SortedBy(InsertBy(list, x, less), less)
  {
    if list != [] {
      var before, last := list[..|list| - 1], list[|list| - 1];
      assert list == before + [last];
      if less(x, last) {
        InsertBySorted(before, x, less);
        InsertByMembers(before, x, less);
        var inner := InsertBy(before, x, less);
        forall i | 0 <= i < |inner|
          ensures !less(last, inner[i])
        {
          assert inner[i] in multiset(inner);
          assert inner[i] in before || inner[i] == x;
        }
      } else {
        forall i | 0 <= i < |list|
          ensures !less(x, list[i])
        {
          assert i < |list| - 1 ==> !less(last, list[i]);
        }
      }
    }
  }

  /** Sorting sorts. */
  lemma {:induction false} SortBySorted<T(!new)>(list: seq<T>, less: (T, T) -> bool)
    requires Orders(less)
    ensures SortedBy(SortBy(list, less), less)
  {
    if list != [] {
      SortBySorted(list[..|list| - 1], less);
      InsertBySorted(SortBy(list[..|list| - 1], less), list[|list| - 1], less);
    }
  }

  /** Tuples compare by their first component, then by their second. */
  predicate PairLess(a: (string, string), b: (string, string)) {
    Less(a.0, b.0) || (a.0 == b.0 && Less(a.1, b.1))
  }

  lemma NotGreaterTransitive(s: string, t: string, u: string)
    requires !Less(t, s) && !Less(u, t)
    ensures !Less(u, s) && (s == u ==> s == t)
  {
    LessTotal(s, t);
    LessTotal(t, u);
    LessIrreflexive(s);
    LessIrreflexive(t);
    if Less(s, t) && Less(t, u) {
      LessTransitive(s, t, u);
    }
    if Less(u, s) {
      if Less(s, t) {
        LessTransitive(u, s, t);
      }
    }
    if s == u && Less(s, t) && Less(t, u) {
      LessTransitive(s, t, s);
    }
  }

  lemma LessOrders()
    ensures Orders(Less)
  {
    forall a, b
      ensures !(Less(a, b) && Less(b, a))
    {
      if Less(a, b) && Less(b, a) {
        LessTransitive(a, b, a);
        LessIrreflexive(a);
      }
    }
    forall a, b, c | !Less(b, a) && !Less(c, b)
      ensures !Less(c, a)
    {
      NotGreaterTransitive(a, b, c);
    }
  }

  lemma PairLessOrders()
    ensures Orders(PairLess)
  {
    LessOrders();
    forall a: (string, string), b: (string, string)
      ensures !(PairLess(a, b) && PairLess(b, a))
    {
      LessIrreflexive(a.0);
    }
    forall a: (string, string), b: (string, string), c: (string, string) | !PairLess(b, a) && !PairLess(c, b)
      ensures !PairLess(c, a)
    {
      NotGreaterTransitive(a.0, b.0, c.0);
      if a.0 == c.0 {
        NotGreaterTransitive(a.1, b.1, c.1);
      }
    }
  }
}
