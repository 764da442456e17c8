/** Sealed review packages: the closed package tree and the pairwise coverage of a review
    (orchestrator/experiments/_evaluation_ingest.py). */
module ReviewPackage {
  type Path = seq<string>

  datatype Entry = Entry(name: string, node: Node)

  /** A node of the package tree; `Special` is a link, socket or device. */
  datatype Node = File | Special | Directory(children: seq<Entry>)

  // ---- The nodes of a tree

  /** The files below the children of `node` from `i` on, as paths that start with `rel`. */
  function Files(node: Node, i: nat, rel: Path): set<Path>
    requires node.Directory? && i <= |node.children|
    decreases node, |node.children| - i
  {
    if i == |node.children| then {}
    else
      var child := node.children[i];
      var path := rel + [child.name];
      (match child.node
       case File => {path}
       case Special => {}
       case Directory(_) => Files(child.node, 0, path)) + Files(node, i + 1, rel)
  }

  function Directories(node: Node, i: nat, rel: Path): set<Path>
    requires node.Directory? && i <= |node.children|
    decreases node, |node.children| - i
  {
    if i == |node.children| then {}
    else
      var child := node.children[i];
      var path := rel + [child.name];
      (if child.node.Directory? then {path} + Directories(child.node, 0, path) else {}) + Directories(node, i + 1, rel)
  }

  predicate NoSpecial(node: Node, i: nat)
    requires node.Directory? && i <= |node.children|
    decreases node, |node.children| - i
  {
    if i == |node.children| then true
    else
      var child := node.children[i].node;
      !child.Special? && (child.Directory? ==> NoSpecial(child, 0)) && NoSpecial(node, i + 1)
  }

  /** The directories on the way to the given files. */
  function Ancestors(files: set<Path>): set<Path> {
    set f, k | f in files && 0 < k < |f| :: f[..k]
  }

  /** A directory lies on the way to every file of the tree. */
  lemma {:induction false} FilesHaveAncestors(node: Node, i: nat, rel: Path, file: Path, k: nat)
    requires node.Directory? && i <= |node.children|
    requires file in Files(node, i, rel) && |rel| < k < |file|
    ensures file[..k] in Directories(node, i, rel)
    decreases node, |node.children| - i
  {
    var child := node.children[i];
    var path := rel + [child.name];
    if file in Files(node, i + 1, rel) {
      FilesHaveAncestors(node, i + 1, rel, file, k);
    } else if child.node.Directory? {
      FileStartsWith(child.node, 0, path, file);
      if k > |path| {
        FilesHaveAncestors(child.node, 0, path, file, k);
      }
    }
  }

  lemma {:induction false} FileStartsWith(node: Node, i: nat, rel: Path, file: Path)
    requires node.Directory? && i <= |node.children| && file in Files(node, i, rel)
    ensures |rel| < |file| && file[..|rel|] == rel
    decreases node, |node.children| - i
  {
    var child := node.children[i];
    if file in Files(node, i + 1, rel) {
      FileStartsWith(node, i + 1, rel, file);
    } else if child.node.Directory? {
      FileStartsWith(child.node, 0, rel + [child.name], file);
      assert file[..|rel|] == file[..|rel| + 1][..|rel|];
    }
  }

  // ---- The walk

  /** What the walk over the children from `i` on accepts. */
  predicate Permitted(node: Node, i: nat, rel: Path, files: set<Path>, directories: set<Path>)
    requires node.Directory? && i <= |node.children|
  {
    Files(node, i, rel) <= files && Directories(node, i, rel) <= directories && NoSpecial(node, i)
  }

  /** The nested `walk`. */
  method Walk(node: Node, rel: Path, files: set<Path>, directories: set<Path>, seen: set<Path>)
    returns (ok: bool, observed: set<Path>)
    requires node.Directory?
    ensures ok <==> Permitted(node, 0, rel, files, directories)
    ensures ok ==> observed == seen + Files(node, 0, rel)
    decreases node
  {
    observed := seen;
    for i := 0 to |node.children|
      invariant Permitted(node, 0, rel, files, directories) <==> Permitted(node, i, rel, files, directories)
      invariant observed + Files(node, i, rel) == seen + Files(node, 0, rel)
    {
      var child := node.children[i];
      var path := rel + [child.name];
      if child.node.Directory? {
        if path !in directories {
          return false, observed;
        }
        var inner;
        inner, observed := Walk(child.node, path, files, directories, observed);
        if !inner {
          return false, observed;
        }
      } else if child.node.File? {
        if path !in files {
          return false, observed;
        }
        observed := observed + {path};
      } else {
        return false, observed;
      }
    }
    ok := true;
  }

  const MANIFEST: Path := ["manifest.json"]

  /** `_verify_closed_package_tree`: accepted exactly when the nodes of the tree are the manifest files, the
      manifest, and their ancestor directories. */
  method VerifyClosedPackageTree(package: Node, permitted: set<Path>) returns (ok: bool)
    requires package.Directory?
    ensures ok <==>
              && Files(package, 0, []) == permitted + {MANIFEST}
              && Directories(package, 0, []) == Ancestors(permitted + {MANIFEST})
              && NoSpecial(package, 0)
  {
    var files := permitted + {MANIFEST};
    var observed;
    ok, observed := Walk(package, [], files, Ancestors(files), {});
    ok := ok && observed == files;
    if ok {
      ClosedTreeHasAncestors(package, files);
    }
  }

  lemma ClosedTreeHasAncestors(package: Node, files: set<Path>)
    requires package.Directory? && Files(package, 0, []) == files
    ensures Ancestors(files) <= Directories(package, 0, [])
  {
    forall f, k | f in files && 0 < k < |f|
      ensures f[..k] in Directories(package, 0, [])
    {
      FilesHaveAncestors(package, 0, [], f, k);
    }
  }

  // ---- Pairwise coverage

  type Pair = set<string>

  function Pairs(labels: seq<string>): set<Pair> {
    set i, j | 0 <= i < j < |labels| :: {labels[i], labels[j]}
  }

  predicate Distinct<T(==)>(s: seq<T>) {
    forall i, j :: 0 <= i < j < |s| ==> s[i] != s[j]
  }

  function Elements<T>(s: seq<T>): set<T> {
    set x | x in s
  }

  /** The pairs that a new label forms with the earlier ones. */
  function PairsWith(labels: seq<string>, last: string): set<Pair> {
    set i | 0 <= i < |labels| :: {labels[i], last}
  }

  lemma {:induction false} PairsWithCount(labels: seq<string>, last: string)
    requires Distinct(labels) && last !in labels
    ensures |PairsWith(labels, last)| == |labels|
  {
    if labels != [] {
      var before, x := labels[..|labels| - 1], labels[|labels| - 1];
      PairsWithCount(before, last);
      assert PairsWith(labels, last) == PairsWith(before, last) + {{x, last}};
      forall i | 0 <= i < |before|
        ensures {before[i], last} != {x, last}
      {
        assert before[i] !in {x, last};
        assert before[i] in {before[i], last};
      }
      assert {x, last} !in PairsWith(before, last);
    }
  }

  lemma PairsSplit(before: seq<string>, x: string)
    ensures Pairs(before + [x]) == Pairs(before) + PairsWith(before, x)
  {
    var labels := before + [x];
    forall p | p in Pairs(labels)
      ensures p in Pairs(before) + PairsWith(before, x)
    {
      var i, j :| 0 <= i < j < |labels| && p == {labels[i], labels[j]};
      assert labels[i] == before[i] && labels[j] == if j < |before| then before[j] else x;
    }
    forall p | p in Pairs(before)
      ensures p in Pairs(labels)
    {
      var i, j :| 0 <= i < j < |before| && p == {before[i], before[j]};
      assert p == {labels[i], labels[j]};
    }
    forall p | p in PairsWith(before, x)
      ensures p in Pairs(labels)
    {
      var i :| 0 <= i < |before| && p == {before[i], x};
      assert p == {labels[i], labels[|before|]};
    }
  }

  lemma PairsApart(before: seq<string>, x: string)
    requires x !in before
    ensures Pairs(before) !! PairsWith(before, x)
  {
    forall p | p in PairsWith(before, x)
      ensures p !in Pairs(before)
    {
      assert x in p;
    }
  }

  /** `n` distinct labels have n(n-1)/2 unordered pairs. */
  lemma {:induction false} PairCount(labels: seq<string>)
    requires Distinct(labels)
    ensures 2 * |Pairs(labels)| == |labels| * (|labels| - 1)
  {
    if labels != [] {
      var before, x := labels[..|labels| - 1], labels[|labels| - 1];
      assert labels == before + [x];
      PairCount(before);
      PairCountStep(before, x);
      Triangular(|before|);
    }
  }

  lemma PairCountStep(before: seq<string>, x: string)
    requires Distinct(before) && x !in before
    ensures |Pairs(before + [x])| == |Pairs(before)| + |before|
  {
    PairsWithCount(before, x);
    PairsSplit(before, x);
    PairsApart(before, x);
    DisjointCount(Pairs(before), PairsWith(before, x));
  }

  lemma DisjointCount(s: set<Pair>, t: set<Pair>)
    requires s !! t
    ensures |s + t| == |s| + |t|
  {
  }

  lemma Triangular(n: int)
    ensures (n + 1) * n == n * (n - 1) + 2 * n
  {
  }

  lemma {:induction false} ElementsCount<T>(s: seq<T>)
    ensures |Elements(s)| <= |s|
    ensures |Elements(s)| == |s| <==> Distinct(s)
  {
    if s != [] {
      var before, x := s[..|s| - 1], s[|s| - 1];
      ElementsCount(before);
      assert Elements(s) == Elements(before) + {x};
      assert Distinct(s) <==> Distinct(before) && x !in before;
    }
  }

  /** One pairwise result: the labels of the candidates compared. */
  datatype Comparison = Comparison(a: string, b: string)

  function PairOf(c: Comparison): Pair {
    {c.a, c.b}
  }

  function PairsOf(results: seq<Comparison>): (pairs: seq<Pair>)
    ensures |pairs| == |results| && forall i :: 0 <= i < |pairs| ==> pairs[i] == PairOf(results[i])
  {
    seq(|results|, i requires 0 <= i < |results| => PairOf(results[i]))
  }

  /** The result compares two different labels of the package. */
  predicate Proper(labels: seq<string>, c: Comparison) {
    c.a in labels && c.b in labels && c.a != c.b
  }

  /** The pair is ranked at position `k` and nowhere else. */
  predicate OnlyAt(results: seq<Comparison>, pair: Pair, k: int) {
    0 <= k < |results| && forall m :: 0 <= m < |results| ==> (PairOf(results[m]) == pair <==> m == k)
  }

  ghost predicate RankedOnce(results: seq<Comparison>, pair: Pair) {
    exists k :: OnlyAt(results, pair, k)
  }

  /** Every two labels are ranked exactly once. */
  ghost predicate CoversOnce(labels: seq<string>, results: seq<Comparison>) {
    forall i, j :: 0 <= i < j < |labels| ==> RankedOnce(results, {labels[i], labels[j]})
  }

  lemma ProperIsPair(labels: seq<string>, c: Comparison)
    requires Proper(labels, c)
    ensures PairOf(c) in Pairs(labels)
  {
    var i :| 0 <= i < |labels| && labels[i] == c.a;
    var j :| 0 <= j < |labels| && labels[j] == c.b;
    if i < j {
      assert PairOf(c) == {labels[i], labels[j]};
    } else {
      assert PairOf(c) == {labels[j], labels[i]};
    }
  }

  lemma ProperArePairs(labels: seq<string>, results: seq<Comparison>)
    requires forall k :: 0 <= k < |results| ==> Proper(labels, results[k])
    ensures Elements(PairsOf(results)) <= Pairs(labels)
  {
    forall k | 0 <= k < |results|
      ensures PairsOf(results)[k] in Pairs(labels)
    {
      ProperIsPair(labels, results[k]);
    }
  }

  lemma CountedIsCovered(labels: seq<string>, results: seq<Comparison>)
    requires Elements(PairsOf(results)) == Pairs(labels) && Distinct(PairsOf(results))
    ensures CoversOnce(labels, results)
  {
    var pairs := PairsOf(results);
    forall i, j | 0 <= i < j < |labels|
      ensures RankedOnce(results, {labels[i], labels[j]})
    {
      assert {labels[i], labels[j]} in Elements(pairs);
      var k :| 0 <= k < |pairs| && pairs[k] == {labels[i], labels[j]};
      forall m | 0 <= m < |results|
        ensures PairOf(results[m]) == {labels[i], labels[j]} <==> m == k
      {
        assert pairs[m] == PairOf(results[m]);
      }
      assert OnlyAt(results, {labels[i], labels[j]}, k);
    }
  }

  lemma CoveredIsCounted(labels: seq<string>, results: seq<Comparison>)
    requires CoversOnce(labels, results) && Elements(PairsOf(results)) <= Pairs(labels)
    ensures Elements(PairsOf(results)) == Pairs(labels) && Distinct(PairsOf(results))
  {
    var pairs := PairsOf(results);
    forall p | p in Pairs(labels)
      ensures p in Elements(pairs) && exists k :: OnlyAt(results, p, k)
    {
      var i, j :| 0 <= i < j < |labels| && p == {labels[i], labels[j]};
      assert RankedOnce(results, {labels[i], labels[j]});
      var k :| OnlyAt(results, {labels[i], labels[j]}, k);
      assert OnlyAt(results, p, k);
      assert pairs[k] == p;
    }
    forall m, n | 0 <= m < n < |pairs|
      ensures pairs[m] != pairs[n]
    {
      assert pairs[m] in Elements(pairs);
      var k :| OnlyAt(results, pairs[m], k);
      assert PairOf(results[m]) == pairs[m] && PairOf(results[n]) == pairs[n];
    }
  }

  /** The pairs expected of these labels, by the nested loop over positions. */
  method ExpectedPairs(labels: seq<string>) returns (pairs: set<Pair>)
    ensures pairs == Pairs(labels)
  {
    pairs := {};
    for i := 0 to |labels|
      invariant pairs == set a, b | 0 <= a < b < |labels| && a < i :: {labels[a], labels[b]}
    {
      ghost var before := pairs;
      for j := i + 1 to |labels|
        invariant pairs == before + set b | i < b < j :: {labels[i], labels[b]}
      {
        pairs := pairs + {{labels[i], labels[j]}};
      }
    }
  }

  /** `_expected_labels`: at least two distinct non-empty labels. */
  predicate LabelsOk(labels: seq<string>) {
    |labels| >= 2 && Distinct(labels) && "" !in labels
  }

  /** The pairwise coverage check of `ingest_review`: accepted exactly when every result compares two different labels
      and each unordered pair of labels is ranked exactly once. */
  method CheckPairwiseCoverage(labels: seq<string>, results: seq<Comparison>) returns (ok: bool)
    ensures ok <==>
              LabelsOk(labels) && (forall k :: 0 <= k < |results| ==> Proper(labels, results[k])) && CoversOnce(labels, results)
    ensures ok ==> 2 * |results| == |labels| * (|labels| - 1)
  {
    if !LabelsOk(labels) {
      return false;
    }
    var expected := ExpectedPairs(labels);
    var observed: seq<Pair> := [];
    for k := 0 to |results|
      invariant observed == PairsOf(results[..k])
      invariant forall m :: 0 <= m < k ==> Proper(labels, results[m])
    {
      if !Proper(labels, results[k]) {
        return false;
      }
      observed := observed + [PairOf(results[k])];
    }
    assert results[..|results|] == results;
    ok := |observed| == |expected| && (set p | p in observed) == expected;
    CoverageMeans(labels, results);
  }

  lemma CoverageMeans(labels: seq<string>, results: seq<Comparison>)
    requires Distinct(labels) && forall k :: 0 <= k < |results| ==> Proper(labels, results[k])
    ensures |PairsOf(results)| == |Pairs(labels)| && Elements(PairsOf(results)) == Pairs(labels) <==> CoversOnce(labels, results)
    ensures CoversOnce(labels, results) ==> 2 * |results| == |labels| * (|labels| - 1)
  {
    var pairs := PairsOf(results);
    ProperArePairs(labels, results);
    ElementsCount(pairs);
    PairCount(labels);
    if Elements(pairs) == Pairs(labels) && Distinct(pairs) {
      CountedIsCovered(labels, results);
    }
    if CoversOnce(labels, results) {
      CoveredIsCounted(labels, results);
    }
  }
}
