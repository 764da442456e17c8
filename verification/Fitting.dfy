/** The longest prefix that fits together with the header that announces its length. */
module Fitting {
  import opened Utf8
  import opened SnapshotTypes

  /** A prefix of `k` bytes fits with its own header and the truncation marker. */
  predicate Fits(lay: Layout, g: Group, k: nat, available: int) {
    |lay.header(g.target, k, g.totalBytes)| + k + |lay.marker| <= available
  }

  lemma FitsDownward(lay: Layout, g: Group, j: nat, k: nat, available: int)
    requires Orderly(lay) && j <= k && Fits(lay, g, k, available)
    ensures Fits(lay, g, j, available)
  {
  }

  /** `n` bytes is the longest character-aligned prefix that fits; 0 when none does. */
  ghost predicate IsLargestFit(lay: Layout, g: Group, available: int, n: nat) {
    && Boundary(g.bytes, n)
    && (n == 0 || Fits(lay, g, n, available))
    && (forall k: nat :: Boundary(g.bytes, k) && Fits(lay, g, k, available) ==> k <= n)
  }

  lemma LargestFitUnique(lay: Layout, g: Group, available: int, m: nat, n: nat)
    requires IsLargestFit(lay, g, available, m) && IsLargestFit(lay, g, available, n)
    ensures m == n
  {
  }

  /** The plain search: take one more character as long as the result fits. */
  function FitFrom(lay: Layout, g: Group, available: int, start: nat): (n: nat)
    requires Renderable(g) && start <= |g.bytes|
    ensures start <= n <= |g.bytes|
    decreases |g.bytes| - start
  {
    if start == |g.bytes| then start
    else
      var next := NextBoundary(g.bytes, start);
      if Fits(lay, g, next, available) then FitFrom(lay, g, available, next) else start
  }

  function FitLength(lay: Layout, g: Group, available: int): (n: nat)
    requires Renderable(g)
    ensures n <= |g.bytes|
  {
    FitFrom(lay, g, available, 0)
  }

  /** A boundary that fits, and after which the next character does not, is the largest fit. */
  lemma StuckMeansLargest(lay: Layout, g: Group, available: int, n: nat)
    requires Orderly(lay) && Renderable(g) && Boundary(g.bytes, n)
    requires n == 0 || Fits(lay, g, n, available)
    requires n < |g.bytes| ==> !Fits(lay, g, NextBoundary(g.bytes, n), available)
    ensures IsLargestFit(lay, g, available, n)
  {
    if n < |g.bytes| {
      NextBoundaryIsNext(g.bytes, n);
      forall k: nat | Boundary(g.bytes, k) && Fits(lay, g, k, available)
        ensures k <= n
      {
        if k > n {
          FitsDownward(lay, g, NextBoundary(g.bytes, n), k, available);
        }
      }
    }
  }

  lemma {:induction false} FitFromIsLargest(lay: Layout, g: Group, available: int, start: nat)
    requires Orderly(lay) && Renderable(g) && Boundary(g.bytes, start)
    requires start == 0 || Fits(lay, g, start, available)
    ensures IsLargestFit(lay, g, available, FitFrom(lay, g, available, start))
    decreases |g.bytes| - start
  {
    if start < |g.bytes| {
      var next := NextBoundary(g.bytes, start);
      if Fits(lay, g, next, available) {
        NextBoundaryIsNext(g.bytes, start);
        FitFromIsLargest(lay, g, available, next);
      } else {
        StuckMeansLargest(lay, g, available, start);
      }
    } else {
      StuckMeansLargest(lay, g, available, start);
    }
  }

  lemma FitLengthIsLargest(lay: Layout, g: Group, available: int)
    requires Orderly(lay) && Renderable(g)
    ensures IsLargestFit(lay, g, available, FitLength(lay, g, available))
  {
    assert g.bytes[..0] == [];
    FitFromIsLargest(lay, g, available, 0);
  }

  /** `_largest_fitting_prefix`: guess from the shortest header, shrink by the overflow, then grow. */
  method LargestFittingPrefix(lay: Layout, g: Group, available: int) returns (prefix: seq<Byte>)
    requires Orderly(lay) && Renderable(g)
    ensures prefix == g.bytes[..FitLength(lay, g, available)]
    ensures IsLargestFit(lay, g, available, |prefix|)
  {
    var zeroHeader := lay.header(g.target, 0, g.totalBytes);
    prefix := StrictUtf8Prefix(g.bytes, available - |zeroHeader| - |lay.marker|);

    while prefix != []
      invariant |prefix| <= |g.bytes| && prefix == g.bytes[..|prefix|] && Boundary(g.bytes, |prefix|)
      decreases |prefix|
    {
      var header := lay.header(g.target, |prefix|, g.totalBytes);
      var overflow := |header| + |prefix| + |lay.marker| - available;
      if overflow <= 0 {
        break;
      }
      var shorter := StrictUtf8Prefix(prefix, |prefix| - overflow);
      assert shorter == g.bytes[..|shorter|];
      prefix := shorter;
    }
    assert prefix != [] ==> Fits(lay, g, |prefix|, available);

    while |prefix| < |g.bytes|
      invariant |prefix| <= |g.bytes| && prefix == g.bytes[..|prefix|] && Boundary(g.bytes, |prefix|)
      invariant |prefix| == 0 || Fits(lay, g, |prefix|, available)
      decreases |g.bytes| - |prefix|
    {
      var next := NextBoundary(g.bytes, |prefix|);
      NextBoundaryIsNext(g.bytes, |prefix|);
      var candidate := g.bytes[..next];
      var header := lay.header(g.target, |candidate|, g.totalBytes);
      if |header| + |candidate| + |lay.marker| > available {
        break;
      }
      prefix := candidate;
    }
    StuckMeansLargest(lay, g, available, |prefix|);
    FitLengthIsLargest(lay, g, available);
    LargestFitUnique(lay, g, available, |prefix|, FitLength(lay, g, available));
  }
}
