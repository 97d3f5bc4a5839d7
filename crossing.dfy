/**
 * The search at the heart of the solution check: scan the pairs (i, j), i < j, of
 * connections in lexicographic order, skip pairs sharing an endpoint, and stop at
 * the first pair whose segments cross.  Whether two segments cross is floating-point
 * geometry on the current vertex positions; here it is the function `crosses` over
 * connection indices.
 */
module Crossing {
  import opened Graph

  /** Connections i < j share no endpoint and their segments cross. */
  predicate IsCrossing(edges: seq<Connection>, crosses: (int, int) -> bool, i: int, j: int)
  {
    0 <= i < j < |edges| && !SharesVertex(edges[i], edges[j]) && crosses(i, j)
  }

  /** Pair (i1, j1) comes before pair (i2, j2) in the scan. */
  predicate ScannedBefore(i1: int, j1: int, i2: int, j2: int)
  {
    i1 < i2 || (i1 == i2 && j1 < j2)
  }

  /** No pair of connections crosses: the level is solved. */
  ghost predicate NoCrossing(edges: seq<Connection>, crosses: (int, int) -> bool)
  {
    forall i, j :: !IsCrossing(edges, crosses, i, j)
  }

  /** (i, j) is the first crossing pair the scan meets. */
  ghost predicate FirstCrossing(edges: seq<Connection>, crosses: (int, int) -> bool, i: int, j: int)
  {
    IsCrossing(edges, crosses, i, j) &&
    forall i2, j2 :: IsCrossing(edges, crosses, i2, j2) ==> !ScannedBefore(i2, j2, i, j)
  }

  /** The first crossing pair is determined: two pairs that are both first are equal. */
  lemma FirstCrossingUnique(edges: seq<Connection>, crosses: (int, int) -> bool, i1: int, j1: int, i2: int, j2: int)
    requires FirstCrossing(edges, crosses, i1, j1) && FirstCrossing(edges, crosses, i2, j2)
    ensures i1 == i2 && j1 == j2
  {
  }

  /** The scan of main.cs CheckSolution, with its early exit. */
  method FindCrossing(edges: seq<Connection>, crosses: (int, int) -> bool) returns (found: bool, fi: int, fj: int)
    ensures found ==> FirstCrossing(edges, crosses, fi, fj)
    ensures !found ==> NoCrossing(edges, crosses)
  {
    var i := 0;
    while i < |edges|
      invariant 0 <= i <= |edges|
      invariant forall i2, j2 :: 0 <= i2 < i ==> !IsCrossing(edges, crosses, i2, j2)
    {
      var j := i + 1;
      while j < |edges|
        invariant i + 1 <= j <= |edges|
        invariant forall i2, j2 :: 0 <= i2 < i ==> !IsCrossing(edges, crosses, i2, j2)
        invariant forall j2 :: j2 < j ==> !IsCrossing(edges, crosses, i, j2)
      {
        if !SharesVertex(edges[i], edges[j]) && crosses(i, j) {
          return true, i, j;
        }
        j := j + 1;
      }
      i := i + 1;
    }
    return false, -1, -1;
  }
}
