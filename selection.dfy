/**
 * The selection is a List<int> of vertex indices.  Every way the game changes it
 * (a Ctrl-click, SelectVertex, a Ctrl-rectangle, the 'C' command) comes down to
 * toggling one index: remove it if present, append it otherwise.
 */
module Selection {
  import opened Geometry
  import opened Graph

  predicate NoDuplicates(s: seq<int>)
  {
    forall i, j :: 0 <= i < j < |s| ==> s[i] != s[j]
  }

  /** A well-formed selection of a graph with count vertices. */
  predicate IsSelection(s: seq<int>, count: int)
  {
    NoDuplicates(s) && forall i :: 0 <= i < |s| ==> 0 <= s[i] < count
  }

  /** List.IndexOf: the position of the first occurrence of x, or -1. */
  function IndexOf(s: seq<int>, x: int): (k: int)
    ensures -1 <= k < |s|
    ensures k == -1 <==> x !in s
    ensures k >= 0 ==> s[k] == x && x !in s[..k]
  {
    if |s| == 0 then -1
    else if s[0] == x then 0
    else
      var k := IndexOf(s[1..], x);
      assert k >= 0 ==> s[..k + 1] == [s[0]] + s[1..][..k];
      if k == -1 then -1 else k + 1
  }

  /** List.RemoveAt. */
  function RemoveAt(s: seq<int>, k: int): seq<int>
    requires 0 <= k < |s|
  {
    s[..k] + s[k + 1..]
  }

  /** Removing the entry at k of a list without duplicates removes exactly that value. */
  lemma RemoveAtSpec(s: seq<int>, k: int)
    requires NoDuplicates(s) && 0 <= k < |s|
    ensures NoDuplicates(RemoveAt(s, k))
    ensures forall y :: y in RemoveAt(s, k) <==> y in s && y != s[k]
  {
    var r := RemoveAt(s, k);
    assert forall i :: 0 <= i < k ==> r[i] == s[i];
    assert forall i :: k <= i < |r| ==> r[i] == s[i + 1];
    forall y | y in s && y != s[k]
      ensures y in r
    {
      var j :| 0 <= j < |s| && s[j] == y;
      if j < k {
        assert r[j] == y;
      } else {
        assert r[j - 1] == y;
      }
    }
  }

  /** SelectVertex (and the Ctrl-click toggle): take x out if it is selected, else append it. */
  function Toggle(s: seq<int>, x: int): (r: seq<int>)
    requires NoDuplicates(s)
    ensures NoDuplicates(r)
    ensures forall y :: y in r <==> (if y == x then x !in s else y in s)
    ensures x !in s ==> r == s + [x]
  {
    var k := IndexOf(s, x);
    if k == -1 then s + [x]
    else
      RemoveAtSpec(s, k);
      RemoveAt(s, k)
  }

  /** Toggling keeps a selection well formed when x is a vertex. */
  lemma ToggleIsSelection(s: seq<int>, x: int, count: int)
    requires IsSelection(s, count) && 0 <= x < count
    ensures IsSelection(Toggle(s, x), count)
  {
    var r := Toggle(s, x);
    forall i | 0 <= i < |r|
      ensures 0 <= r[i] < count
    {
      assert r[i] in r;
    }
  }

  /** Toggling every index of xs in turn, first to last. */
  function ToggleAll(s: seq<int>, xs: seq<int>): seq<int>
    requires NoDuplicates(s)
  {
    if |xs| == 0 then s else Toggle(ToggleAll(s, xs[..|xs| - 1]), xs[|xs| - 1])
  }

  /** Toggling one more index after a list of them. */
  lemma ToggleAllSnoc(s: seq<int>, xs: seq<int>, x: int)
    requires NoDuplicates(s)
    ensures ToggleAll(s, xs + [x]) == Toggle(ToggleAll(s, xs), x)
  {
    assert (xs + [x])[..|xs|] == xs;
  }

  /** Toggling a list of distinct indices flips membership of exactly those indices. */
  lemma {:induction false} ToggleAllMembership(s: seq<int>, xs: seq<int>)
    requires NoDuplicates(s) && NoDuplicates(xs)
    ensures NoDuplicates(ToggleAll(s, xs))
    ensures forall y :: y in ToggleAll(s, xs) <==> (y in s) != (y in xs)
  {
    if |xs| > 0 {
      var init := xs[..|xs| - 1];
      assert xs == init + [xs[|xs| - 1]];
      ToggleAllMembership(s, init);
      assert xs[|xs| - 1] !in init;
    }
  }

  /** A toggled selection of vertices stays a selection. */
  lemma ToggleAllIsSelection(s: seq<int>, xs: seq<int>, count: int)
    requires IsSelection(s, count) && IsSelection(xs, count)
    ensures IsSelection(ToggleAll(s, xs), count)
  {
    ToggleAllMembership(s, xs);
    var r := ToggleAll(s, xs);
    forall i | 0 <= i < |r|
      ensures 0 <= r[i] < count
    {
      assert r[i] in r;
    }
  }

  /** The indices below k of the vertices whose position is inside the rectangle, ascending. */
  function InsideIndices(vs: seq<Vertex>, inside: Point -> bool, k: nat): seq<int>
    requires k <= |vs|
  {
    if k == 0 then [] else InsideIndices(vs, inside, k - 1) + (if inside(vs[k - 1].position) then [k - 1] else [])
  }

  /** The rectangle's vertices: exactly those inside, each once, in increasing order. */
  lemma {:induction false} InsideIndicesSpec(vs: seq<Vertex>, inside: Point -> bool, k: nat)
    requires k <= |vs|
    ensures forall i, j :: 0 <= i < j < |InsideIndices(vs, inside, k)| ==>
      InsideIndices(vs, inside, k)[i] < InsideIndices(vs, inside, k)[j]
    ensures forall x :: x in InsideIndices(vs, inside, k) <==> 0 <= x < k && inside(vs[x].position)
  {
    if k > 0 {
      InsideIndicesSpec(vs, inside, k - 1);
      var prev := InsideIndices(vs, inside, k - 1);
      forall i | 0 <= i < |prev|
        ensures prev[i] < k - 1
      {
        assert prev[i] in prev;
      }
    }
  }

  /** A strictly increasing list of vertex indices is a selection. */
  lemma InsideIndicesIsSelection(vs: seq<Vertex>, inside: Point -> bool)
    ensures IsSelection(InsideIndices(vs, inside, |vs|), |vs|)
  {
    InsideIndicesSpec(vs, inside, |vs|);
    var r := InsideIndices(vs, inside, |vs|);
    forall i | 0 <= i < |r|
      ensures 0 <= r[i] < |vs|
    {
      assert r[i] in r;
    }
  }

  /** The endpoint of e opposite to h, or -1 when e does not touch h (the 'C' command
      tests First first, so a loop on h gives h itself). */
  function Partner(e: Connection, h: int): int
  {
    if e.first == h then e.second else if e.second == h then e.first else -1
  }

  /** The 'C' command: starting from an empty selection, toggle the partner of h along
      each connection in turn. */
  function NeighbourSelection(edges: seq<Connection>, h: int): (r: seq<int>)
    ensures NoDuplicates(r)
  {
    if |edges| == 0 then []
    else
      var s := NeighbourSelection(edges[..|edges| - 1], h);
      var x := Partner(edges[|edges| - 1], h);
      if x == -1 then s else Toggle(s, x)
  }

  /** How many of the connections join h to x. */
  function Links(edges: seq<Connection>, h: int, x: int): nat
  {
    if |edges| == 0 then 0
    else Links(edges[..|edges| - 1], h, x) + (if Partner(edges[|edges| - 1], h) == x then 1 else 0)
  }

  /** The 'C' command selects x exactly when an odd number of connections join h and x:
      a vertex joined by one connection is selected, one joined twice is toggled back out. */
  lemma {:induction false} NeighbourSelectionMembership(edges: seq<Connection>, h: int)
    ensures forall x :: x >= 0 ==> (x in NeighbourSelection(edges, h) <==> Links(edges, h, x) % 2 == 1)
  {
    if |edges| > 0 {
      var init := edges[..|edges| - 1];
      NeighbourSelectionMembership(init, h);
    }
  }

  /** When no two connections join the same pair of vertices, the 'C' command selects
      exactly the neighbours of h. */
  lemma NeighbourSelectionSimple(edges: seq<Connection>, h: int, x: int)
    requires x >= 0
    requires Links(edges, h, x) <= 1
    ensures x in NeighbourSelection(edges, h) <==> exists k :: 0 <= k < |edges| && Partner(edges[k], h) == x
  {
    NeighbourSelectionMembership(edges, h);
    LinksCount(edges, h, x);
  }

  /** Links is zero exactly when no connection joins h to x. */
  lemma {:induction false} LinksCount(edges: seq<Connection>, h: int, x: int)
    ensures Links(edges, h, x) == 0 <==> forall k :: 0 <= k < |edges| ==> Partner(edges[k], h) != x
  {
    if |edges| > 0 {
      var init := edges[..|edges| - 1];
      LinksCount(init, h, x);
      assert forall k :: 0 <= k < |init| ==> init[k] == edges[k];
    }
  }

  /** The 'C' command only selects endpoints of connections, so it yields a selection
      whenever the connections' endpoints are vertices. */
  lemma {:induction false} NeighbourSelectionIsSelection(edges: seq<Connection>, h: int, count: int)
    requires forall k :: 0 <= k < |edges| ==> EdgeWithin(edges[k], count)
    ensures IsSelection(NeighbourSelection(edges, h), count)
  {
    if |edges| > 0 {
      var init := edges[..|edges| - 1];
      NeighbourSelectionIsSelection(init, h, count);
      var x := Partner(edges[|edges| - 1], h);
      if x != -1 {
        ToggleIsSelection(NeighbourSelection(init, h), x, count);
      }
    }
  }
}
