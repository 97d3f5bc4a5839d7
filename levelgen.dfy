/**
 * The combinatorial part of level generation.  A level has n = 3 + level lines in
 * general position; each line crosses the n - 1 others, in an order that the game
 * obtains by sorting the crossing points along the line.  Here that order is an
 * input: for each line, any permutation of the other lines.  Walking a line's order,
 * every two consecutive crossings are joined by an edge.
 */
module LevelGen {
  import opened Pairing
  import opened Graph

  /** order lists every line other than li exactly once. */
  predicate IsLineOrder(order: seq<int>, li: int, n: int)
  {
    && 2 <= n
    && 0 <= li < n
    && |order| == n - 1
    && (forall k :: 0 <= k < |order| ==> 0 <= order[k] < n && order[k] != li)
    && (forall a, b :: 0 <= a < b < |order| ==> order[a] != order[b])
  }

  /** One crossing order per line. */
  predicate IsArrangementOrder(orders: seq<seq<int>>, n: int)
  {
    |orders| == n && forall li :: 0 <= li < n ==> IsLineOrder(orders[li], li, n)
  }

  /** The edge between the i-th and (i+1)-th crossing along line li. */
  function SegmentEdge(li: int, order: seq<int>, n: int, i: int): Connection
    requires IsLineOrder(order, li, n) && 0 <= i < |order| - 1
  {
    Connection(PairIndex(li, order[i], n), PairIndex(li, order[i + 1], n), false)
  }

  /** The n - 2 edges contributed by line li: one per consecutive pair of its crossings. */
  function LineEdges(li: int, order: seq<int>, n: int): seq<Connection>
    requires IsLineOrder(order, li, n)
  {
    seq(|order| - 1, i requires 0 <= i < |order| - 1 => SegmentEdge(li, order, n, i))
  }

  /** The edges of lines 0 .. count-1, in the order the generator emits them. */
  function LevelEdges(orders: seq<seq<int>>, n: int, count: nat): seq<Connection>
    requires IsArrangementOrder(orders, n) && count <= n
  {
    if count == 0 then [] else LevelEdges(orders, n, count - 1) + LineEdges(count - 1, orders[count - 1], n)
  }

  /** Vertex v is the crossing of line li with some other line. */
  ghost predicate OnLine(v: int, li: int, n: int)
  {
    0 <= li < n && exists q :: 0 <= q < n && q != li && v == PairIndex(li, q, n)
  }

  /** What every generated edge satisfies: two distinct vertices of the level, both
      on a common line, and not marked failed. */
  ghost predicate GeneratedEdge(e: Connection, n: int)
  {
    && EdgeWithin(e, VertexCount(n))
    && e.first != e.second
    && !e.failed
    && exists li :: 0 <= li < n && OnLine(e.first, li, n) && OnLine(e.second, li, n)
  }

  /** The edge between the k-th and (k+1)-th crossing of line li is well formed. */
  lemma LineEdgeGenerated(li: int, order: seq<int>, n: int, k: int)
    requires IsLineOrder(order, li, n) && 0 <= k < |order| - 1
    ensures GeneratedEdge(LineEdges(li, order, n)[k], n)
    ensures OnLine(LineEdges(li, order, n)[k].first, li, n) && OnLine(LineEdges(li, order, n)[k].second, li, n)
  {
    var a, b := order[k], order[k + 1];
    var e := LineEdges(li, order, n)[k];
    assert e == Connection(PairIndex(li, a, n), PairIndex(li, b, n), false);
    assert OnLine(e.first, li, n) && OnLine(e.second, li, n);
    if e.first == e.second {
      PairIndexInjective(li, a, li, b, n);
      assert false;
    }
  }

  /** The edges of one line are all well formed. */
  lemma LineEdgesGenerated(li: int, order: seq<int>, n: int)
    requires IsLineOrder(order, li, n)
    ensures forall k :: 0 <= k < |LineEdges(li, order, n)| ==> GeneratedEdge(LineEdges(li, order, n)[k], n)
    ensures forall k :: 0 <= k < |LineEdges(li, order, n)| ==>
      OnLine(LineEdges(li, order, n)[k].first, li, n) && OnLine(LineEdges(li, order, n)[k].second, li, n)
  {
    forall k | 0 <= k < |LineEdges(li, order, n)|
      ensures GeneratedEdge(LineEdges(li, order, n)[k], n)
      ensures OnLine(LineEdges(li, order, n)[k].first, li, n) && OnLine(LineEdges(li, order, n)[k].second, li, n)
    {
      LineEdgeGenerated(li, order, n, k);
    }
  }

  /** The generator emits count * (n - 2) edges for the first count lines, all well formed. */
  lemma {:induction false} LevelEdgesGenerated(orders: seq<seq<int>>, n: int, count: nat)
    requires IsArrangementOrder(orders, n) && count <= n
    ensures |LevelEdges(orders, n, count)| == count * (n - 2)
    ensures forall k :: 0 <= k < |LevelEdges(orders, n, count)| ==> GeneratedEdge(LevelEdges(orders, n, count)[k], n)
  {
    if count > 0 {
      LevelEdgesGenerated(orders, n, count - 1);
      LineEdgesGenerated(count - 1, orders[count - 1], n);
      var prev, line := LevelEdges(orders, n, count - 1), LineEdges(count - 1, orders[count - 1], n);
      assert |line| == n - 2;
      assert count * (n - 2) == (count - 1) * (n - 2) + (n - 2);
      forall k | 0 <= k < |prev + line|
        ensures GeneratedEdge((prev + line)[k], n)
      {
        if k < |prev| {
          assert (prev + line)[k] == prev[k];
        } else {
          assert (prev + line)[k] == line[k - |prev|];
        }
      }
    }
  }

  /** The edges of the first count lines fit in the connection array. */
  lemma LevelEdgesFit(orders: seq<seq<int>>, n: int, count: nat)
    requires IsArrangementOrder(orders, n) && count <= n
    ensures |LevelEdges(orders, n, count)| <= EdgeCount(n)
  {
    LevelEdgesGenerated(orders, n, count);
    if n > 0 {
      assert IsLineOrder(orders[0], 0, n);
      ProductMonotone(count, n - 2, n, n - 2);
    }
  }

  /** The whole level: exactly EdgeCount(n) = n(n-2) edges, each joining two distinct
      vertices in [0, n(n-1)/2) that lie on a common line, none marked failed. */
  lemma LevelEdgesShape(orders: seq<seq<int>>, n: int)
    requires IsArrangementOrder(orders, n)
    ensures |LevelEdges(orders, n, n)| == EdgeCount(n)
    ensures forall k :: 0 <= k < EdgeCount(n) ==> GeneratedEdge(LevelEdges(orders, n, n)[k], n)
  {
    LevelEdgesGenerated(orders, n, n);
  }

  /** Every generated connection joins two vertices of the level. */
  lemma LevelEdgesWithin(orders: seq<seq<int>>, n: int)
    requires IsArrangementOrder(orders, n)
    ensures EdgesWithin(LevelEdges(orders, n, n), VertexCount(n))
  {
    LevelEdgesGenerated(orders, n, n);
  }
}
