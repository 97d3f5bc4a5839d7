/**
 * The two records of the puzzle graph: a vertex (a position and the cosmetic
 * Moved flag) and a connection between two vertex indices (with the Failed flag
 * set by the solution check).
 */
module Graph {
  import opened Int32
  import opened Geometry

  datatype Vertex = Vertex(position: Point, moved: bool)
  {
    /** Hit radius in pixels: moved vertices are drawn smaller. */
    function Radius(): (r: int)
      ensures 0 < r <= 8
      ensures moved <==> r < 8
      ensures moved ==> r == 5
    {
      if moved then 5 else 8
    }

    /** The mouse is over the vertex when it lies within the integer circle of
        radius Radius() around the vertex's screen position.  The differences, the
        squares and their sum are unchecked Int32 arithmetic; wrapping the exact result
        once is the same as wrapping after every operation. */
    predicate Contains(v: View, mouse: ScreenPoint)
      requires ValidView(v)
    {
      var center := ToScreenPoint(v, position);
      var xd, yd := Wrap(mouse.x - center.x), Wrap(mouse.y - center.y);
      Wrap(xd * xd + yd * yd) <= Radius() * Radius()
    }
  }

  /** Near the mouse, where no Int32 operation of the hit test overflows, the test is
      the exact one: the squared distance is at most the squared radius. */
  lemma ContainsWithoutOverflow(vertex: Vertex, v: View, mouse: ScreenPoint)
    requires ValidView(v)
    requires var center := ToScreenPoint(v, vertex.position);
      -32767 <= mouse.x - center.x <= 32767 && -32767 <= mouse.y - center.y <= 32767
    ensures var center := ToScreenPoint(v, vertex.position);
      var xd, yd := mouse.x - center.x, mouse.y - center.y;
      vertex.Contains(v, mouse) <==> xd * xd + yd * yd <= vertex.Radius() * vertex.Radius()
  {
    var center := ToScreenPoint(v, vertex.position);
    var xd, yd := mouse.x - center.x, mouse.y - center.y;
    SquareBound(xd);
    SquareBound(yd);
    assert Wrap(mouse.x - center.x) == xd && Wrap(mouse.y - center.y) == yd;
    assert InInt32(xd * xd + yd * yd);
  }

  lemma SquareBound(d: int)
    requires -32767 <= d <= 32767
    ensures 0 <= d * d <= 32767 * 32767
  {
    var a: nat := if d < 0 then -d else d;
    assert d * d == a * a;
    ScaleBound(a, a, 32767);
    ScaleBound(32767, a, 32767);
  }

  lemma ScaleBound(k: nat, a: nat, b: nat)
    requires a <= b
    ensures k * a <= k * b
  {
  }

  /** The zoom after k turns of the wheel towards the viewer from zoom 1: each turn
      divides the zoom by 0.75. */
  function WheelZoom(k: nat): (z: real)
    ensures z >= 1.0
  {
    if k == 0 then 1.0 else WheelZoom(k - 1) * (4.0 / 3.0)
  }

  /** Turning the wheel a times and then b times zooms as much as turning it a + b times. */
  lemma {:induction false} WheelZoomAdd(a: nat, b: nat)
    ensures WheelZoom(a + b) == WheelZoom(a) * WheelZoom(b)
    decreases b
  {
    if b > 0 {
      WheelZoomAdd(a, b - 1);
    }
  }

  /** Far from the mouse the squared distance wraps: after sixteen wheel turns (zoom
      (4/3)^16) in a 600 by 600 window, a vertex 215233605/134217728 units (about 1.6) left
      of the camera is 48000 pixels left of the mouse at the window's centre, and
      48000 * 48000 wraps to a negative number, so the hit test reports the mouse inside
      that vertex. */
  lemma FarVertexContainsMouse()
    ensures var v := View(Point(0.0, 0.0), WheelZoom(16), Screen(600, 600));
      var p := Point(-215233605.0 / 134217728.0, 0.0);
      && ToScreenPoint(v, p).x == 300 - 48000
      && Vertex(p, false).Contains(v, ScreenPoint(300, 300))
  {
    assert WheelZoom(2) == 16.0 / 9.0;
    WheelZoomAdd(2, 2);
    WheelZoomAdd(4, 4);
    WheelZoomAdd(8, 8);
    assert WheelZoom(16) == 4294967296.0 / 43046721.0;
    var v := View(Point(0.0, 0.0), WheelZoom(16), Screen(600, 600));
    assert (-215233605.0 / 134217728.0 - 0.0) * (WheelZoom(16) * 0.5 * 600 as real) == -48000.0;
    assert Wrap(48000 * 48000) == 48000 * 48000 - Modulus;
  }

  datatype Connection = Connection(first: int, second: int, failed: bool)
  {
    predicate HasVertex(vertex: int)
    {
      first == vertex || second == vertex
    }
  }

  /** Both endpoints of the connection are vertices of a graph with count vertices. */
  predicate EdgeWithin(c: Connection, count: int)
  {
    0 <= c.first < count && 0 <= c.second < count
  }

  /** Every connection joins vertices of a graph with count vertices. */
  predicate EdgesWithin(edges: seq<Connection>, count: int)
  {
    forall k :: 0 <= k < |edges| ==> EdgeWithin(edges[k], count)
  }

  /** Two connections share an endpoint; the solution check never compares such a pair. */
  predicate SharesVertex(a: Connection, b: Connection)
  {
    a.HasVertex(b.first) || a.HasVertex(b.second)
  }

  /** The solution check asks only the earlier connection of a pair for the later one's
      endpoints; the answer does not depend on which of the two asks, and a connection
      always shares its endpoints with itself. */
  lemma SharesVertexSymmetric(a: Connection, b: Connection)
    ensures SharesVertex(a, b) <==> SharesVertex(b, a)
    ensures SharesVertex(a, a)
  {
  }
}
