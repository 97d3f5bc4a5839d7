/**
 * What the mouse gestures and the 'S' key do to the vertex positions, as
 * functions on the vertex sequence.  Dragging a selection translates every
 * selected vertex, the 'S' key snaps every selected vertex to the grid, and a
 * rotation (or its cancellation) writes each selected vertex from the snapshot
 * taken when the Alt-click began.
 */
module Motion {
  import opened Geometry
  import opened Graph
  import opened Selection
  import opened Grid

  /** The snapshot an Alt-click takes: the positions of the selected vertices, in
      selection order. */
  function Positions(vs: seq<Vertex>, sel: seq<int>): (r: seq<Point>)
    requires forall i :: 0 <= i < |sel| ==> 0 <= sel[i] < |vs|
    ensures |r| == |sel|
  {
    seq(|sel|, i requires 0 <= i < |sel| => vs[sel[i]].position)
  }

  /** The loop `for i < m: Vertices[selected[i]].Position = f(points[i])`. */
  function WrittenBack(vs: seq<Vertex>, sel: seq<int>, points: seq<Point>, f: Point -> Point, m: nat): (r: seq<Vertex>)
    requires IsSelection(sel, |vs|) && m <= |sel| && m <= |points|
    ensures |r| == |vs|
  {
    if m == 0 then vs
    else
      var r := WrittenBack(vs, sel, points, f, m - 1);
      r[sel[m - 1] := r[sel[m - 1]].(position := f(points[m - 1]))]
  }

  /** Writing back changes exactly the first m selected vertices, and only their
      positions: the i-th selected vertex gets f(points[i]). */
  lemma {:induction false} WrittenBackSpec(vs: seq<Vertex>, sel: seq<int>, points: seq<Point>, f: Point -> Point, m: nat)
    requires IsSelection(sel, |vs|) && m <= |sel| && m <= |points|
    ensures forall i :: 0 <= i < m ==> WrittenBack(vs, sel, points, f, m)[sel[i]] == vs[sel[i]].(position := f(points[i]))
    ensures forall v :: 0 <= v < |vs| && v !in sel[..m] ==> WrittenBack(vs, sel, points, f, m)[v] == vs[v]
  {
    if m > 0 {
      WrittenBackSpec(vs, sel, points, f, m - 1);
      assert sel[..m] == sel[..m - 1] + [sel[m - 1]];
      forall i | 0 <= i < m - 1
        ensures sel[i] != sel[m - 1]
      {
      }
    }
  }

  function Identity(p: Point): Point
  {
    p
  }

  /** The rotation step's map: a displacement from the anchor is rotated, then added back
      to the anchor.  The rotation itself (by the angle the mouse has travelled) is
      floating-point trigonometry and comes from outside. */
  function RotationAbout(anchor: Point, rotate: Point -> Point): Point -> Point
  {
    p => Add(rotate(Sub(p, anchor)), anchor)
  }

  /** Cancelling a rotation: whatever a rotation step wrote from the snapshot, writing the
      snapshot itself back restores every vertex as it was when the snapshot was taken. */
  lemma CancelRestores(vs: seq<Vertex>, sel: seq<int>, f: Point -> Point)
    requires IsSelection(sel, |vs|)
    ensures var saved := Positions(vs, sel);
      WrittenBack(WrittenBack(vs, sel, saved, f, |sel|), sel, saved, Identity, |sel|) == vs
  {
    var saved := Positions(vs, sel);
    var rotated := WrittenBack(vs, sel, saved, f, |sel|);
    var restored := WrittenBack(rotated, sel, saved, Identity, |sel|);
    WrittenBackSpec(vs, sel, saved, f, |sel|);
    WrittenBackSpec(rotated, sel, saved, Identity, |sel|);
    assert sel[..|sel|] == sel;
    forall v | 0 <= v < |vs|
      ensures restored[v] == vs[v]
    {
      if v in sel {
        var i :| 0 <= i < |sel| && sel[i] == v;
        assert restored[sel[i]] == rotated[sel[i]].(position := saved[i]);
      }
    }
  }

  /** Every selected vertex moved by f (its Moved flag kept); every other vertex as it was. */
  function Mapped(vs: seq<Vertex>, sel: seq<int>, f: Point -> Point): (r: seq<Vertex>)
    ensures |r| == |vs|
  {
    seq(|vs|, v requires 0 <= v < |vs| => if v in sel then vs[v].(position := f(vs[v].position)) else vs[v])
  }

  function Translation(d: Point): Point -> Point
  {
    p => Add(p, d)
  }

  /** Two steps of a selection drag add up: moving by d1 and then by d2 is moving by
      d1 + d2, so the selection follows the mouse's total displacement. */
  lemma TranslationsCompose(vs: seq<Vertex>, sel: seq<int>, d1: Point, d2: Point)
    ensures Mapped(Mapped(vs, sel, Translation(d1)), sel, Translation(d2)) == Mapped(vs, sel, Translation(Add(d1, d2)))
  {
    var a := Mapped(Mapped(vs, sel, Translation(d1)), sel, Translation(d2));
    var b := Mapped(vs, sel, Translation(Add(d1, d2)));
    forall v | 0 <= v < |vs|
      ensures a[v] == b[v]
    {
      if v in sel {
        var p := vs[v].position;
        assert Mapped(vs, sel, Translation(d1))[v].position == Add(p, d1);
        assert a[v].position == Add(Add(p, d1), d2);
        assert b[v].position == Add(p, Add(d1, d2));
      }
    }
  }

  /** The 'S' key's map: to the screen, to the nearest grid point, and back. */
  function SnapPoint(view: View, gridSize: int): Point -> Point
    requires ValidView(view)
  {
    p => ToVirtualPoint(view, SnapToGrid(ToScreenPoint(view, p), gridSize))
  }

  /** A snapped point is on the grid: snapping it again leaves it in place, because the
      view transform takes its grid pixel back to that same pixel. */
  lemma SnapPointIdempotent(view: View, gridSize: int, p: Point)
    requires ValidView(view) && gridSize != 1
    ensures SnapPoint(view, gridSize)(SnapPoint(view, gridSize)(p)) == SnapPoint(view, gridSize)(p)
  {
    var pixel := SnapToGrid(ToScreenPoint(view, p), gridSize);
    ScreenRoundTrip(view, pixel);
    SnapIdempotent(ToScreenPoint(view, p), gridSize);
  }

  /** Pressing 'S' twice moves nothing the second time. */
  lemma {:induction false} SnapTwice(vs: seq<Vertex>, sel: seq<int>, view: View, gridSize: int)
    requires ValidView(view) && gridSize != 1
    ensures var f := SnapPoint(view, gridSize);
      Mapped(Mapped(vs, sel, f), sel, f) == Mapped(vs, sel, f)
  {
    var f := SnapPoint(view, gridSize);
    var once := Mapped(vs, sel, f);
    forall v | 0 <= v < |vs|
      ensures Mapped(once, sel, f)[v] == once[v]
    {
      if v in sel {
        SnapPointIdempotent(view, gridSize, vs[v].position);
      }
    }
  }

  /** One mouse move while dragging vertex d to the (snapped) point current: alone, d
      jumps there and is marked moved; with a selection, the whole selection moves by the
      mouse's displacement since the last move. */
  function VertexDrag(vs: seq<Vertex>, sel: seq<int>, d: int, current: Point, last: Point): (r: seq<Vertex>)
    requires 0 <= d < |vs|
  {
    if |sel| == 0 then vs[d := Vertex(current, true)]
    else Mapped(vs, sel, Translation(Sub(current, last)))
  }

  /** Dragging a lone vertex changes that vertex only; dragging a selection shifts every
      selected vertex by the same vector and changes no Moved flag and no other vertex. */
  lemma VertexDragSpec(vs: seq<Vertex>, sel: seq<int>, d: int, current: Point, last: Point)
    requires 0 <= d < |vs|
    ensures |VertexDrag(vs, sel, d, current, last)| == |vs|
    ensures |sel| == 0 ==> VertexDrag(vs, sel, d, current, last)[d] == Vertex(current, true)
    ensures forall v :: 0 <= v < |vs| ==>
      var r := VertexDrag(vs, sel, d, current, last);
      if |sel| == 0 then (v != d ==> r[v] == vs[v])
      else r[v].moved == vs[v].moved &&
           r[v].position == (if v in sel then Add(vs[v].position, Sub(current, last)) else vs[v].position)
  {
  }
}
