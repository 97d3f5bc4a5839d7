/**
 * The game state and everything that changes it: level generation, the mouse
 * and keyboard gestures (vertex dragging, rubber-band selection, rotation,
 * camera panning), the selection commands and the solution check.
 *
 * The game keeps all of this in static fields of one class; here they are the
 * fields of one GameState object.  What the game gets from the outside world
 * is passed in: the window size, the mouse position, the modifier keys, and
 * the results of floating-point geometry (the crossing order of the lines, the
 * circle layout, whether a point lies in the selection rectangle, the rotation
 * of the current gesture and whether two segments cross).
 */
module Game {
  import opened Int32
  import opened Geometry
  import opened Pairing
  import opened Graph
  import opened LevelGen
  import opened Selection
  import opened Grid
  import opened Buttons
  import opened Crossing
  import opened Motion
  import LevelText

  datatype Option<T> = None | Some(value: T)

  datatype MouseButton = Left | Middle | Right | WheelUp | WheelDown | XButton1 | XButton2

  /** The game marks "no drag in progress" with a button that can never be dragged. */
  const NotDragging: MouseButton := WheelDown

  /** The factor one wheel step multiplies the zoom by (wheel down); wheel up divides by it. */
  const ZoomSpeed: real := 0.75

  /** The modifier keys held when an event arrives. */
  datatype Modifiers = Modifiers(alt: bool, ctrl: bool, shift: bool)
  {
    predicate OnlyAlt() { alt && !ctrl && !shift }
    predicate OnlyCtrl() { ctrl && !alt && !shift }
  }

  /** The gesture in progress, as encoded by dragButton, dragVertex, buttonPress,
      savedPoints and the modifier keys. */
  datatype Gesture = Idle | DraggingVertex | PressingButton | Rotating | Selecting | Panning

  /** The rectangle selection after releasing the mouse: the inside vertices replace the
      selection, or, when toggling, flip their membership one by one in index order. */
  function RectangleSelection(sel: seq<int>, vs: seq<Vertex>, inside: Point -> bool, toggling: bool): seq<int>
    requires NoDuplicates(sel)
  {
    RectanglePrefix(sel, vs, inside, toggling, |vs|)
  }

  /** The rectangle selection after the loop has looked at the first k vertices. */
  function RectanglePrefix(sel: seq<int>, vs: seq<Vertex>, inside: Point -> bool, toggling: bool, k: nat): seq<int>
    requires NoDuplicates(sel) && k <= |vs|
  {
    if toggling then ToggleAll(sel, InsideIndices(vs, inside, k)) else InsideIndices(vs, inside, k)
  }

  /** One iteration of the rectangle loop: an inside vertex is removed when toggling and
      already selected, and appended otherwise. */
  lemma RectangleStep(sel: seq<int>, vs: seq<Vertex>, inside: Point -> bool, toggling: bool, k: nat)
    requires NoDuplicates(sel) && k < |vs|
    ensures var cur := RectanglePrefix(sel, vs, inside, toggling, k);
      RectanglePrefix(sel, vs, inside, toggling, k + 1) ==
        if !inside(vs[k].position) then cur
        else if toggling && k in cur then RemoveAt(cur, IndexOf(cur, k))
        else cur + [k]
  {
    var xs := InsideIndices(vs, inside, k);
    if inside(vs[k].position) {
      assert InsideIndices(vs, inside, k + 1) == xs + [k];
      if toggling {
        var cur := ToggleAll(sel, xs);
        ToggleAllSnoc(sel, xs, k);
        assert Toggle(cur, k) == if k in cur then RemoveAt(cur, IndexOf(cur, k)) else cur + [k];
      }
    } else {
      assert InsideIndices(vs, inside, k + 1) == xs + [];
      assert xs + [] == xs;
    }
  }

  /** A plain rectangle selects exactly the inside vertices; a Ctrl-rectangle leaves
      exactly the vertices that were selected or inside but not both. */
  lemma RectangleSelectionSpec(sel: seq<int>, vs: seq<Vertex>, inside: Point -> bool, toggling: bool)
    requires IsSelection(sel, |vs|)
    ensures IsSelection(RectangleSelection(sel, vs, inside, toggling), |vs|)
    ensures forall x :: x in RectangleSelection(sel, vs, inside, toggling) <==>
      if toggling then (x in sel) != (0 <= x < |vs| && inside(vs[x].position))
      else 0 <= x < |vs| && inside(vs[x].position)
  {
    InsideIndicesSpec(vs, inside, |vs|);
    InsideIndicesIsSelection(vs, inside);
    if toggling {
      ToggleAllIsSelection(sel, InsideIndices(vs, inside, |vs|), |vs|);
      ToggleAllMembership(sel, InsideIndices(vs, inside, |vs|));
    }
  }

  /** The connection has an endpoint among vs. */
  predicate TouchesAny(c: Connection, vs: seq<int>)
  {
    exists k :: 0 <= k < |vs| && c.HasVertex(vs[k])
  }

  /** Releasing dragged vertices: every connection touching one of them loses its Failed flag. */
  function ClearedFailures(edges: seq<Connection>, vs: seq<int>): seq<Connection>
  {
    seq(|edges|, k requires 0 <= k < |edges| => if TouchesAny(edges[k], vs) then edges[k].(failed := false) else edges[k])
  }

  /** Clearing failures keeps every endpoint and only ever lowers flags, and afterwards no
      connection touching the vertices is failed. */
  lemma ClearedFailuresSpec(edges: seq<Connection>, vs: seq<int>)
    ensures |ClearedFailures(edges, vs)| == |edges|
    ensures forall k :: 0 <= k < |edges| ==>
      && ClearedFailures(edges, vs)[k].first == edges[k].first
      && ClearedFailures(edges, vs)[k].second == edges[k].second
      && (ClearedFailures(edges, vs)[k].failed <==> edges[k].failed && !TouchesAny(edges[k], vs))
  {
  }

  /** The solution check's verdict on a crossing pair: both connections become failed. */
  function MarkFailed(edges: seq<Connection>, i: int, j: int): (r: seq<Connection>)
    requires 0 <= i < j < |edges|
    ensures |r| == |edges|
    ensures r[i].failed && r[j].failed
    ensures forall k :: 0 <= k < |edges| ==> r[k].first == edges[k].first && r[k].second == edges[k].second
    ensures forall k :: 0 <= k < |edges| && k != i && k != j ==> r[k] == edges[k]
    ensures forall k :: 0 <= k < |edges| && edges[k].failed ==> r[k].failed
  {
    edges[i := edges[i].(failed := true)][j := edges[j].(failed := true)]
  }

  /** The selection after a left click on vertex v: Ctrl toggles v, a plain click keeps the
      selection when v is in it (so that the whole selection is dragged) and clears it
      otherwise. */
  function ClickSelection(sel: seq<int>, v: int, ctrl: bool): seq<int>
    requires NoDuplicates(sel)
  {
    if ctrl then Toggle(sel, v) else if v in sel then sel else []
  }

  /** A click keeps the selection well formed; Ctrl flips the clicked vertex's membership
      and keeps every other; a plain click leaves the clicked vertex selected exactly when
      it was, and otherwise nothing is selected. */
  lemma ClickSelectionSpec(sel: seq<int>, v: int, ctrl: bool, count: int)
    requires IsSelection(sel, count) && 0 <= v < count
    ensures IsSelection(ClickSelection(sel, v, ctrl), count)
    ensures ctrl ==> forall y :: y in ClickSelection(sel, v, ctrl) <==> (if y == v then v !in sel else y in sel)
    ensures !ctrl && v in sel ==> ClickSelection(sel, v, ctrl) == sel
    ensures !ctrl && v !in sel ==> ClickSelection(sel, v, ctrl) == []
  {
    if ctrl {
      ToggleIsSelection(sel, v, count);
    }
  }

  /** The topmost vertex under the mouse: the highest index whose circle contains it, or -1. */
  predicate IsHighlight(vs: seq<Vertex>, view: View, mouse: ScreenPoint, h: int)
    requires ValidView(view)
  {
    && -1 <= h < |vs|
    && (h == -1 ==> forall i :: 0 <= i < |vs| ==> !vs[i].Contains(view, mouse))
    && (h != -1 ==> vs[h].Contains(view, mouse) && forall i :: h < i < |vs| ==> !vs[i].Contains(view, mouse))
  }

  /** main.cs UpdateHighlights' search, from the last vertex down. */
  method FindHighlight(vs: seq<Vertex>, view: View, mouse: ScreenPoint) returns (h: int)
    requires ValidView(view)
    ensures IsHighlight(vs, view, mouse, h)
  {
    h := -1;
    var i := |vs| - 1;
    while i >= 0
      invariant -1 <= i < |vs|
      invariant forall j :: i < j < |vs| ==> !vs[j].Contains(view, mouse)
    {
      if vs[i].Contains(view, mouse) {
        h := i;
        return;
      }
      i := i - 1;
    }
  }

  /** main.cs line 767: the level chosen in the dialog, clamped to at least 1. */
  function ChosenLevel(chosen: int): (r: int)
    ensures r >= 1 && r >= chosen
    ensures chosen >= 1 ==> r == chosen
    ensures chosen < 1 ==> r == 1
  {
    if chosen < 1 then 1 else chosen
  }

  /** The points earned by solving a level: 100 per level number, less one per second
      taken, never negative. */
  function LevelScore(level: int, elapsedSeconds: int): (r: int)
    ensures r >= 0 && r >= 100 * level - elapsedSeconds
    ensures r == 0 || r == 100 * level - elapsedSeconds
  {
    if 100 * level - elapsedSeconds < 0 then 0 else 100 * level - elapsedSeconds
  }

  /** The edge loop of main.cs GenerateLevel: for each line in turn, one connection per
      consecutive pair of its crossings. */
  method BuildConnections(orders: seq<seq<int>>, n: int) returns (cs: array<Connection>)
    requires IsArrangementOrder(orders, n)
    ensures fresh(cs)
    ensures cs[..] == LevelEdges(orders, n, n)
  {
    assert |LevelEdges(orders, n, n)| == EdgeCount(n) by {
      LevelEdgesShape(orders, n);
    }
    cs := new Connection[EdgeCount(n)](_ => Connection(0, 0, false));
    var li, ci := 0, 0;
    while li < n
      invariant 0 <= li <= n
      invariant ci == |LevelEdges(orders, n, li)| <= cs.Length
      invariant cs[..ci] == LevelEdges(orders, n, li)
    {
      var line := LineEdges(li, orders[li], n);
      assert LevelEdges(orders, n, li + 1) == LevelEdges(orders, n, li) + line;
      assert ci + |line| <= cs.Length by {
        LevelEdgesFit(orders, n, li + 1);
      }
      WriteLineEdges(cs, ci, li, orders[li], n);
      ci, li := ci + |line|, li + 1;
    }
    assert cs[..] == cs[..ci];
  }

  /** The inner edge loop: line li's connections written from index start on. */
  method WriteLineEdges(cs: array<Connection>, start: nat, li: int, order: seq<int>, n: int)
    requires IsLineOrder(order, li, n) && start + (n - 2) <= cs.Length
    modifies cs
    ensures cs[..start + (n - 2)] == old(cs[..start]) + LineEdges(li, order, n)
    ensures cs[start + (n - 2)..] == old(cs[start + (n - 2)..])
  {
    ghost var line := LineEdges(li, order, n);
    var i := 0;
    while i < n - 2
      invariant 0 <= i <= n - 2
      invariant cs[..start] == old(cs[..start])
      invariant cs[start..start + i] == line[..i]
      invariant cs[start + (n - 2)..] == old(cs[start + (n - 2)..])
    {
      cs[start + i] := SegmentEdge(li, order, n, i);
      i := i + 1;
    }
    assert cs[..start + (n - 2)] == cs[..start] + cs[start..start + (n - 2)];
  }

  /** The vertex loop of main.cs GenerateLevel: vertex i goes to layout(i, count), the
      i-th of count points evenly spaced on a circle, and starts unmoved. */
  method PlaceVertices(count: nat, layout: (int, int) -> Point) returns (vs: array<Vertex>)
    ensures fresh(vs) && vs.Length == count
    ensures forall i :: 0 <= i < count ==> vs[i] == Vertex(layout(i, count), false)
  {
    vs := new Vertex[count](_ => Vertex(Point(0.0, 0.0), false));
    var k := 0;
    while k < count
      invariant 0 <= k <= count
      invariant forall j :: 0 <= j < k ==> vs[j] == Vertex(layout(j, count), false)
      invariant forall j :: k <= j < count ==> vs[j] == Vertex(Point(0.0, 0.0), false)
    {
      vs[k] := vs[k].(position := layout(k, count));
      k := k + 1;
    }
  }

  class GameState {
    var vertices: array<Vertex>
    var connections: array<Connection>
    /** The positions of the selected vertices when a rotation started (null otherwise). */
    var savedPoints: Option<seq<Point>>
    var selected: seq<int>
    var cameraPoint: Point
    var dragPoint: Point
    var mouseDownPoint: Point
    var zoomLevel: real
    var timeOffset: real
    var score: int
    var level: int
    var dragVertex: int
    var highlighted: int
    var buttonPress: int
    var buttonOver: int
    var gridSize: int
    var dragButton: MouseButton

    /** The state that survives a change of level. */
    ghost predicate Settled()
      reads this`score, this`gridSize, this`dragButton, this`savedPoints
    {
      && InInt32(score)
      && IsGridSize(gridSize)
      && (dragButton == NotDragging || dragButton == Left || dragButton == Right)
      && (dragButton != Left ==> savedPoints == None)
    }

    /** Every connection and every selected index names a vertex, each selected once. */
    ghost predicate GraphValid()
      reads this`vertices, this`connections, this`selected, connections
    {
      EdgesWithin(connections[..], vertices.Length) && IsSelection(selected, vertices.Length)
    }

    /** The dragged and highlighted vertices and the pressed and hovered buttons are -1 or
        valid indices; a vertex drag and a button press exclude each other, and both need
        the left button to be down. */
    ghost predicate MarksValid()
      reads this`vertices, this`dragVertex, this`highlighted, this`buttonPress, this`buttonOver, this`dragButton
    {
      && -1 <= dragVertex < vertices.Length
      && -1 <= highlighted < vertices.Length
      && -1 <= buttonPress < |AllButtons|
      && -1 <= buttonOver < |AllButtons|
      && (dragVertex != -1 ==> buttonPress == -1)
      && (dragButton != Left ==> dragVertex == -1 && buttonPress == -1)
    }

    ghost predicate Valid()
      reads this, connections
    {
      && Settled()
      && level >= 1
      && zoomLevel > 0.0
      && GraphValid()
      && MarksValid()
    }

    function ViewOf(screen: Screen): View
      reads this
    {
      View(cameraPoint, zoomLevel, screen)
    }

    /** main.cs IsRotating. */
    predicate IsRotating(mods: Modifiers)
      reads this
    {
      mods.OnlyAlt() && savedPoints.Some?
    }

    /** A rotation needs the snapshot of an Alt-click, which only exists while the left
        button is held: IsRotating implies a left drag with Alt alone held. */
    lemma RotatingOnlyInLeftDrag(mods: Modifiers)
      requires Valid()
      ensures IsRotating(mods) ==> dragButton == Left && mods.alt && !mods.ctrl && !mods.shift
      ensures dragButton != Left ==> !IsRotating(mods)
    {
    }

    /** main.cs line 271: a rubber-band selection is in progress. */
    predicate IsSelecting(mods: Modifiers)
      reads this
    {
      dragButton == Left && dragVertex == -1 && buttonPress == -1 && !IsRotating(mods)
    }

    function GestureOf(mods: Modifiers): (g: Gesture)
      reads this
      ensures g == Selecting <==> IsSelecting(mods)
      ensures g == Rotating <==> dragButton == Left && dragVertex == -1 && buttonPress == -1 && IsRotating(mods)
      ensures g == Idle <==> dragButton != Left && dragButton != Right
    {
      if dragButton == Left then
        if dragVertex != -1 then DraggingVertex
        else if buttonPress != -1 then PressingButton
        else if IsRotating(mods) then Rotating
        else Selecting
      else if dragButton == Right then Panning
      else Idle
    }

    /** What GenerateLevel leaves behind. */
    ghost predicate IsNewLevel(newLevel: int, orders: seq<seq<int>>, layout: (int, int) -> Point)
      reads this, vertices, connections
    {
      && newLevel >= 1
      && IsArrangementOrder(orders, 3 + newLevel)
      && vertices.Length == VertexCount(3 + newLevel)
      && connections[..] == LevelEdges(orders, 3 + newLevel, 3 + newLevel)
      && (forall i :: 0 <= i < vertices.Length ==> vertices[i] == Vertex(layout(i, vertices.Length), false))
      && IsReset(newLevel)
    }

    /** The per-level state GenerateLevel resets: no selection, no highlighted, dragged or
        pressed object, the level number, the play clock and the camera. */
    ghost predicate IsReset(newLevel: int)
      reads this
    {
      && selected == []
      && dragVertex == -1 && highlighted == -1 && buttonPress == -1 && buttonOver == -1
      && level == newLevel
      && timeOffset == 0.0
      && cameraPoint == Point(0.0, 0.0) && zoomLevel == 1.0
    }

    /** The start of the game: the initial field values, then level 1
        (a saved game, when there is one, is not part of this model). */
    constructor (orders: seq<seq<int>>, layout: (int, int) -> Point)
      requires IsArrangementOrder(orders, 4)
      ensures Valid() && IsNewLevel(1, orders, layout)
      ensures score == 0 && gridSize == MaxGridSize && dragButton == NotDragging
    {
      vertices := new Vertex[0];
      connections := new Connection[0];
      savedPoints := None;
      selected := [];
      cameraPoint, dragPoint, mouseDownPoint := Point(0.0, 0.0), Point(0.0, 0.0), Point(0.0, 0.0);
      zoomLevel, timeOffset := 1.0, 0.0;
      score, level := 0, 0;
      dragVertex, highlighted, buttonPress, buttonOver := 0, 0, 0, 0;
      gridSize := MaxGridSize;
      dragButton := NotDragging;
      new;
      GenerateLevel(1, orders, layout);
    }

    /** main.cs GenerateLevel, with the random lines replaced by their crossing orders
        and the circle layout by `layout(index, vertexCount)`. */
    method GenerateLevel(newLevel: int, orders: seq<seq<int>>, layout: (int, int) -> Point)
      requires newLevel >= 1
      requires IsArrangementOrder(orders, 3 + newLevel)
      requires Settled()
      modifies this`vertices, this`connections, this`selected, this`buttonOver, this`buttonPress,
        this`dragVertex, this`highlighted, this`level, this`cameraPoint, this`zoomLevel, this`timeOffset
      ensures fresh(vertices) && fresh(connections)
      ensures Valid() && IsNewLevel(newLevel, orders, layout)
    {
      var n := 3 + newLevel;
      var cs := BuildConnections(orders, n);
      VertexCountNatural(n);
      var vs := PlaceVertices(VertexCount(n), layout);
      LevelEdgesWithin(orders, n);
      ResetView(newLevel);
      Install(vs, cs);
    }

    /** The end of main.cs GenerateLevel, first part: the level number, the camera and the
        play clock start afresh. */
    method ResetView(newLevel: int)
      modifies this`level, this`cameraPoint, this`zoomLevel, this`timeOffset
      ensures level == newLevel && timeOffset == 0.0
      ensures cameraPoint == Point(0.0, 0.0) && zoomLevel == 1.0
    {
      level := newLevel;
      ResetViewpoint();
      timeOffset := 0.0;
    }

    /** main.cs ResetViewpoint: the camera back at the origin, unzoomed. */
    method ResetViewpoint()
      modifies this`cameraPoint, this`zoomLevel
      ensures cameraPoint == Point(0.0, 0.0) && zoomLevel == 1.0
    {
      cameraPoint := Point(0.0, 0.0);
      zoomLevel := 1.0;
    }

    /** The end of main.cs GenerateLevel, second part: the new graph replaces the old one,
        with nothing selected, highlighted, dragged or pressed. */
    method Install(vs: array<Vertex>, cs: array<Connection>)
      requires Settled() && level >= 1 && zoomLevel > 0.0
      requires EdgesWithin(cs[..], vs.Length)
      modifies this`vertices, this`connections, this`selected, this`buttonOver, this`buttonPress,
        this`dragVertex, this`highlighted
      ensures vertices == vs && connections == cs
      ensures selected == [] && dragVertex == -1 && highlighted == -1 && buttonPress == -1 && buttonOver == -1
      ensures Valid()
    {
      vertices, connections, selected := vs, cs, [];
      buttonOver, buttonPress, dragVertex, highlighted := -1, -1, -1, -1;
    }

    /** The start of main.cs SkipToLevel: a new level dialog whose box shows the current
        level, so that confirming it unedited reads the same level back. */
    method OpenLevelDialog() returns (form: LevelText.LevelForm)
      requires Valid() && level <= MaxInt32
      ensures fresh(form) && form.Valid()
      ensures form.text == LevelText.NatDigits(level)
      ensures form.Level() == LevelText.Ok(level)
    {
      form := new LevelText.LevelForm();
      form.SetLevel(level);
      LevelText.LevelRoundTrip(level);
    }

    /** The rest of main.cs SkipToLevel, once the dialog is closed (confirmed: with OK).
        The score is reset before the box is read; reading it throws (ok false) when
        int.Parse fails, and nothing else changes then.  Otherwise the clamped level
        starts afresh. */
    method SkipToLevel(form: LevelText.LevelForm, confirmed: bool, orders: seq<seq<int>>, layout: (int, int) -> Point)
      returns (ok: bool)
      requires Valid() && form.Valid()
      requires confirmed && form.Level().Ok? ==> IsArrangementOrder(orders, 3 + ChosenLevel(form.Level().value))
      modifies this`score, this`vertices, this`connections, this`selected, this`buttonOver, this`buttonPress,
        this`dragVertex, this`highlighted, this`level, this`cameraPoint, this`zoomLevel, this`timeOffset
      ensures Valid()
      ensures ok <==> !confirmed || form.Level().Ok?
      ensures score == if confirmed then 0 else old(score)
      ensures confirmed && form.Level().Ok? ==> IsNewLevel(ChosenLevel(form.Level().value), orders, layout)
      ensures !(confirmed && form.Level().Ok?) ==>
        && unchanged(this`vertices, this`connections, this`selected, this`buttonOver, this`buttonPress)
        && unchanged(this`dragVertex, this`highlighted, this`level, this`cameraPoint, this`zoomLevel, this`timeOffset)
    {
      ok := true;
      if confirmed {
        score := 0;
        var entered := form.Level();
        if entered.Ok? {
          GenerateLevel(ChosenLevel(entered.value), orders, layout);
        } else {
          ok := false;
        }
      }
    }

    /** main.cs CheckSolution.  `crosses(i, j)` says whether the segments of connections
        i and j cross at the current positions; `elapsedSeconds` is the rounded play time;
        `nextOrders` and `layout` build the next level when this one is solved. */
    method CheckSolution(crosses: (int, int) -> bool, elapsedSeconds: int,
                         nextOrders: seq<seq<int>>, layout: (int, int) -> Point) returns (solved: bool)
      requires Valid()
      requires IsArrangementOrder(nextOrders, 3 + (level + 1))
      modifies connections, this`score, this`vertices, this`connections, this`selected, this`buttonOver,
        this`buttonPress, this`dragVertex, this`highlighted, this`level, this`cameraPoint, this`zoomLevel,
        this`timeOffset
      ensures Valid()
      ensures solved <==> NoCrossing(old(connections[..]), crosses)
      ensures !solved ==> unchanged(this) && exists i, j :: FirstCrossing(old(connections[..]), crosses, i, j)
      ensures forall i, j :: FirstCrossing(old(connections[..]), crosses, i, j) ==>
        connections[..] == MarkFailed(old(connections[..]), i, j)
      ensures solved ==> score == Wrap(old(score) + LevelScore(old(level), elapsedSeconds))
      ensures solved ==> IsNewLevel(old(level) + 1, nextOrders, layout) && fresh(connections)
    {
      var found, i, j := FindCrossing(connections[..], crosses);
      if found {
        connections[i] := connections[i].(failed := true);
        connections[j] := connections[j].(failed := true);
        forall i2, j2 | FirstCrossing(old(connections[..]), crosses, i2, j2)
          ensures connections[..] == MarkFailed(old(connections[..]), i2, j2)
        {
          FirstCrossingUnique(old(connections[..]), crosses, i, j, i2, j2);
        }
        solved := false;
      } else {
        score := Wrap(score + LevelScore(level, elapsedSeconds));
        GenerateLevel(level + 1, nextOrders, layout);
        solved := true;
      }
    }

    /** main.cs ClearSelectedFailureLines. */
    method ClearSelectedFailureLines()
      requires Valid()
      modifies connections
      ensures connections[..] == ClearedFailures(old(connections[..]), selected)
    {
      var i := 0;
      while i < connections.Length
        invariant 0 <= i <= connections.Length
        invariant forall k :: 0 <= k < i ==> connections[k] == ClearedFailures(old(connections[..]), selected)[k]
        invariant forall k :: i <= k < connections.Length ==> connections[k] == old(connections[k])
      {
        if |selected| != 0 {
          var j := 0;
          while j < |selected|
            invariant 0 <= j <= |selected|
            invariant connections[i] == old(connections[i])
            invariant forall k :: 0 <= k < j ==> !connections[i].HasVertex(selected[k])
            invariant forall k :: 0 <= k < i ==> connections[k] == ClearedFailures(old(connections[..]), selected)[k]
            invariant forall k :: i < k < connections.Length ==> connections[k] == old(connections[k])
          {
            if connections[i].HasVertex(selected[j]) {
              connections[i] := connections[i].(failed := false);
              break;
            }
            j := j + 1;
          }
        }
        i := i + 1;
      }
    }

    /** main.cs MarkMoved: the selected vertices, or all of them when none is selected. */
    method MarkMoved(moved: bool)
      requires Valid()
      modifies vertices
      ensures forall v :: 0 <= v < vertices.Length ==>
        vertices[v] == if |selected| == 0 || v in selected then old(vertices[v]).(moved := moved) else old(vertices[v])
    {
      if |selected| == 0 {
        var i := 0;
        while i < vertices.Length
          invariant 0 <= i <= vertices.Length
          invariant forall v :: 0 <= v < i ==> vertices[v] == old(vertices[v]).(moved := moved)
          invariant forall v :: i <= v < vertices.Length ==> vertices[v] == old(vertices[v])
        {
          vertices[i] := vertices[i].(moved := moved);
          i := i + 1;
        }
      } else {
        var k := 0;
        while k < |selected|
          invariant 0 <= k <= |selected|
          invariant forall v :: 0 <= v < vertices.Length ==>
            vertices[v] == if v in selected[..k] then old(vertices[v]).(moved := moved) else old(vertices[v])
        {
          var vertex := selected[k];
          vertices[vertex] := vertices[vertex].(moved := moved);
          assert selected[..k + 1] == selected[..k] + [vertex];
          k := k + 1;
        }
        assert selected[..k] == selected;
      }
    }

    /** main.cs SelectAll. */
    method SelectAll()
      requires Valid()
      modifies this`selected
      ensures Valid()
      ensures selected == seq(vertices.Length, i => i)
    {
      selected := [];
      var i := 0;
      while i < vertices.Length
        invariant 0 <= i <= vertices.Length
        invariant selected == seq(i, j => j)
      {
        selected := selected + [i];
        i := i + 1;
      }
    }

    /** main.cs SelectVertex. */
    method SelectVertex(index: int)
      requires Valid()
      requires 0 <= index < vertices.Length
      modifies this`selected
      ensures Valid()
      ensures selected == Toggle(old(selected), index)
    {
      ToggleIsSelection(selected, index, vertices.Length);
      var selIndex := IndexOf(selected, index);
      if selIndex == -1 {
        selected := selected + [index];
      } else {
        selected := RemoveAt(selected, selIndex);
      }
    }

    /** main.cs UpdateHighlights. */
    method UpdateHighlights(screen: Screen, mouse: ScreenPoint)
      requires Valid() && ValidView(ViewOf(screen))
      modifies this`highlighted
      ensures Valid()
      ensures IsHighlight(vertices[..], ViewOf(screen), mouse, highlighted)
    {
      highlighted := FindHighlight(vertices[..], ViewOf(screen), mouse);
    }

    /** main.cs UpdateButtonOver. */
    method UpdateButtonOver(screen: Screen, mouse: ScreenPoint)
      requires Valid()
      modifies this`buttonOver
      ensures Valid()
      ensures FirstButtonOver(screen, mouse, buttonOver)
    {
      buttonOver := FindButtonOver(screen, mouse);
    }
      /** FinishDrag's loop for a lone dragged vertex: every connection touching it loses
        its Failed flag. */
    method ClearVertexFailures(vertex: int)
      modifies connections
      ensures connections[..] == ClearedFailures(old(connections[..]), [vertex])
    {
      var i := 0;
      while i < connections.Length
        invariant 0 <= i <= connections.Length
        invariant forall k :: 0 <= k < i ==> connections[k] == ClearedFailures(old(connections[..]), [vertex])[k]
        invariant forall k :: i <= k < connections.Length ==> connections[k] == old(connections[k])
      {
        assert TouchesAny(connections[i], [vertex]) <==> connections[i].HasVertex(vertex) by {
          assert [vertex][0] == vertex;
        }
        if connections[i].HasVertex(vertex) {
          connections[i] := connections[i].(failed := false);
        }
        i := i + 1;
      }
    }

    /** FinishDrag's rubber band: the vertices inside the rectangle replace the selection or,
        when toggling, are each removed if selected and added otherwise. */
    method SelectInRectangle(inside: Point -> bool, toggling: bool)
      requires Valid()
      modifies this`selected
      ensures Valid()
      ensures selected == RectangleSelection(old(selected), vertices[..], inside, toggling)
    {
      ghost var vs := vertices[..];
      ghost var before := selected;
      RectangleSelectionSpec(before, vs, inside, toggling);
      if !toggling {
        selected := [];
      }
      var i := 0;
      while i < vertices.Length
        invariant 0 <= i <= vertices.Length
        invariant selected == RectanglePrefix(before, vs, inside, toggling, i)
      {
        RectangleStep(before, vs, inside, toggling, i);
        if inside(vertices[i].position) {
          if toggling && i in selected {
            selected := RemoveAt(selected, IndexOf(selected, i));
          } else {
            selected := selected + [i];
          }
        }
        i := i + 1;
      }
    }

    /** main.cs FinishDrag, which ends every drag.  A click on a UI button is reported in
        `activated` (an index into Buttons.AllButtons whose `handler` field names the operation
        that runs next: 0 'L' SkipToLevel, 1 'S' ShuffleVertices, 2 'C' CheckSolution,
        3 'P' Pause; or -1 when no button was clicked); `mods` are the
        modifier keys held at the release and `inside` tests a point against the rectangle
        from the press point to the mouse. */
    method FinishDrag(screen: Screen, mouse: ScreenPoint, mods: Modifiers, inside: Point -> bool) returns (activated: int)
      requires Valid()
      modifies connections, this`buttonOver, this`selected, this`dragVertex, this`buttonPress,
        this`savedPoints, this`dragButton
      ensures Valid() && dragButton == NotDragging
      ensures dragVertex == -1 && buttonPress == -1 && savedPoints == None
      ensures FirstButtonOver(screen, mouse, buttonOver)
      ensures activated == if old(dragButton) == Left && old(buttonPress) != -1
                              && ButtonContains(AllButtons[old(buttonPress)], screen, mouse)
                           then old(buttonPress) else -1
      ensures old(dragButton) == Left && activated == -1 && old(dragVertex) != -1 ==>
        selected == old(selected) &&
        connections[..] == ClearedFailures(old(connections[..]), if |old(selected)| == 0 then [old(dragVertex)] else old(selected))
      ensures old(dragButton) == Left && activated == -1 && old(dragVertex) == -1 && !mods.alt ==>
        connections[..] == old(connections[..]) &&
        selected == RectangleSelection(old(selected), vertices[..], inside, mods.OnlyCtrl())
      ensures old(dragButton) != Left || activated != -1 || (old(dragVertex) == -1 && mods.alt) ==>
        connections[..] == old(connections[..]) && selected == old(selected)
    {
      UpdateButtonOver(screen, mouse);
      activated := -1;
      if dragButton == Left {
        activated := ReleaseLeft(screen, mouse, mods, inside);
      }
      dragButton := NotDragging;
    }

    /** The left-button part of FinishDrag: a button click, the drop of a dragged vertex, or
        the end of a rubber-band selection; then the pressed button and the snapshot are
        dropped. */
    method ReleaseLeft(screen: Screen, mouse: ScreenPoint, mods: Modifiers, inside: Point -> bool) returns (activated: int)
      requires Valid() && dragButton == Left
      modifies connections, this`selected, this`dragVertex, this`buttonPress, this`savedPoints
      ensures Valid() && dragVertex == -1 && buttonPress == -1 && savedPoints == None
      ensures activated == if old(buttonPress) != -1 && ButtonContains(AllButtons[old(buttonPress)], screen, mouse)
                           then old(buttonPress) else -1
      ensures activated == -1 && old(dragVertex) != -1 ==>
        selected == old(selected) &&
        connections[..] == ClearedFailures(old(connections[..]), if |old(selected)| == 0 then [old(dragVertex)] else old(selected))
      ensures activated == -1 && old(dragVertex) == -1 && !mods.alt ==>
        connections[..] == old(connections[..]) &&
        selected == RectangleSelection(old(selected), vertices[..], inside, mods.OnlyCtrl())
      ensures activated != -1 || (old(dragVertex) == -1 && mods.alt) ==>
        connections[..] == old(connections[..]) && selected == old(selected)
    {
      activated := -1;
      if buttonPress != -1 && ButtonContains(AllButtons[buttonPress], screen, mouse) {
        activated := buttonPress;
      } else {
        EndGesture(mods, inside);
      }
      buttonPress := -1;
      savedPoints := None;
    }

    /** A left release that activates no button: a dragged vertex (or the selection dragged
        with it) is dropped and its connections lose their Failed flags; otherwise, unless
        Alt is held, the rubber band selects. */
    method EndGesture(mods: Modifiers, inside: Point -> bool)
      requires Valid() && dragButton == Left
      modifies connections, this`selected, this`dragVertex
      ensures Valid() && dragVertex == -1
      ensures old(dragVertex) != -1 ==>
        selected == old(selected) &&
        connections[..] == ClearedFailures(old(connections[..]), if |old(selected)| == 0 then [old(dragVertex)] else old(selected))
      ensures old(dragVertex) == -1 && !mods.alt ==>
        connections[..] == old(connections[..]) &&
        selected == RectangleSelection(old(selected), vertices[..], inside, mods.OnlyCtrl())
      ensures old(dragVertex) == -1 && mods.alt ==>
        connections[..] == old(connections[..]) && selected == old(selected)
    {
      if dragVertex != -1 {
        if |selected| != 0 {
          ClearSelectedFailureLines();
        } else {
          ClearVertexFailures(dragVertex);
        }
        dragVertex := -1;
      } else if !mods.alt {
        SelectInRectangle(inside, mods.OnlyCtrl());
      }
    }

    /** The snapshot loop of an Alt-click: the positions of the selected vertices. */
    method SnapshotSelected() returns (saved: seq<Point>)
      requires GraphValid()
      ensures saved == Positions(vertices[..], selected)
    {
      saved := [];
      var i := 0;
      while i < |selected|
        invariant 0 <= i <= |selected|
        invariant |saved| == i
        invariant forall k :: 0 <= k < i ==> saved[k] == vertices[selected[k]].position
      {
        saved := saved + [vertices[selected[i]].position];
        i := i + 1;
      }
    }

    /** The left-button press of main.cs EventProc (taken only when nothing is being
        dragged): an Alt-click starts a rotation of the selection, a click on a vertex
        starts dragging it (Ctrl toggles its selection, a plain click on an unselected vertex
        clears the selection), and a click elsewhere presses the UI button under the mouse
        or starts a rubber-band selection.  Every left press starts a left drag.  The source
        sets dragVertex to the highlighted vertex before branching and back to -1 for an
        Alt-click, and sets dragButton in several branches; here each is set once. */
    method LeftPress(screen: Screen, mouse: ScreenPoint, mods: Modifiers)
      requires Valid() && ValidView(ViewOf(screen)) && dragButton == NotDragging
      modifies this`mouseDownPoint, this`highlighted, this`dragVertex, this`savedPoints, this`dragButton,
        this`selected, this`buttonOver, this`buttonPress
      ensures Valid() && dragButton == Left
      ensures mouseDownPoint == ToVirtualPoint(ViewOf(screen), mouse)
      ensures IsHighlight(vertices[..], ViewOf(screen), mouse, highlighted)
      ensures mods.OnlyAlt() ==>
        && savedPoints == Some(Positions(vertices[..], selected))
        && selected == old(selected) && dragVertex == -1 && buttonPress == -1
      ensures !mods.OnlyAlt() ==> savedPoints == None
      ensures !mods.OnlyAlt() && highlighted != -1 ==>
        && dragVertex == highlighted && buttonPress == -1
        && selected == ClickSelection(old(selected), highlighted, mods.OnlyCtrl())
      ensures !mods.OnlyAlt() && highlighted == -1 ==>
        && dragVertex == -1 && selected == old(selected)
        && FirstButtonOver(screen, mouse, buttonPress) && buttonOver == buttonPress
      ensures mods.OnlyAlt() || highlighted != -1 ==> buttonOver == old(buttonOver)
    {
      mouseDownPoint := ToVirtualPoint(ViewOf(screen), mouse);
      UpdateHighlights(screen, mouse);
      PressAt(screen, mouse, mods);
    }

    /** The branches of a left press, once the highlighted vertex is known. */
    method PressAt(screen: Screen, mouse: ScreenPoint, mods: Modifiers)
      requires Valid() && dragButton == NotDragging
      modifies this`dragVertex, this`savedPoints, this`dragButton, this`selected, this`buttonOver, this`buttonPress
      ensures Valid() && dragButton == Left
      ensures mods.OnlyAlt() ==>
        && savedPoints == Some(Positions(vertices[..], selected))
        && selected == old(selected) && dragVertex == -1 && buttonPress == -1
      ensures !mods.OnlyAlt() ==> savedPoints == None
      ensures !mods.OnlyAlt() && highlighted != -1 ==>
        && dragVertex == highlighted && buttonPress == -1
        && selected == ClickSelection(old(selected), highlighted, mods.OnlyCtrl())
      ensures !mods.OnlyAlt() && highlighted == -1 ==>
        && dragVertex == -1 && selected == old(selected)
        && FirstButtonOver(screen, mouse, buttonPress) && buttonOver == buttonPress
      ensures mods.OnlyAlt() || highlighted != -1 ==> buttonOver == old(buttonOver)
    {
      if mods.OnlyAlt() {
        var saved := SnapshotSelected();
        savedPoints := Some(saved);
        dragButton := Left;
      } else if highlighted != -1 {
        ClickSelectionSpec(selected, highlighted, mods.OnlyCtrl(), vertices.Length);
        selected := ClickSelection(selected, highlighted, mods.OnlyCtrl());
        dragVertex := highlighted;
        dragButton := Left;
      } else {
        PressButton(screen, mouse);
      }
    }

    /** A left press away from every vertex: the UI button under the mouse, if any, is
        pressed; with none, the drag that follows is a rubber-band selection.  Either way a
        left drag begins. */
    method PressButton(screen: Screen, mouse: ScreenPoint)
      requires Valid() && dragButton == NotDragging
      modifies this`buttonOver, this`buttonPress, this`dragButton
      ensures Valid() && dragButton == Left
      ensures FirstButtonOver(screen, mouse, buttonPress) && buttonOver == buttonPress
    {
      buttonOver := FindButtonOver(screen, mouse);
      buttonPress := buttonOver;
      dragButton := Left;
    }

    /** The right-button press: start panning from the current camera. */
    method RightPress(screen: Screen, mouse: ScreenPoint)
      requires Valid() && ValidView(ViewOf(screen)) && dragButton == NotDragging
      modifies this`dragButton, this`dragPoint, this`mouseDownPoint
      ensures Valid() && dragButton == Right
      ensures dragPoint == cameraPoint && mouseDownPoint == ToVirtualPoint(ViewOf(screen), mouse)
    {
      dragButton := Right;
      dragPoint := cameraPoint;
      mouseDownPoint := ToVirtualPoint(ViewOf(screen), mouse);
    }

    /** The mouse wheel: down zooms out by ZoomSpeed, up zooms in by its reciprocal. */
    method Wheel(up: bool)
      requires Valid() && dragButton == NotDragging
      modifies this`zoomLevel
      ensures Valid()
      ensures up ==> zoomLevel > old(zoomLevel) && zoomLevel * ZoomSpeed == old(zoomLevel)
      ensures !up ==> zoomLevel < old(zoomLevel) && zoomLevel == old(zoomLevel) * ZoomSpeed
    {
      if up {
        zoomLevel := zoomLevel * (1.0 / ZoomSpeed);
      } else {
        zoomLevel := zoomLevel * ZoomSpeed;
      }
    }

    /** A mouse move with no button held: update the highlighted vertex, and either
        drop the button highlight (over a vertex) or recompute it. */
    method HoverMove(screen: Screen, mouse: ScreenPoint)
      requires Valid() && ValidView(ViewOf(screen)) && dragButton == NotDragging
      modifies this`highlighted, this`buttonOver, this`buttonPress
      ensures Valid()
      ensures IsHighlight(vertices[..], ViewOf(screen), mouse, highlighted)
      ensures highlighted != -1 ==> buttonOver == -1 && buttonPress == -1
      ensures highlighted == -1 ==> FirstButtonOver(screen, mouse, buttonOver) && buttonPress == old(buttonPress)
    {
      UpdateHighlights(screen, mouse);
      if highlighted != -1 {
        buttonOver, buttonPress := -1, -1;
      } else {
        UpdateButtonOver(screen, mouse);
      }
    }

    /** The foreach loops over the selection that move vertices: f is applied to the
        position of every selected vertex. */
    method MapSelected(f: Point -> Point)
      requires Valid()
      modifies vertices
      ensures vertices[..] == Mapped(old(vertices[..]), selected, f)
    {
      var k := 0;
      while k < |selected|
        invariant 0 <= k <= |selected|
        invariant forall v :: 0 <= v < vertices.Length ==>
          vertices[v] == if v in selected[..k] then old(vertices[v]).(position := f(old(vertices[v]).position)) else old(vertices[v])
      {
        var vertex := selected[k];
        assert vertex !in selected[..k];
        vertices[vertex] := vertices[vertex].(position := f(vertices[vertex].position));
        assert selected[..k + 1] == selected[..k] + [vertex];
        k := k + 1;
      }
      assert selected[..k] == selected;
    }

    /** A mouse move while dragging a vertex: the mouse is snapped to the grid; a lone
        vertex jumps there and is marked moved, a selection moves along by the mouse's
        displacement, which is then measured from the new point. */
    method DragVertexMove(screen: Screen, mouse: ScreenPoint)
      requires Valid() && ValidView(ViewOf(screen)) && dragButton == Left && dragVertex != -1
      modifies vertices, this`mouseDownPoint
      ensures Valid()
      ensures var current := ToVirtualPoint(ViewOf(screen), SnapToGrid(mouse, gridSize));
        && vertices[..] == VertexDrag(old(vertices[..]), selected, dragVertex, current, old(mouseDownPoint))
        && mouseDownPoint == if |selected| == 0 then old(mouseDownPoint) else current
    {
      var currentPoint := ToVirtualPoint(ViewOf(screen), SnapToGrid(mouse, gridSize));
      if |selected| == 0 {
        vertices[dragVertex] := vertices[dragVertex].(moved := true);
        vertices[dragVertex] := vertices[dragVertex].(position := currentPoint);
      } else {
        MapSelected(Translation(Sub(currentPoint, mouseDownPoint)));
        mouseDownPoint := currentPoint;
      }
    }

    /** The rotation and cancellation loop `for i < savedPoints.Length:
        Vertices[selected[i]].Position = f(savedPoints[i])`.  When the selection has become
        shorter than the snapshot, selected[i] throws after the first |selected| writes:
        ok is false then. */
    method WriteBack(points: seq<Point>, f: Point -> Point) returns (ok: bool)
      requires Valid()
      modifies vertices
      ensures ok <==> |points| <= |selected|
      ensures vertices[..] == WrittenBack(old(vertices[..]), selected, points, f, Min(|points|, |selected|))
    {
      var i := 0;
      while i < |points|
        invariant 0 <= i <= |points| && i <= |selected|
        invariant vertices[..] == WrittenBack(old(vertices[..]), selected, points, f, i)
      {
        if i >= |selected| {
          return false;
        }
        var vertex := selected[i];
        vertices[vertex] := vertices[vertex].(position := f(points[i]));
        i := i + 1;
      }
      return true;
    }

    /** A mouse move with the left button held.  `rotate` is the rotation by the angle the
        mouse has travelled since the Alt-click; ok is false when the rotation loop
        throws. */
    method LeftDragMove(screen: Screen, mouse: ScreenPoint, mods: Modifiers, rotate: Point -> Point) returns (ok: bool)
      requires Valid() && ValidView(ViewOf(screen)) && dragButton == Left
      modifies vertices, this`mouseDownPoint, this`buttonOver
      ensures Valid()
      ensures GestureOf(mods) == DraggingVertex ==>
        var current := ToVirtualPoint(ViewOf(screen), SnapToGrid(mouse, gridSize));
        && ok && buttonOver == old(buttonOver)
        && vertices[..] == VertexDrag(old(vertices[..]), selected, dragVertex, current, old(mouseDownPoint))
        && mouseDownPoint == if |selected| == 0 then old(mouseDownPoint) else current
      ensures GestureOf(mods) == PressingButton ==>
        ok && unchanged(vertices) && mouseDownPoint == old(mouseDownPoint) && FirstButtonOver(screen, mouse, buttonOver)
      ensures GestureOf(mods) == Rotating ==>
        && (ok <==> |savedPoints.value| <= |selected|)
        && mouseDownPoint == old(mouseDownPoint) && buttonOver == old(buttonOver)
        && vertices[..] == WrittenBack(old(vertices[..]), selected, savedPoints.value,
                                       RotationAbout(mouseDownPoint, rotate), Min(|savedPoints.value|, |selected|))
      ensures GestureOf(mods) == Selecting ==>
        ok && unchanged(vertices) && mouseDownPoint == old(mouseDownPoint) && buttonOver == old(buttonOver)
    {
      ok := true;
      if dragVertex != -1 {
        DragVertexMove(screen, mouse);
      } else if buttonPress != -1 {
        UpdateButtonOver(screen, mouse);
      } else if IsRotating(mods) {
        ok := WriteBack(savedPoints.value, RotationAbout(mouseDownPoint, rotate));
      }
    }

    /** A mouse move with the right button held: the camera follows so that the point
        grabbed at the press stays under the mouse. */
    method PanMove(screen: Screen, mouse: ScreenPoint)
      requires Valid() && ValidView(ViewOf(screen)) && dragButton == Right
      modifies this`cameraPoint
      ensures Valid()
      ensures cameraPoint == PannedCamera(old(ViewOf(screen)), dragPoint, mouseDownPoint, mouse)
      ensures ToVirtualPoint(ViewOf(screen), mouse) == mouseDownPoint
    {
      cameraPoint := dragPoint;
      cameraPoint := Sub(dragPoint, Sub(ToVirtualPoint(ViewOf(screen), mouse), mouseDownPoint));
    }

    /** Releasing Alt during an Alt-drag with a snapshot: the snapshot is written back and
        the drag finishes.  Alt is no longer held then, so FinishDrag takes its rubber-band
        branch.  ok is false when the restoring loop throws (FinishDrag does not run). */
    method AltReleased(screen: Screen, mouse: ScreenPoint, mods: Modifiers, inside: Point -> bool)
      returns (ok: bool, activated: int)
      requires Valid()
      modifies vertices, connections, this`buttonOver, this`selected, this`dragVertex, this`buttonPress,
        this`savedPoints, this`dragButton
      ensures Valid()
      ensures old(dragButton) != Left || old(dragVertex) != -1 || old(buttonPress) != -1 || old(savedPoints) == None ==>
        ok && activated == -1 && unchanged(this) && unchanged(vertices) && unchanged(connections)
      ensures old(dragButton) == Left && old(dragVertex) == -1 && old(buttonPress) == -1 && old(savedPoints).Some? ==>
        && (ok <==> |old(savedPoints).value| <= |old(selected)|)
        && vertices[..] == WrittenBack(old(vertices[..]), old(selected), old(savedPoints).value, Identity,
                                       Min(|old(savedPoints).value|, |old(selected)|))
        && connections[..] == old(connections[..])
        && dragVertex == -1 && buttonPress == -1
        && (ok ==> activated == -1 && dragButton == NotDragging && savedPoints == None)
        && (ok ==> FirstButtonOver(screen, mouse, buttonOver))
        && (ok && !mods.alt ==> selected == RectangleSelection(old(selected), vertices[..], inside, mods.OnlyCtrl()))
        && (ok && mods.alt ==> selected == old(selected))
        && (!ok ==> && activated == -1 && selected == old(selected) && buttonOver == old(buttonOver)
                    && dragButton == Left && savedPoints == old(savedPoints))
    {
      ok, activated := true, -1;
      if dragButton == Left && dragVertex == -1 && buttonPress == -1 && savedPoints.Some? {
        ok := WriteBack(savedPoints.value, Identity);
        if ok {
          activated := FinishDrag(screen, mouse, mods, inside);
        }
      }
    }

    /** The 'G' key: the next grid size in the cycle. */
    method GridKey()
      requires Valid()
      modifies this`gridSize
      ensures Valid()
      ensures gridSize == NextGridSize(old(gridSize))
    {
      if gridSize == 0 {
        gridSize := MaxGridSize;
      } else {
        gridSize := gridSize / 2;
        if gridSize < 16 {
          gridSize := 0;
        }
      }
    }

    /** The 'S' key: with the grid on, every selected vertex moves to the nearest grid
        point on the screen. */
    method SnapSelected(screen: Screen)
      requires Valid() && ValidView(ViewOf(screen))
      modifies vertices
      ensures gridSize == 0 ==> unchanged(vertices)
      ensures gridSize != 0 ==> vertices[..] == Mapped(old(vertices[..]), selected, SnapPoint(ViewOf(screen), gridSize))
    {
      if gridSize != 0 {
        MapSelected(SnapPoint(ViewOf(screen), gridSize));
      }
    }

    /** The 'C' key: the selection becomes the neighbours of the highlighted vertex, built by
        toggling the far end of each connection touching it. */
    method SelectNeighbours()
      requires Valid()
      modifies this`selected
      ensures Valid()
      ensures highlighted == -1 ==> selected == old(selected)
      ensures highlighted != -1 ==> selected == NeighbourSelection(connections[..], highlighted)
    {
      if highlighted != -1 {
        selected := [];
        var i := 0;
        while i < connections.Length
          invariant 0 <= i <= connections.Length
          invariant Valid()
          invariant selected == NeighbourSelection(connections[..i], highlighted)
        {
          var conn := connections[i];
          assert connections[..i + 1][..i] == connections[..i];
          assert EdgeWithin(conn, vertices.Length);
          if conn.first == highlighted {
            SelectVertex(conn.second);
          } else if conn.second == highlighted {
            SelectVertex(conn.first);
          }
          i := i + 1;
        }
        assert connections[..i] == connections[..];
      }
    }

    /** The 'R' key: reset the camera and mark the selected vertices (all when none is
        selected) as not moved. */
    method ResetKey()
      requires Valid()
      modifies vertices, this`cameraPoint, this`zoomLevel
      ensures Valid()
      ensures cameraPoint == Point(0.0, 0.0) && zoomLevel == 1.0
      ensures forall v :: 0 <= v < vertices.Length ==>
        vertices[v] == if |selected| == 0 || v in selected then old(vertices[v]).(moved := false) else old(vertices[v])
    {
      ResetViewpoint();
      MarkMoved(false);
    }
  }
}
