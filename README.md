# Flatarity game logic in Dafny

Flatarity is a planarity puzzle. A level with number `level` takes `N = 3 + level` lines
in general position. Every pair of lines crossing is a vertex (`N(N-1)/2` vertices). Each
line cut into `N-2` segments by the other lines gives the connections (`N(N-2)` of them).
The vertices are then scattered on a circle. The player drags vertices, or selections of
vertices, until no two connections cross. The solution check marks the first crossing
pair as failed, or awards the score and moves on to the next level.

This project models the game logic of the static class `Game` in `main.cs` and the
level dialog's text box in `LevelForm.cs`:

- **Level generation.** The pairing of lines to vertex indices (`Pairing`). The edge
  list of a level, built from each line's order of crossings (`LevelGen`). The
  `GenerateLevel` method with its loops over arrays and the state it resets
  (`Game.GameState`).
- **Solution check.** The lexicographic scan for the first crossing pair (`Crossing`)
  and `CheckSolution`. The latter marks that pair failed, or adds the level score and
  generates the next level.
- **Interaction state machine.** The mode fields `dragButton`, `dragVertex`,
  `buttonPress` and `savedPoints`. The gesture they encode (`GestureOf`). The handlers
  of `EventProc`, one method each:
  - left, right and wheel presses;
  - moves while idle, dragging, rotating or panning;
  - `FinishDrag` on release;
  - cancelling a rotation by releasing Alt;
  - the keys 'R', 'M' (`MarkMoved(true)`), 'G', 'S' and 'C'.

  The guard of each `EventProc` branch implies the precondition of the method that models
  it; a method may require less. `FinishDrag`, for one, requires only a valid state, not
  the release test of main.cs:397, and a key's method does not test the key code: the
  key chooses which method runs. `AltReleased` is the exception the other way: it tests
  its guard (a left drag, no dragged vertex, no pressed button, a snapshot) in its body
  and changes nothing when it fails.
- **Selection.** The selection is a duplicate-free list of vertex indices (`Selection`).
  It is changed by `SelectVertex` and `SelectAll`, by Ctrl-clicks, by plain and Ctrl
  rubber-band rectangles, and by the 'C' key.
- **Grid.** Snapping to the grid and the grid-size cycle (`Grid`), and hit-testing the
  four UI buttons (`Buttons`).
- **Level text box.** The filter that deletes every character `\D` matches, the `Level`
  getter (`int.Parse` with its format and overflow errors) and the `Level` setter
  (`LevelText`).

Vertex positions are exact reals, and the screen/virtual conversions are the game's
formulas over them. The C# `(int)` cast is written out as truncation toward zero, which
is what it does for values inside the Int32 range. Where the game's unchecked 32-bit
`int` arithmetic can wrap around, the model wraps explicitly (`Int32.Wrap`): in the hit
tests of vertices and buttons, and in the score. The Int32 bound on the size of a level
is proved in `Pairing`. What the game computes with floating-point geometry or gets from
outside is passed in as a parameter:

- the crossing order of each line, a permutation of the other lines;
- the circle layout;
- the test of a point against the selection rectangle;
- the rotation of the current gesture;
- the segment-crossing test;
- the rounded play time;
- the window size, the mouse position and the modifier keys.

Modules: `Int32`, `Geometry`, `Graph`, `Pairing`, `LevelGen`, `Selection`, `Grid`, `Buttons`,
`Crossing`, `Motion`, `Game` (the class `GameState` with the game's static fields as its
fields), `LevelText` (the class `LevelForm`).

## Model

| member | source | states |
|---|---|---|
| Pairing.PairIndex | main.cs:219-224 | The index of the vertex where lines p != q cross lies in [0, N(N-1)/2). It equals the start of row min(p,q) plus the offset of max(p,q) in that row. |
| Pairing.PairProductEven | main.cs:223 | (2n-p-1)*p is even, so the division by 2 in PairIndex is exact; the quotient is the row start. |
| Pairing.RowStartClosedForm | main.cs:223 | Twice the number of pairs in the rows before p is p(2n-p-1), the source's closed form. |
| Pairing.PairIndexSymmetric | main.cs:219-224 | The order of the two lines does not matter. |
| Pairing.PairIndexInjective | main.cs:219-224 | Two pairs with the same index are the same unordered pair. |
| Pairing.PairIndexOnto | main.cs:219-224 | Every index in [0, N(N-1)/2) is the index of some pair a < b, so the vertex array has no unused slot. |
| Pairing.VertexCountNatural | main.cs:99-102 | The vertex count N(N-1)/2 is a natural number. The Int32 products N(N-1) and N(N-2) stay in range exactly for N <= 46341. For 46342 <= N <= 65536, N(N-1) wraps to a negative number, so the vertex array's size is negative. |
| LevelGen.LineEdgeGenerated | main.cs:112-116 | The k-th connection of line li joins two distinct vertices that both lie on line li, with Failed false. |
| LevelGen.LineEdgesGenerated | main.cs:112-116 | Every connection of one line joins two distinct vertices of that line, unfailed. |
| LevelGen.LevelEdgesGenerated | main.cs:106-117 | After count lines the edge list holds count*(N-2) connections, each joining two distinct vertices of a common line. |
| LevelGen.LevelEdgesShape | main.cs:102-117 | For every crossing order, the loop fills exactly N(N-2) connections: the whole array. |
| LevelGen.LevelEdgesWithin | main.cs:99-117 | Every generated connection names vertices in [0, N(N-1)/2). |
| Game.BuildConnections | main.cs:102-117 | The connections array built by the nested loops is exactly the edge list of the level. |
| Game.WriteLineEdges | main.cs:112-116 | The inner loop writes line li's connections from index ci on and keeps every entry before and after them. |
| Game.PlaceVertices | main.cs:119-124 | Vertex i is at layout(i, count) and not marked moved. |
| Game.GameState.constructor | main.cs:1034-1039 | The game starts with score 0, grid size 32 and nothing dragged, on a freshly generated level 1. |
| Game.GameState.GenerateLevel | main.cs:70-132 | For level >= 1 the state satisfies the game invariant and holds the new level: N(N-1)/2 vertices on the layout, the generated edge list, and everything listed under ResetView and Install reset. |
| Game.GameState.ResetView | main.cs:128-131 | The level number is set, the camera is at the origin with zoom 1, and the play-time offset is 0. |
| Game.GameState.ResetViewpoint | main.cs:306-311 | The camera is at the origin with zoom 1. |
| Game.GameState.Install | main.cs:126-127 | The new arrays are installed with an empty selection and no highlighted, dragged, pressed or hovered object, and the game invariant holds. |
| Game.ChosenLevel | main.cs:767 | The level chosen in the dialog is kept when it is at least 1, and a level below 1 becomes exactly 1. |
| Game.GameState.OpenLevelDialog | main.cs:762-763 | The new dialog's box shows the digits of the current level, and reading it unedited gives that level. |
| Game.GameState.SkipToLevel | main.cs:764-768 | Cancelling changes nothing. Confirming resets the score to 0. If the box then reads as a level, the clamped level is generated; if int.Parse fails, the method fails and nothing else changes. |
| Crossing.FindCrossing | main.cs:617-633 | Found: the pair is the first (i < j) pair in scan order that shares no endpoint and crosses. Not found: no such pair exists. |
| Crossing.FirstCrossingUnique | main.cs:617-633 | The first crossing pair is unique. |
| Game.MarkFailed | main.cs:629 | Both connections of the pair become failed; endpoints and all other connections are unchanged, and no flag is cleared. |
| Game.LevelScore | main.cs:639 | The points for a solved level are max(0, 100*level - elapsed): never negative. |
| Game.GameState.CheckSolution | main.cs:613-642 | Solved iff no pair crosses. Unsolved: exactly the first crossing pair is marked failed and nothing else changes. Solved: the score becomes the Int32 wrap of the old score plus LevelScore, and level+1 is generated. |
| Game.ClearedFailuresSpec | main.cs:557-571 | Releasing vertices keeps every endpoint. A connection stays failed iff it was failed and touches none of the released vertices. |
| Game.GameState.ClearSelectedFailureLines | main.cs:644-660 | Every connection touching a selected vertex loses its Failed flag; all others are unchanged. |
| Game.GameState.ClearVertexFailures | main.cs:565-568 | Every connection with the dragged vertex as an endpoint loses its Failed flag; all others are unchanged. |
| Game.GameState.MarkMoved | main.cs:206-217 | The Moved flag is set on the selected vertices, or on all vertices when none is selected; nothing else changes. |
| Game.GameState.SelectAll | main.cs:731-736 | The selection becomes [0, 1, ..., V-1]. |
| Selection.IndexOf | main.cs:741 | The index of the first occurrence of x, or -1 exactly when x is absent. |
| Selection.RemoveAtSpec | main.cs:743 | Removing an occurrence keeps the list duplicate-free and removes exactly that element. |
| Selection.Toggle | main.cs:738-744 | Toggling x flips its membership, keeps every other member and appends x when it was absent. |
| Selection.ToggleIsSelection | main.cs:738-744 | Toggling a vertex index keeps the selection duplicate-free and within [0, V). |
| Game.GameState.SelectVertex | main.cs:738-744 | The selection is the toggle of the old one at the index, and the game invariant holds. |
| Selection.ToggleAllSnoc | main.cs:581-584 | Toggling a list of indices is toggling them one at a time, in order. |
| Selection.ToggleAllMembership | main.cs:581-584 | After toggling each index of a duplicate-free list, an index is selected iff it was selected or in the list, but not both. |
| Selection.InsideIndicesSpec | main.cs:579-586 | The inside vertices are listed in strictly ascending order, and exactly the inside ones are listed. |
| Game.RectangleStep | main.cs:581-585 | One loop iteration: an inside vertex is removed when toggling and selected, and appended otherwise. |
| Game.RectangleSelectionSpec | main.cs:572-587 | A plain rectangle selects exactly the inside vertices; a Ctrl rectangle leaves those selected or inside but not both. Either way the selection stays valid. |
| Game.GameState.SelectInRectangle | main.cs:575-586 | The selection after the loop is the rectangle selection of the old one, and the game invariant holds. |
| Game.ClickSelectionSpec | main.cs:428-437 | Ctrl-click flips the clicked vertex and keeps the others. A plain click on a selected vertex keeps the selection; on an unselected one it empties it. The selection stays valid. |
| Game.FindHighlight | main.cs:825-842 | The highlight is the highest vertex index whose circle contains the mouse, or -1 when none does. |
| Game.GameState.UpdateHighlights | main.cs:825-842 | highlighted is the topmost vertex under the mouse. |
| Buttons.FindButtonOver | main.cs:804-820 | The result is the first UI button containing the mouse, or -1 exactly when none does. |
| Game.GameState.UpdateButtonOver | main.cs:804-820 | buttonOver is the first button under the mouse. |
| Grid.SnapCoordinate | main.cs:776-779 | The snapped coordinate is a multiple of the grid size. For an even size it lies within half a cell of the input. |
| Grid.SnapToGrid | main.cs:771-783 | Identity when the grid is off. Otherwise both coordinates are multiples of the grid size, within half a cell of the mouse. |
| Grid.SnapRounding | main.cs:776-779 | A remainder of at least half a cell rounds up, a smaller one down, also for negative coordinates (16: 40 to 48, 39 to 32). |
| Grid.SnapIdempotent | main.cs:771-783 | Snapping a snapped point does not move it. |
| Grid.NextGridSize | main.cs:350-359 | 'G' keeps the grid size in {0, 16, 32} and turns a disabled grid on at 32. |
| Grid.GridCycle | main.cs:350-359 | Three presses of 'G' return to the starting size, and every press changes it. |
| Game.GameState.GridKey | main.cs:350-359 | The grid size becomes the next one in the cycle. |
| Game.GameState.GestureOf | main.cs:271 | A rubber-band selection is in progress iff the left button is dragging with no vertex, no button and no rotation. Rotating and idle are characterised likewise. |
| Game.GameState.FinishDrag | main.cs:547-601 | After any release nothing is dragged. After a left release the pressed button and the snapshot are dropped. The covered button's index is returned. The drop of a dragged vertex or selection clears the matching Failed flags. The rectangle selection is applied unless Alt is held. Otherwise nothing changes. |
| Game.GameState.ReleaseLeft | main.cs:550-598 | The left-button part of FinishDrag, with the same branches, ending with no pressed button and no snapshot. |
| Game.GameState.EndGesture | main.cs:557-589 | A release that activates no button: a dragged vertex is dropped with its failures cleared, or the rubber band selects unless Alt is held. |
| Game.GameState.SnapshotSelected | main.cs:423-424 | The snapshot holds the positions of the selected vertices, in selection order. |
| Game.GameState.LeftPress | main.cs:413-450 | Every left press starts a left drag from the mouse's virtual point and updates the highlight. Alt snapshots the selection; a click on a vertex drags it with the click selection; elsewhere it presses the button under the mouse, if any. The hovered button is recomputed only in that last branch and kept otherwise. |
| Game.GameState.PressAt | main.cs:419-449 | The three branches of a left press once the highlighted vertex is known: the Alt snapshot, the vertex click and the button press. Only the button press recomputes the hovered button. |
| Game.GameState.PressButton | main.cs:438-443 | Away from every vertex, the pressed button is the first one under the mouse, and the left drag begins. |
| Game.GameState.RightPress | main.cs:451-456 | A right press starts panning from the current camera and the mouse's virtual point. |
| Game.GameState.Wheel | main.cs:457-466 | Wheel down multiplies the zoom by 0.75 (zooming out); wheel up divides it by 0.75 (zooming in). |
| Game.GameState.HoverMove | main.cs:471-476 | With no button held the highlight follows the mouse. Over a vertex no button is hovered or pressed; elsewhere the hovered button is recomputed. |
| Motion.Positions | main.cs:423-424 | One snapshot entry per selected vertex. |
| Motion.WrittenBackSpec | main.cs:511-514 | Writing back changes exactly the first m selected vertices, each to f of its snapshot entry, and only their positions. |
| Motion.CancelRestores | main.cs:389-396 | Whatever a rotation wrote from the snapshot, writing the snapshot back restores every vertex. |
| Motion.TranslationsCompose | main.cs:489-496 | Two drag steps of the selection compose to one step by the sum of the displacements. |
| Motion.VertexDragSpec | main.cs:480-497 | Dragging a lone vertex changes only that vertex (new position, Moved). Dragging a selection shifts every selected vertex by the same vector and changes no Moved flag and no other vertex. |
| Game.GameState.MapSelected | main.cs:491-494 | Every selected vertex's position is mapped by f; all other vertices are unchanged. |
| Game.GameState.DragVertexMove | main.cs:480-497 | The vertices move as VertexDrag says, with the snapped mouse. The reference point advances only when a selection is dragged. |
| Game.GameState.WriteBack | main.cs:511-514 | The loop writes the first min(|snapshot|, |selection|) selected vertices. It completes iff the snapshot is no longer than the selection; otherwise selected[i] throws. |
| Game.GameState.LeftDragMove | main.cs:478-519 | A move with the left button held, per gesture: vertex drag (with the new reference point), hover of the pressed button, rotation written from the snapshot, or nothing while selecting. |
| Geometry.PannedCamera | main.cs:520-526 | The panned camera puts the point grabbed at the press back under the mouse. |
| Geometry.PanWithoutMotion | main.cs:520-526 | Without mouse motion, panning leaves the camera where the press found it. |
| Game.GameState.PanMove | main.cs:520-526 | The camera is the panned camera, and the mouse's virtual point is the grabbed point. |
| Geometry.TruncateTowardZero | main.cs:800-801 | The (int) cast truncates toward zero, from either side. |
| Geometry.ScreenRoundTrip | main.cs:786-802 | ToVirtualPoint and ToScreenPoint are inverse on pixels: a pixel converted to virtual space and back is the same pixel. |
| Int32.Wrap | main.cs:996-998 | Unchecked Int32 arithmetic: the result is in range, agrees with the exact value modulo 2^32, and equals it iff it is in range. |
| Graph.Vertex.Radius | main.cs:989-992 | The hit radius is 5 pixels for a moved vertex and 8 otherwise: at most 8, and smaller exactly for moved vertices. |
| Graph.ContainsWithoutOverflow | main.cs:994-999 | Vertex.Contains is the exact disc test (squared distance at most the squared radius) when the offsets are within 32767 pixels, where no Int32 operation wraps. |
| Graph.FarVertexContainsMouse | main.cs:994-999 | Vertex.Contains as written: at the zoom (4/3)^16 that sixteen wheel turns reach from 1 (`WheelZoom(16)`), in a 600 by 600 window, a vertex 48000 pixels from the mouse counts as containing it, because 48000 squared wraps to a negative Int32. |
| Graph.SharesVertexSymmetric | main.cs:935-938 | Connection.HasVertex makes "shares an endpoint" symmetric, and every connection shares its endpoints with itself. |
| Buttons.ButtonLayout | main.cs:863-884 | ButtonCenter puts each button 20 pixels from the left or right edge and 20 or 55 pixels above the bottom, inside the window; ButtonContains holds at the centre. |
| Game.GameState.RotatingOnlyInLeftDrag | main.cs:65-68 | IsRotating needs a snapshot, so it holds only during a left drag with Alt alone held. |
| Game.GameState.AltReleased | main.cs:387-396 | Outside a rotation nothing changes. In a rotation the snapshot is written back (failing iff the selection became shorter, with nothing else changed then) and FinishDrag runs. No connection changes. Without Alt, the rubber band selects; with another Alt key still held, the selection stays. |
| Game.GameState.SnapSelected | main.cs:360-370 | With the grid on, every selected vertex moves to the grid point nearest its screen point; with it off, nothing moves. |
| Motion.SnapPointIdempotent | main.cs:366 | A snapped point snaps to itself: its grid pixel converts to virtual space and back to the same pixel. |
| Motion.SnapTwice | main.cs:360-370 | Pressing 'S' a second time moves no vertex. |
| Selection.NeighbourSelectionMembership | main.cs:371-383 | A vertex ends up selected iff it is the far end of an odd number of connections touching the highlighted vertex. |
| Selection.NeighbourSelectionSimple | main.cs:371-383 | Without parallel connections, the neighbours of the highlighted vertex are exactly the far ends of its connections. |
| Selection.LinksCount | main.cs:376-380 | No link counted iff no connection has x as the far end. |
| Selection.NeighbourSelectionIsSelection | main.cs:371-383 | The selection built by 'C' is valid. |
| Game.GameState.SelectNeighbours | main.cs:371-383 | 'C' over a vertex replaces the selection by its neighbours, built by toggling in connection order. Without a highlighted vertex it does nothing. |
| Game.GameState.ResetKey | main.cs:341-345 | 'R' resets the camera and clears the Moved flags of the selected vertices, or of all vertices. |
| LevelText.Filter | LevelForm.cs:21 | The filtered text holds only decimal digits and is no longer than the text. |
| LevelText.FilterAppend | LevelForm.cs:21 | Filtering distributes over concatenation, so the surviving characters keep their order. |
| LevelText.FilterSingle | LevelForm.cs:25 | A character survives iff it is a decimal digit. |
| LevelText.FilterKeepsDigits | LevelForm.cs:21 | Text made of digits only passes the filter unchanged. |
| LevelText.FilterIdempotent | LevelForm.cs:21-22 | Filtering filtered text removes nothing, so the re-entrant handler call is a no-op. |
| LevelText.FilterShortens | LevelForm.cs:22 | The filter keeps the length iff the text is all digits; the handler rewrites the text exactly when something was removed. |
| LevelText.ParseInt32 | LevelForm.cs:15 | A digit outside '0'..'9' is a format error, exactly. On ASCII digits the result is Ok(Value(s)) when the decimal value fits Int32 and an overflow error when it does not; Value is the reference reading that NatDigitsValue pins down. |
| LevelText.LevelForm.Level | LevelForm.cs:15 | The level is 1 for an empty box. A non-empty box of ASCII digits, leading zeros included ("007"), reads as its decimal value exactly when that value fits Int32, and a successful read always comes from such a box. A parsed level is never negative. |
| LevelText.LevelForm.TextChanged | LevelForm.cs:19-23 | After the handler, including its re-entrant call, the text is the filtered old text. |
| LevelText.LevelForm.Edit | LevelForm.cs:19-23 | Any edit leaves the filtered new text. |
| LevelText.DecimalString | LevelForm.cs:16 | The invariant-culture form has a leading minus sign exactly for a negative value, followed by ASCII digits that read back as the absolute value. |
| LevelText.NatDigits | LevelForm.cs:16 | The decimal form of a natural number is non-empty and made of ASCII digits. |
| LevelText.NatDigitsValue | LevelForm.cs:16 | Reading the decimal form back gives the number. |
| LevelText.FilterDecimalString | LevelForm.cs:16 | Filtering the printed value leaves the digits of its absolute value. |
| LevelText.LevelForm.SetLevel | LevelForm.cs:16 | The setter leaves the digits of the value's absolute value in the box. |
| LevelText.LevelRoundTrip | LevelForm.cs:13-17 | Setting a level and reading it back gives the value when it is non-negative and its absolute value when it is negative. Int32.MinValue reads back as an overflow error. |

## Left out

- Rendering (`PaintScreen`, button and vertex drawing, fonts), `Main`, the event pump,
  `IdleProc`, `Pause` and window resizing: drawing and windowing, no game state
  beyond the repaint flag.
- The repaint flag `doRepaint` and help display: purely cosmetic.
- `LoadGame` and `SaveGame`: file I/O. The game starts from a fresh level 1 here, so the
  unvalidated selection indices of a loaded game are not modelled either.
- The 'H' and 'V' flips and `GetSelectedCenter`, the 'P' key and Alt-F4: floating-point
  reflections, the pause loop and quitting.
- Random line generation (`rand`, the rejection of parallel lines), `LineComparer` and
  the circle layout (`Rotated`): the crossing order of every line and the layout are
  parameters.
- `ShuffleVertices` and the rotation angle: random numbers and trigonometry. The
  rotation of a gesture is a parameter.
- `Timing` and `Math.Round` of the play time: the rounded elapsed seconds are a parameter.
- `Connection.GetLine` and `Line.SegmentIntersects`: floating-point geometry. Whether
  two connections cross is the parameter `crosses`.
- The level dialog itself (`ShowDialog`, LevelForm.Designer.cs): SkipToLevel takes the
  text box after the player's edits and whether the dialog was confirmed.
- Game.GameState.FinishDrag: the button's handler is not run inside the method. Its
  index is returned instead, and the handler runs after FinishDrag's remaining
  assignments. None of those assignments touches game state a handler reads (the Pause handler's repaint does read `buttonPress`, but only to draw the pressed button), and a handler
  that starts a new level resets them anyway.
- Game.GameState.LeftPress: the source assigns `dragVertex` before branching and resets
  it for an Alt-click, and it assigns `dragButton` in several places. The model
  assigns each once per branch, with the same outcome.
- Game.GameState.GenerateLevel: builds every level >= 1. From level 46339 on
  (46342 lines) the Int32 product at main.cs:99 wraps (see Pairing.VertexCountNatural)
  and allocating the vertex array throws, and long before that the arrays exhaust
  memory. The model has no such failure.
- Game.GameState.SkipToLevel: a confirmed level of 46339 or more is generated like any
  other, where the source's GenerateLevel throws (see GenerateLevel above).
- Game.LevelScore: `100*level` is not wrapped. It would wrap only beyond level 21474836,
  which GenerateLevel cannot build.
- Geometry.ToScreenPoint: the `(int)` cast is truncation for every real. For a double
  outside the Int32 range C# leaves the result unspecified, and the addition of half
  the window size is not wrapped. The hit tests wrap only their own arithmetic.
- Motion.SnapTwice: with exact reals the round trip through virtual space is exact; with
  doubles a pixel can come back one off.
- Grid.SnapIdempotent: stated for every grid size except 1, where half a cell is 0
  pixels and every point moves; the game only uses sizes 32 and 16.
- LevelText.ParseInt32: stated on texts of decimal digits only (what the filter leaves).
  The digit table holds the Unicode Nd blocks of the Basic Multilingual Plane. A digit
  outside it is a surrogate pair, and `\D` removes both halves.
- Vertex positions and the view transform use exact real numbers, not IEEE doubles.
