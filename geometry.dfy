/**
 * Points, screen points and the view transform between them.  The game keeps
 * virtual coordinates in doubles; here they are exact reals, so a translation
 * or a camera pan is exact.  Rotations (sines and cosines) are not modelled:
 * operations that rotate take the rotation as a function.
 */
module Geometry {

  /** A point (or a displacement) in virtual space: [-1, 1] on both axes at zoom 1. */
  datatype Point = Point(x: real, y: real)

  function Add(p: Point, d: Point): Point
  {
    Point(p.x + d.x, p.y + d.y)
  }

  function Sub(p: Point, q: Point): Point
  {
    Point(p.x - q.x, p.y - q.y)
  }

  /** A pixel position on the screen (System.Drawing.Point). */
  datatype ScreenPoint = ScreenPoint(x: int, y: int)

  /** The size of the window in pixels. */
  datatype Screen = Screen(width: int, height: int)

  /** What the game sees of the camera: its position, the zoom factor and the window size. */
  datatype View = View(camera: Point, zoom: real, screen: Screen)

  predicate ValidView(v: View)
  {
    v.zoom > 0.0 && v.screen.width > 0 && v.screen.height > 0
  }

  function Min(a: int, b: int): int
  {
    if a < b then a else b
  }

  /** The C# cast from double to int. */
  function Truncate(r: real): int
  {
    if r >= 0.0 then r.Floor else -((-r).Floor)
  }

  /** The cast truncates toward zero: it drops the fraction, never crossing zero. */
  lemma TruncateTowardZero(r: real)
    ensures r >= 0.0 ==> 0 <= Truncate(r) && Truncate(r) as real <= r < Truncate(r) as real + 1.0
    ensures r < 0.0 ==> Truncate(r) <= 0 && Truncate(r) as real - 1.0 < r <= Truncate(r) as real
  {
  }

  /** Virtual units per pixel. */
  function VirtualScale(v: View): real
    requires ValidView(v)
  {
    2.0 / (v.zoom * Min(v.screen.width, v.screen.height) as real)
  }

  /** Pixels per virtual unit. */
  function ScreenScale(v: View): real
    requires ValidView(v)
  {
    v.zoom * 0.5 * Min(v.screen.width, v.screen.height) as real
  }

  /** One axis of ToVirtualPoint: pixels from the window centre, scaled, from the camera. */
  function VirtualCoordinate(c: int, half: int, scale: real, camera: real): real
  {
    (c - half) as real * scale + camera
  }

  /** One axis of ToScreenPoint: the cast of the scaled offset from the camera, from the
      window centre. */
  function ScreenCoordinate(x: real, camera: real, scale: real, half: int): int
  {
    Truncate((x - camera) * scale) + half
  }

  /** Screen to virtual coordinates (main.cs ToVirtualPoint). */
  function ToVirtualPoint(v: View, s: ScreenPoint): Point
    requires ValidView(v)
  {
    Point(VirtualCoordinate(s.x, v.screen.width / 2, VirtualScale(v), v.camera.x),
          VirtualCoordinate(s.y, v.screen.height / 2, VirtualScale(v), v.camera.y))
  }

  /** Virtual to screen coordinates (main.cs ToScreenPoint). */
  function ToScreenPoint(v: View, p: Point): ScreenPoint
    requires ValidView(v)
  {
    ScreenPoint(ScreenCoordinate(p.x, v.camera.x, ScreenScale(v), v.screen.width / 2),
                ScreenCoordinate(p.y, v.camera.y, ScreenScale(v), v.screen.height / 2))
  }

  /** A pixel taken to virtual space and back is the same pixel: the two scales are each
      other's inverse, so the cast receives a whole number. */
  lemma ScreenRoundTrip(v: View, s: ScreenPoint)
    requires ValidView(v)
    ensures ToScreenPoint(v, ToVirtualPoint(v, s)) == s
  {
    InverseScales(v);
    AxisRoundTrip(s.x, v.screen.width / 2, VirtualScale(v), ScreenScale(v), v.camera.x);
    AxisRoundTrip(s.y, v.screen.height / 2, VirtualScale(v), ScreenScale(v), v.camera.y);
  }

  lemma AxisRoundTrip(c: int, half: int, toVirtual: real, toScreen: real, camera: real)
    requires toVirtual * toScreen == 1.0
    ensures ScreenCoordinate(VirtualCoordinate(c, half, toVirtual, camera), camera, toScreen, half) == c
  {
    var d := (c - half) as real;
    var x := VirtualCoordinate(c, half, toVirtual, camera);
    var scaled := (x - camera) * toScreen;
    calc {
      scaled;
      (d * toVirtual) * toScreen;
      d * (toVirtual * toScreen);
      d;
    }
    calc {
      ScreenCoordinate(x, camera, toScreen, half);
      Truncate(scaled) + half;
      Truncate(d) + half;
      { assert d.Floor == c - half; }
      c;
    }
  }

  lemma InverseScales(v: View)
    requires ValidView(v)
    ensures VirtualScale(v) * ScreenScale(v) == 1.0
  {
    var k := v.zoom * Min(v.screen.width, v.screen.height) as real;
    assert ScreenScale(v) == 0.5 * k;
    assert (2.0 / k) * k == 2.0;
  }

  /** The camera position while panning: the camera at the start of the drag minus how far
      the mouse has moved in virtual space (measured with the camera at its start). */
  function PannedCamera(v: View, dragPoint: Point, anchor: Point, mouse: ScreenPoint): (c: Point)
    requires ValidView(v)
    ensures ToVirtualPoint(v.(camera := c), mouse) == anchor
  {
    Sub(dragPoint, Sub(ToVirtualPoint(v.(camera := dragPoint), mouse), anchor))
  }

  /** Panning without moving the mouse leaves the camera where the drag started. */
  lemma PanWithoutMotion(v: View, dragPoint: Point, mouse: ScreenPoint)
    requires ValidView(v)
    ensures PannedCamera(v, dragPoint, ToVirtualPoint(v.(camera := dragPoint), mouse), mouse) == dragPoint
  {
  }
}
