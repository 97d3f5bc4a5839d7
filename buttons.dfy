/**
 * The four round UI buttons in the corners of the window.  Their centres are
 * fixed offsets from the window edges (a negative offset counts from the right or
 * bottom edge), and a button contains a screen point within its 15-pixel radius.
 */
module Buttons {
  import opened Int32
  import opened Geometry

  const Spacing := 5
  const Radius := 15

  /** What a button does when it is clicked. */
  datatype Handler = SkipToLevel | ShuffleVertices | CheckSolution | Pause

  datatype Button = Button(letter: char, xOffset: int, yOffset: int, handler: Handler)

  /** The game's buttons, in hit-test order. */
  const AllButtons: seq<Button> := [
    Button('L', Spacing + Radius, -Spacing * 2 - Radius * 3, SkipToLevel),
    Button('S', Spacing + Radius, -Spacing - Radius, ShuffleVertices),
    Button('C', -Spacing - Radius, -Spacing * 2 - Radius * 3, CheckSolution),
    Button('P', -Spacing - Radius, -Spacing - Radius, Pause)
  ]

  /** A negative offset counts from the right or bottom edge of the window. */
  function ButtonCenter(b: Button, screen: Screen): ScreenPoint
  {
    ScreenPoint(if b.xOffset < 0 then screen.width + b.xOffset else b.xOffset,
                if b.yOffset < 0 then screen.height + b.yOffset else b.yOffset)
  }

  /** The point is within the button's radius, computed in unchecked Int32 arithmetic. */
  predicate ButtonContains(b: Button, screen: Screen, pt: ScreenPoint)
  {
    var center := ButtonCenter(b, screen);
    var xd, yd := Wrap(pt.x - center.x), Wrap(pt.y - center.y);
    Wrap(xd * xd + yd * yd) <= Radius * Radius
  }

  /** In a window at least 21 pixels wide and 55 high, every button's centre lies in the
      window, 20 pixels from its left or right edge and 20 or 55 pixels above its bottom
      edge, and the button contains its own centre. */
  lemma ButtonLayout(screen: Screen, i: int)
    requires screen.width > 20 && screen.height >= 55 && 0 <= i < |AllButtons|
    ensures var c := ButtonCenter(AllButtons[i], screen);
      && 0 <= c.x < screen.width && 0 <= c.y < screen.height
      && (c.x == 20 || c.x == screen.width - 20)
      && (c.y == screen.height - 20 || c.y == screen.height - 55)
      && ButtonContains(AllButtons[i], screen, c)
  {
  }

  /** over is the first button containing the mouse, or -1 when none does. */
  predicate FirstButtonOver(screen: Screen, mouse: ScreenPoint, over: int)
  {
    && -1 <= over < |AllButtons|
    && (over == -1 <==> forall i :: 0 <= i < |AllButtons| ==> !ButtonContains(AllButtons[i], screen, mouse))
    && (over != -1 ==> ButtonContains(AllButtons[over], screen, mouse))
    && (forall i :: 0 <= i < over ==> !ButtonContains(AllButtons[i], screen, mouse))
  }

  /** main.cs UpdateButtonOver's search. */
  method FindButtonOver(screen: Screen, mouse: ScreenPoint) returns (over: int)
    ensures FirstButtonOver(screen, mouse, over)
  {
    over := -1;
    var i := 0;
    while i < |AllButtons|
      invariant 0 <= i <= |AllButtons|
      invariant forall j :: 0 <= j < i ==> !ButtonContains(AllButtons[j], screen, mouse)
    {
      if ButtonContains(AllButtons[i], screen, mouse) {
        over := i;
        return;
      }
      i := i + 1;
    }
  }
}
