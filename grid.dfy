/**
 * The snapping grid: its size cycles through 32, 16 and off, and a screen
 * coordinate snaps to the nearest multiple of the size, a remainder of half a
 * cell or more rounding up.
 */
module Grid {
  import opened Geometry

  const MaxGridSize := 32

  /** The sizes the 'G' key can produce from the initial size MaxGridSize. */
  predicate IsGridSize(g: int)
  {
    g == 0 || g == 16 || g == 32
  }

  /** The 'G' key: off -> MaxGridSize, otherwise halve and switch off below 16. */
  function NextGridSize(g: int): (r: int)
    ensures IsGridSize(g) ==> IsGridSize(r)
    ensures g == 0 ==> r == MaxGridSize
  {
    if g == 0 then MaxGridSize
    else if g / 2 < 16 then 0
    else g / 2
  }

  /** Three presses of 'G' bring the grid back to where it was: 0 -> 32 -> 16 -> 0. */
  lemma GridCycle(g: int)
    requires IsGridSize(g)
    ensures NextGridSize(NextGridSize(NextGridSize(g))) == g
    ensures NextGridSize(g) != g
  {
  }

  /** A multiple of g leaves no remainder. */
  lemma MultipleMod(k: int, g: int)
    requires g > 0
    ensures (k * g) % g == 0
  {
    var q, rem := (k * g) / g, (k * g) % g;
    assert k * g == g * q + rem;
    assert g * (k - q) == rem;
    if k - q >= 1 {
      assert false;
    } else if k - q <= -1 {
      assert false;
    }
  }

  /** One coordinate of SnapToGrid.  In the game, for a power-of-two size g, c & (g-1) is
      the remainder and c & ~(g-1) the multiple of g below c (two's complement), which for
      negative c too are Dafny's Euclidean c % g and c - c % g. */
  function SnapCoordinate(c: int, g: int): (r: int)
    requires g > 0
    ensures r % g == 0
    ensures g % 2 == 0 ==> c - g / 2 <= r <= c + g / 2
  {
    var remainder := c % g;
    var snapped := c - remainder;
    assert snapped == (c / g) * g;
    MultipleMod(c / g, g);
    MultipleMod(c / g + 1, g);
    assert (c / g + 1) * g == snapped + g;
    if remainder >= g / 2 then snapped + g else snapped
  }

  /** main.cs SnapToGrid: the identity when the grid is off, else both axes snapped. */
  function SnapToGrid(pt: ScreenPoint, gridSize: int): (r: ScreenPoint)
    ensures gridSize <= 0 ==> r == pt
    ensures gridSize > 0 ==> r.x % gridSize == 0 && r.y % gridSize == 0
    ensures gridSize > 0 && gridSize % 2 == 0 ==> pt.x - gridSize / 2 <= r.x <= pt.x + gridSize / 2
    ensures gridSize > 0 && gridSize % 2 == 0 ==> pt.y - gridSize / 2 <= r.y <= pt.y + gridSize / 2
  {
    if gridSize > 0 then ScreenPoint(SnapCoordinate(pt.x, gridSize), SnapCoordinate(pt.y, gridSize))
    else pt
  }

  /** A point already on the grid does not move: snapping is idempotent (for every size
      but 1, where half a cell is 0 pixels and every point moves one pixel). */
  lemma SnapIdempotent(pt: ScreenPoint, gridSize: int)
    requires gridSize != 1
    ensures SnapToGrid(SnapToGrid(pt, gridSize), gridSize) == SnapToGrid(pt, gridSize)
  {
  }

  /** A remainder of exactly half a cell or more rounds up, less rounds down
      (with 16 pixels: 40 snaps to 48 and 39 to 32, also for negative coordinates). */
  lemma SnapRounding(c: int, g: int)
    requires g > 0
    ensures c % g >= g / 2 ==> SnapCoordinate(c, g) == c - c % g + g
    ensures c % g < g / 2 ==> SnapCoordinate(c, g) == c - c % g
    ensures SnapCoordinate(40, 16) == 48 && SnapCoordinate(39, 16) == 32
    ensures SnapCoordinate(-8, 16) == 0 && SnapCoordinate(-9, 16) == -16
  {
  }
}
