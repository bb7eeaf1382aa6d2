/** Declarations of the game's grid: the fixed dimensions and screen
    geometry, the per-cell record, coordinates, and the mouse buttons the
    editor reacts to. Cells are addressed by coordinates instead of
    pointers: a `neighbours` entry, a `parent` link, the start and the goal
    are all `Coord` values that designate a cell of the one grid. */
module Grid {

  // The class-scoped enumeration of constants.
  const GridWidth: int := 16
  const GridHeight: int := 16
  const TileSize: int := 40
  const BorderWidth: int := 10
  const ScreenWidth: int := TileSize * GridWidth + BorderWidth
  const ScreenHeight: int := TileSize * GridHeight + BorderWidth
  /** The reset value of both goals of every cell. In game.cpp the name
      `INFINITY` is the floating-point +infinity macro of `<cmath>` (included
      after the class declaration), so the goals hold +infinity. This model
      stands in the class constant GRID_WIDTH * GRID_HEIGHT + 10 for it: the
      engine only ever relies on a non-negative cost added to the sentinel
      not falling below it, which both values satisfy. */
  const Infinity: int := GridWidth * GridHeight + 10

  datatype Option<T> = None | Some(value: T)

  /** A grid position: column `x`, row `y`. */
  datatype Coord = Coord(x: int, y: int)

  /** One cell of the grid. The C++ code stores the goals as floats; every
      value they ever hold is the sentinel, so the integer stand-in `Infinity`
      is all they need. */
  datatype Node = Node(
    x: int,
    y: int,
    isObstacle: bool,
    isVisited: bool,
    localGoal: int,
    globalGoal: int,
    neighbours: seq<Coord>,
    parent: Option<Coord>)

  /** The three kinds of heuristic the game registers. */
  datatype HeuristicType = PythagoreanDistance | ManhattanDistance | Zero

  /** The mouse button of a released click; `Other` stands for the extra
      buttons, which pass the bounds check and trigger a solve but edit nothing. */
  datatype Button = Left | Middle | Right | Other

  /** Every cell of the grid. */
  function AllCells(): set<Coord>
  {
    set x, y | 0 <= x < GridWidth && 0 <= y < GridHeight :: Coord(x, y)
  }

  /** The bounds check applied to every computed coordinate pair. */
  function IsValidCoordinates(x: int, y: int): (valid: bool)
    ensures valid <==> Coord(x, y) in AllCells()
  {
    x >= 0 && x < GridWidth && y >= 0 && y < GridHeight
  }

  function Abs(n: int): nat
  {
    if n < 0 then -n else n
  }

  /** Two cells that share a side (4-connectivity). */
  predicate Adjacent(a: Coord, b: Coord)
  {
    Abs(a.x - b.x) + Abs(a.y - b.y) == 1
  }

  /** C++ integer division of a pixel coordinate by the tile size: it
      truncates toward zero, unlike Dafny's Euclidean `/`. */
  function TileOf(p: int): (t: int)
    ensures p >= 0 ==> 0 <= t && t * TileSize <= p < t * TileSize + TileSize
    ensures p < 0 ==> t <= 0 && t * TileSize - TileSize < p <= t * TileSize
  {
    if p >= 0 then p / TileSize else -((-p) / TileSize)
  }

  /** A pixel inside the window maps to a tile index in [0, GridWidth]; only
      the trailing border strip maps to the out-of-range index GridWidth. */
  lemma TileOfWindowPixel(p: int)
    requires 0 <= p < ScreenWidth
    ensures 0 <= TileOf(p) <= GridWidth
    ensures TileOf(p) == GridWidth <==> p >= TileSize * GridWidth
    ensures IsValidCoordinates(TileOf(p), 0) <==> p < TileSize * GridWidth
  {
  }

  /** Because division truncates, a release up to TileSize - 1 pixels left of
      (or above) the window still lands on tile 0 and passes the bounds check. */
  lemma TileOfJustOutside(p: int)
    requires -TileSize < p < 0
    ensures TileOf(p) == 0 && IsValidCoordinates(TileOf(p), TileOf(p))
  {
  }

  /** Any tile index maps back to the pixels of its own tile. */
  lemma TileOfRoundTrip(t: int, off: int)
    requires 0 <= t < GridWidth && 0 <= off < TileSize
    ensures TileOf(t * TileSize + off) == t
  {
  }

  /** The sentinel exceeds the number of cells, and no non-negative step cost
      added to it falls below it. */
  lemma SentinelNeverImproved(h: int)
    requires h >= 0
    ensures Infinity > GridWidth * GridHeight
    ensures !(Infinity + h < Infinity)
  {
  }
}
