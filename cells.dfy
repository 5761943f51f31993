/**
 * Cell states, compass directions, coordinates and the bounds-checked
 * lookups shared by the maze generator and the line-art renderer
 * (MazeMaker/main.swift, `MazeState`, `Direction`, `Coord`, `occupied`
 * and the `safe` subscript on collections).
 */
module Cells {

  datatype Option<T> = None | Some(value: T)

  /** X is a pillar, O a passage between two pillars, B a blank cell. */
  datatype MazeState = X | O | B

  type Grid = seq<seq<MazeState>>

  datatype Direction = N | S | E | W

  /**
   * An order of the directions, such as `Direction.allDirections.shuffled()`,
   * lists each of the four exactly once: four entries, none missing.
   */
  predicate IsPermutation(order: seq<Direction>)
  {
    |order| == 4 && forall d: Direction :: d in order
  }

  /**
   * The unit step of a direction as an (x, y) offset. The outer grid index is
   * x, so N and S move along y and E and W move along x.
   */
  function Vector(d: Direction): (v: (int, int))
    ensures -1 <= v.0 <= 1 && -1 <= v.1 <= 1
    ensures (v.0 == 0) != (v.1 == 0)
    ensures v.0 == 0 <==> d == N || d == S
  {
    match d
    case N => (0, -1)
    case S => (0, 1)
    case E => (1, 0)
    case W => (-1, 0)
  }

  datatype Coord = Coord(x: int, y: int)

  /** The cell one step from c in direction d (`tryO`): a neighbour along exactly one axis. */
  function OneStep(c: Coord, d: Direction): (r: Coord)
    ensures (r.x == c.x) != (r.y == c.y)
    ensures -1 <= r.x - c.x <= 1 && -1 <= r.y - c.y <= 1
  {
    Coord(c.x + Vector(d).0, c.y + Vector(d).1)
  }

  /**
   * The cell two steps from c in direction d (`tryX`): it lies on the same
   * line as c, and the cell one step away is exactly halfway between them.
   */
  function TwoSteps(c: Coord, d: Direction): (r: Coord)
    ensures (r.x == c.x) != (r.y == c.y)
    ensures r.x - OneStep(c, d).x == OneStep(c, d).x - c.x && r.y - OneStep(c, d).y == OneStep(c, d).y - c.y
  {
    Coord(c.x + Vector(d).0 * 2, c.y + Vector(d).1 * 2)
  }

  /** `s[safe: i]`: the element at i when i is a valid index, otherwise nothing. */
  function SafeAt<T>(s: seq<T>, i: int): (r: Option<T>)
    ensures r.Some? <==> 0 <= i < |s|
    ensures r.Some? ==> r.value == s[i]
  {
    if 0 <= i < |s| then Some(s[i]) else None
  }

  /** `grid[safe: x]?[safe: y]`: the cell at (x, y), or nothing when either index is out of range. */
  function Lookup(g: Grid, x: int, y: int): (r: Option<MazeState>)
    ensures r.Some? <==> 0 <= x < |g| && 0 <= y < |g[x]|
    ensures r.Some? ==> r.value == g[x][y]
  {
    match SafeAt(g, x)
    case None => None
    case Some(row) => SafeAt(row, y)
  }

  /** `occupied`: a cell that exists and is a pillar or a passage. */
  function Occupied(s: Option<MazeState>): (r: bool)
    ensures r <==> s == Some(X) || s == Some(O)
  {
    match s
    case None => false
    case Some(state) => state != B
  }
}
