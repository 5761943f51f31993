/**
 * The grid model: a square grid of cell states together with the frontier
 * set `potentiallyValidX`, and the construction that carves the
 * alternating pillar/passage border (MazeMaker/main.swift, `class Maze`).
 */
module MazeGrid {
  import opened Cells

  /** Every one of the `size` rows holds `size` cells. */
  predicate IsSquare(g: Grid, size: int)
  {
    |g| == size && forall x :: 0 <= x < |g| ==> |g[x]| == size
  }

  predicate InBounds(g: Grid, c: Coord)
  {
    0 <= c.x < |g| && 0 <= c.y < |g[c.x]|
  }

  /** `grid[c.x][c.y] = v`: the grid with exactly one cell replaced. */
  function Put(g: Grid, c: Coord, v: MazeState): (r: Grid)
    requires InBounds(g, c)
    ensures |r| == |g| && forall x :: 0 <= x < |g| ==> |r[x]| == |g[x]|
    ensures forall x, y :: 0 <= x < |g| && 0 <= y < |g[x]| ==>
      r[x][y] == if x == c.x && y == c.y then v else g[x][y]
  {
    g[c.x := g[c.x][c.y := v]]
  }

  /** Two grids of the same shape with the same cells are the same grid. */
  lemma SameCells(g: Grid, h: Grid, size: int)
    requires IsSquare(g, size) && IsSquare(h, size)
    requires forall x, y :: 0 <= x < size && 0 <= y < size ==> g[x][y] == h[x][y]
    ensures g == h
  {
    forall x | 0 <= x < size
      ensures g[x] == h[x]
    {
      assert forall y :: 0 <= y < size ==> g[x][y] == h[x][y];
    }
  }

  predicate IsEdge(size: int, v: int)
  {
    v == 0 || v == size - 1
  }

  predicate OnBorder(size: int, x: int, y: int)
  {
    IsEdge(size, x) || IsEdge(size, y)
  }

  predicate IsCorner(size: int, x: int, y: int)
  {
    IsEdge(size, x) && IsEdge(size, y)
  }

  /** The running index of the border loop at which a non-corner border cell is written. */
  function Along(size: int, x: int, y: int): int
  {
    if IsEdge(size, x) then y else x
  }

  /** `isX ? .X : .O`: the state the border loop writes, a pillar or a passage. */
  function BorderState(isX: bool): (v: MazeState)
    ensures v != B && (v == X <==> isX)
  {
    if isX then X else O
  }

  /**
   * Iteration j of the border loop writes the four cells (0, j), (j, 0),
   * (size-1, j) and (j, size-1). This is the largest j < i that writes
   * cell (x, y), or -1 when no iteration before i does.
   */
  function LastWriteBefore(size: int, i: int, x: int, y: int): int
  {
    var a := if IsEdge(size, x) && 0 <= y < i then y else -1;
    var b := if IsEdge(size, y) && 0 <= x < i then x else -1;
    if a < b then b else a
  }

  /** Cell (x, y) after the first i iterations of the border loop: the last write wins. */
  function CellBefore(size: int, i: int, x: int, y: int): MazeState
  {
    var w := LastWriteBefore(size, i, x, y);
    if w < 0 then B else BorderState(w % 2 == 0)
  }

  /** The grid that `Maze.init(size:)` builds. */
  function InitialGrid(size: nat): (g: Grid)
    ensures IsSquare(g, size)
  {
    seq(size, x requires 0 <= x < size => seq(size, y => CellBefore(size, size, x, y)))
  }

  /**
   * The frontier after the first i iterations of the border loop: the
   * non-corner border cells whose running index is even and below i.
   */
  ghost function SeededBefore(size: int, i: int): set<Coord>
  {
    set x: int, y: int | 0 <= x < size && 0 <= y < size && OnBorder(size, x, y) && !IsCorner(size, x, y)
      && Along(size, x, y) < i && Along(size, x, y) % 2 == 0 :: Coord(x, y)
  }

  /** The frontier that `Maze.init(size:)` seeds. */
  ghost function InitialFrontier(size: int): set<Coord>
  {
    SeededBefore(size, size)
  }

  /** The four cells written by iteration i of the border loop, in the loop's order. */
  function BorderCells(size: int, i: int): (cs: seq<Coord>)
    requires 0 <= i < size
    ensures |cs| == 4
    ensures forall c :: c in cs ==> 0 <= c.x < size && 0 <= c.y < size && OnBorder(size, c.x, c.y)
  {
    [Coord(0, i), Coord(i, 0), Coord(size - 1, i), Coord(i, size - 1)]
  }

  /**
   * One iteration of the border loop: after writing the four cells of
   * iteration i (and seeding those that are non-corner pillars), the grid
   * and the frontier are those after i + 1 iterations.
   */
  lemma BorderIteration(size: int, i: int, g: Grid, frontier: set<Coord>)
    requires 0 <= i < size && IsSquare(g, size)
    requires PartlyWritten(g, size, i, BorderCells(size, i), BorderState(i % 2 == 0))
    requires forall c :: c in frontier <==>
      c in SeededBefore(size, i) || (i % 2 == 0 && i != 0 && i != size - 1 && c in BorderCells(size, i))
    ensures forall x, y :: 0 <= x < size && 0 <= y < size ==> g[x][y] == CellBefore(size, i + 1, x, y)
    ensures frontier == SeededBefore(size, i + 1)
  {
    SeededStep(size, i);
    forall x, y | 0 <= x < size && 0 <= y < size
      ensures g[x][y] == CellBefore(size, i + 1, x, y)
    {
      CellStep(size, i, x, y);
    }
  }

  /**
   * Inside iteration i of the border loop, once the cells written have been
   * set to v: those cells hold v and every other cell is as after iteration i - 1.
   */
  ghost predicate PartlyWritten(g: Grid, size: int, i: int, written: seq<Coord>, v: MazeState)
  {
    && IsSquare(g, size)
    && forall x, y :: 0 <= x < size && 0 <= y < size ==>
      g[x][y] == if Coord(x, y) in written then v else CellBefore(size, i, x, y)
  }

  /** Writing one more cell of iteration i. */
  lemma WriteOne(g: Grid, size: int, i: int, written: seq<Coord>, c: Coord, v: MazeState)
    requires IsSquare(g, size) && InBounds(g, c)
    requires PartlyWritten(g, size, i, written, v)
    ensures PartlyWritten(Put(g, c, v), size, i, written + [c], v)
  {
  }

  /** Consecutive indices have opposite parity. */
  lemma ParityFlips(i: int)
    ensures ((i + 1) % 2 == 0) == (i % 2 != 0)
  {
  }

  /** Iteration i writes its four cells and no other: they, and only they, now hold its value. */
  lemma CellStep(size: int, i: int, x: int, y: int)
    requires 0 <= i < size && 0 <= x < size && 0 <= y < size
    ensures CellBefore(size, i + 1, x, y) ==
      if Coord(x, y) in BorderCells(size, i) then BorderState(i % 2 == 0) else CellBefore(size, i, x, y)
  {
  }

  /** Iteration i of the border loop seeds its four cells exactly when i is even and not a corner index. */
  lemma SeededStep(size: int, i: int)
    requires 0 <= i < size
    ensures SeededBefore(size, i + 1) ==
      SeededBefore(size, i) + if i % 2 == 0 && i != 0 && i != size - 1 then set c | c in BorderCells(size, i) else {}
  {
    forall c | c in BorderCells(size, i) && i % 2 == 0 && i != 0 && i != size - 1
      ensures c in SeededBefore(size, i + 1)
    {
      assert 0 <= c.x < size && 0 <= c.y < size && Along(size, c.x, c.y) == i;
    }
  }

  /** The number of even indices strictly between 0 and min(i, size - 1). */
  function EvenInteriorBelow(size: int, i: int): nat
  {
    var m := if i < size - 1 then i else size - 1;
    if m <= 1 then 0 else (m - 1) / 2
  }

  /** The count goes up by one exactly at the even indices strictly inside the border. */
  lemma EvenInteriorStep(size: int, j: int)
    requires 0 <= j < size
    ensures EvenInteriorBelow(size, j + 1) ==
      EvenInteriorBelow(size, j) + if j % 2 == 0 && j != 0 && j != size - 1 then 1 else 0
  {
    if j + 1 < size - 1 && j >= 2 {
      assert EvenInteriorBelow(size, j + 1) == j / 2;
      assert EvenInteriorBelow(size, j) == (j - 1) / 2;
    }
  }

  /** A seeding iteration adds four cells that were not in the frontier yet. */
  lemma SeededGrowsByFour(size: int, i: int)
    requires 0 < i < size - 1 && i % 2 == 0
    ensures |SeededBefore(size, i + 1)| == |SeededBefore(size, i)| + 4
  {
    SeededStep(size, i);
    BorderCellsDistinct(size, i);
    SeededDisjoint(size, i);
    var before, added := SeededBefore(size, i), set c | c in BorderCells(size, i);
    assert |before + added| == |before| + |added|;
  }

  /** Strictly inside the border the four cells of one iteration are different cells. */
  lemma BorderCellsDistinct(size: int, i: int)
    requires 0 < i < size - 1
    ensures |set c | c in BorderCells(size, i)| == 4
  {
    var cs := BorderCells(size, i);
    assert (set c | c in cs) == {cs[0], cs[1], cs[2], cs[3]};
  }

  /** The cells of iteration i were not seeded by an earlier iteration. */
  lemma SeededDisjoint(size: int, i: int)
    requires 0 < i < size - 1
    ensures SeededBefore(size, i) !! set c | c in BorderCells(size, i)
  {
    forall c | c in SeededBefore(size, i)
      ensures c !in BorderCells(size, i)
    {
      assert Along(size, c.x, c.y) < i;
    }
  }

  /** The frontier grows by four at every even running index strictly inside the border. */
  lemma {:induction false} SeededCount(size: int, i: int)
    requires 0 <= i <= size
    ensures |SeededBefore(size, i)| == 4 * EvenInteriorBelow(size, i)
  {
    if i == 0 {
      assert SeededBefore(size, 0) == {};
    } else {
      var j := i - 1;
      SeededCount(size, j);
      EvenInteriorStep(size, j);
      if j % 2 == 0 && j != 0 && j != size - 1 {
        SeededGrowsByFour(size, j);
      } else {
        SeededStep(size, j);
      }
    }
  }

  /**
   * The non-corner border cells that the border loop writes at an even
   * running index are exactly the cells seeded into the frontier: the
   * frontier is the set of non-corner pillars of the initial grid.
   */
  lemma InitialFrontierPillars(size: nat)
    ensures forall c :: c in InitialFrontier(size) <==>
      InBounds(InitialGrid(size), c) && !IsCorner(size, c.x, c.y) && InitialGrid(size)[c.x][c.y] == X
  {
    var g := InitialGrid(size);
    forall c | InBounds(g, c) && !IsCorner(size, c.x, c.y) && g[c.x][c.y] == X
      ensures c in InitialFrontier(size)
    {
      assert OnBorder(size, c.x, c.y);
      assert LastWriteBefore(size, size, c.x, c.y) == Along(size, c.x, c.y);
    }
    forall c | c in InitialFrontier(size)
      ensures InBounds(g, c) && !IsCorner(size, c.x, c.y) && g[c.x][c.y] == X
    {
      assert LastWriteBefore(size, size, c.x, c.y) == Along(size, c.x, c.y);
    }
  }

  /** The initial frontier holds 4(n - 2) pillars, none at all when n <= 2. */
  lemma InitialFrontierSize(n: int)
    requires n >= 1
    ensures |InitialFrontier(2 * n - 1)| == if n <= 2 then 0 else 4 * (n - 2)
  {
    SeededCount(2 * n - 1, 2 * n - 1);
  }

  /**
   * The border cell of running index i is a pillar when i is even and a
   * passage when i is odd; in the odd-sized grids that generation builds
   * the four corners are therefore pillars, and every interior cell is blank.
   */
  function BorderPattern(size: int, x: int, y: int): MazeState
  {
    if !OnBorder(size, x, y) then B else BorderState(Along(size, x, y) % 2 == 0)
  }

  lemma InitialGridPattern(size: nat)
    requires size % 2 == 1
    ensures forall x, y :: 0 <= x < size && 0 <= y < size ==> InitialGrid(size)[x][y] == BorderPattern(size, x, y)
    ensures forall x, y :: 0 <= x < size && 0 <= y < size && IsCorner(size, x, y) ==> InitialGrid(size)[x][y] == X
  {
    forall x, y | 0 <= x < size && 0 <= y < size
      ensures InitialGrid(size)[x][y] == BorderPattern(size, x, y)
    {
      if IsCorner(size, x, y) {
        assert LastWriteBefore(size, size, x, y) % 2 == 0;
      }
    }
  }

  class Maze {
    var potentiallyValidX: set<Coord>
    var grid: Grid

    /** `Maze.init(size:)`: a blank grid with the alternating border carved and the frontier seeded. */
    constructor (size: int)
      requires size >= 0
      ensures grid == InitialGrid(size)
      ensures potentiallyValidX == InitialFrontier(size)
    {
      var frontier: set<Coord> := {};
      var g: Grid := seq(size, _ => seq(size, _ => B));
      var isX := true;
      for i := 0 to size
        invariant IsSquare(g, size)
        invariant isX == (i % 2 == 0)
        invariant forall x, y :: 0 <= x < size && 0 <= y < size ==> g[x][y] == CellBefore(size, i, x, y)
        invariant frontier == SeededBefore(size, i)
      {
        var cs := BorderCells(size, i);
        for j := 0 to 4
          invariant IsSquare(g, size)
          invariant PartlyWritten(g, size, i, cs[..j], BorderState(isX))
          invariant forall c :: c in frontier <==>
            c in SeededBefore(size, i) || (isX && i != 0 && i != size - 1 && c in cs[..j])
        {
          var c := cs[j];
          assert cs[..j + 1] == cs[..j] + [c];
          WriteOne(g, size, i, cs[..j], c, BorderState(isX));
          g := Put(g, c, BorderState(isX));
          if isX && i != 0 && i != size - 1 {
            frontier := frontier + {c};
          }
        }
        assert cs[..4] == cs;
        BorderIteration(size, i, g, frontier);
        ParityFlips(i);
        isX := !isX;
      }
      SameCells(g, InitialGrid(size), size);
      grid := g;
      potentiallyValidX := frontier;
    }
  }
}
