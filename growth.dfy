/**
 * The growth engine: `tryMarkingRandomDirection` extends the maze by one
 * pillar from a frontier coordinate, and `generateMaze` repeats it until
 * the frontier is empty (MazeMaker/main.swift). The two random choices of
 * the source, `randomElement()` and `shuffled()`, are arbitrary choices
 * here, so every property below holds whatever is chosen.
 */
module Growth {
  import opened Cells
  import opened MazeGrid

  /**
   * The test of `tryMarkingRandomDirection`: the cell one step from start in
   * direction d and the cell two steps away both exist and are blank.
   */
  predicate CanExtend(g: Grid, start: Coord, d: Direction)
  {
    var o := OneStep(start, d);
    var x := TwoSteps(start, d);
    Lookup(g, o.x, o.y) == Some(B) && Lookup(g, x.x, x.y) == Some(B)
  }

  /** No direction is left in which the maze can grow from c. */
  ghost predicate Exhausted(g: Grid, c: Coord)
  {
    forall d: Direction :: !CanExtend(g, c, d)
  }

  /** The index of the first direction of order, from index i on, that passes the test, if any. */
  function FirstOpen(g: Grid, start: Coord, order: seq<Direction>, i: nat): (r: Option<nat>)
    requires i <= |order|
    ensures r.Some? ==> i <= r.value < |order| && CanExtend(g, start, order[r.value])
    ensures r.Some? ==> forall j :: i <= j < r.value ==> !CanExtend(g, start, order[j])
    ensures r.None? ==> forall j :: i <= j < |order| ==> !CanExtend(g, start, order[j])
    decreases |order| - i
  {
    if i == |order| then None
    else if CanExtend(g, start, order[i]) then Some(i)
    else FirstOpen(g, start, order, i + 1)
  }

  /** The grid after marking a passage one step and a pillar two steps from start. */
  function Extend(g: Grid, start: Coord, d: Direction): (r: Grid)
    requires CanExtend(g, start, d)
    ensures |r| == |g| && forall x :: 0 <= x < |g| ==> |r[x]| == |g[x]|
    ensures r[OneStep(start, d).x][OneStep(start, d).y] == O
    ensures r[TwoSteps(start, d).x][TwoSteps(start, d).y] == X
    ensures forall x, y :: 0 <= x < |g| && 0 <= y < |g[x]| && Coord(x, y) != OneStep(start, d) && Coord(x, y) != TwoSteps(start, d) ==>
      r[x][y] == g[x][y]
  {
    Put(Put(g, OneStep(start, d), O), TwoSteps(start, d), X)
  }

  /**
   * When the direction order is a permutation of all four directions, no
   * direction in it passes the test exactly when the start is exhausted.
   */
  lemma NoneIffExhausted(g: Grid, start: Coord, order: seq<Direction>)
    requires IsPermutation(order)
    ensures FirstOpen(g, start, order, 0).None? <==> Exhausted(g, start)
  {
    if FirstOpen(g, start, order, 0).None? {
      forall d: Direction
        ensures !CanExtend(g, start, d)
      {
        assert d in order;
        var j :| 0 <= j < |order| && order[j] == d;
      }
    }
  }

  /** `Array.shuffled()` on `Direction.allDirections`: some order of the four directions. */
  method ShuffledDirections() returns (order: seq<Direction>)
    ensures IsPermutation(order)
  {
    var rest := {N, S, E, W};
    var a :| a in rest;
    rest := rest - {a};
    var b :| b in rest;
    rest := rest - {b};
    var c :| c in rest;
    rest := rest - {c};
    var d :| d in rest;
    assert rest == {d};
    order := [a, b, c, d];
    forall dir: Direction
      ensures dir in order
    {
      assert dir == N || dir == S || dir == E || dir == W;
    }
  }

  /** What one call of `tryMarkingRandomDirection` returns, together with the grid it leaves. */
  datatype Marking = Marking(newX: Option<Coord>, grid: Grid)

  /**
   * The effect of trying the directions of order from start: the first one
   * that passes the test gets a passage and a new pillar, which is returned;
   * when none passes, nothing is returned and the grid is left as it is.
   */
  function Mark(g: Grid, start: Coord, order: seq<Direction>): Marking
  {
    match FirstOpen(g, start, order, 0)
    case None => Marking(None, g)
    case Some(k) => Marking(Some(TwoSteps(start, order[k])), Extend(g, start, order[k]))
  }

  /**
   * One try either finds a first direction d of the order whose two cells
   * were in bounds and blank, marks them passage and pillar, leaves every
   * other cell alone and returns the pillar two steps from start, or else
   * finds every direction blocked and changes nothing.
   */
  lemma MarkSpec(g: Grid, start: Coord, order: seq<Direction>)
    requires IsPermutation(order)
    ensures Mark(g, start, order).newX.None? <==> Exhausted(g, start)
    ensures Mark(g, start, order).newX.None? ==> Mark(g, start, order).grid == g
    ensures var m := Mark(g, start, order); m.newX.Some? ==>
      exists k :: 0 <= k < |order| && (forall j :: 0 <= j < k ==> !CanExtend(g, start, order[j]))
        && CanExtend(g, start, order[k])
        && m.newX.value == TwoSteps(start, order[k])
        && |m.grid| == |g| && (forall x :: 0 <= x < |g| ==> |m.grid[x]| == |g[x]|)
        && m.grid[OneStep(start, order[k]).x][OneStep(start, order[k]).y] == O
        && m.grid[TwoSteps(start, order[k]).x][TwoSteps(start, order[k]).y] == X
        && (forall x, y ::
              (0 <= x < |g| && 0 <= y < |g[x]| &&
               Coord(x, y) != OneStep(start, order[k]) && Coord(x, y) != TwoSteps(start, order[k])) ==>
              m.grid[x][y] == g[x][y])
  {
    NoneIffExhausted(g, start, order);
    var r := FirstOpen(g, start, order, 0);
    if r.Some? {
      var k := r.value;
      assert 0 <= k < |order| && (forall j :: 0 <= j < k ==> !CanExtend(g, start, order[j]));
    }
  }

  /**
   * `tryMarkingRandomDirection(maze, start)` with the shuffled order given.
   * The source asserts that start is a pillar of the grid.
   */
  method TryMarkingRandomDirection(maze: Maze, start: Coord, order: seq<Direction>) returns (newX: Option<Coord>)
    requires InBounds(maze.grid, start) && maze.grid[start.x][start.y] == X
    requires IsPermutation(order)
    modifies maze`grid
    ensures Marking(newX, maze.grid) == Mark(old(maze.grid), start, order)
  {
    ghost var g := maze.grid;
    for k := 0 to |order|
      invariant maze.grid == g
      invariant forall j :: 0 <= j < k ==> !CanExtend(g, start, order[j])
    {
      var vector := Vector(order[k]);
      var tryO := Coord(start.x + vector.0, start.y + vector.1);
      var tryX := Coord(start.x + vector.0 * 2, start.y + vector.1 * 2);
      StepsOf(start, order[k]);
      if Lookup(maze.grid, tryO.x, tryO.y) == Some(B) && Lookup(maze.grid, tryX.x, tryX.y) == Some(B) {
        MarkFound(g, start, order, k);
        maze.grid := Put(maze.grid, tryO, O);
        maze.grid := Put(maze.grid, tryX, X);
        return Some(tryX);
      }
    }
    MarkBlocked(g, start, order);
    return None;
  }

  /** `tryO` and `tryX` as the source computes them from the direction's vector. */
  lemma StepsOf(c: Coord, d: Direction)
    ensures Coord(c.x + Vector(d).0, c.y + Vector(d).1) == OneStep(c, d)
    ensures Coord(c.x + Vector(d).0 * 2, c.y + Vector(d).1 * 2) == TwoSteps(c, d)
  {
  }

  /** The first direction that passes decides the marking. */
  lemma MarkFound(g: Grid, start: Coord, order: seq<Direction>, k: nat)
    requires k < |order| && CanExtend(g, start, order[k])
    requires forall j :: 0 <= j < k ==> !CanExtend(g, start, order[j])
    ensures Mark(g, start, order) == Marking(Some(TwoSteps(start, order[k])), Extend(g, start, order[k]))
  {
    assert FirstOpen(g, start, order, 0) == Some(k);
  }

  /** When every direction fails, nothing is marked. */
  lemma MarkBlocked(g: Grid, start: Coord, order: seq<Direction>)
    requires forall j :: 0 <= j < |order| ==> !CanExtend(g, start, order[j])
    ensures Mark(g, start, order) == Marking(None, g)
  {
  }

  predicate IsPillarPos(x: int, y: int)
  {
    x % 2 == 0 && y % 2 == 0
  }

  predicate IsLinkPos(x: int, y: int)
  {
    (x % 2 == 0) != (y % 2 == 0)
  }

  /** Pillars stand only at even/even positions and passages only at positions between two of them. */
  predicate Placed(g: Grid)
  {
    forall x, y :: 0 <= x < |g| && 0 <= y < |g[x]| ==>
      (g[x][y] == X ==> IsPillarPos(x, y)) && (g[x][y] == O ==> IsLinkPos(x, y))
  }

  /**
   * A passage at (x, y) joins the two pillars on either side of it: left and
   * right when x is odd, above and below otherwise.
   */
  predicate LinkedAt(g: Grid, x: int, y: int)
    requires 0 <= x < |g| && 0 <= y < |g[x]|
  {
    g[x][y] == O ==>
      if x % 2 == 1 then Lookup(g, x - 1, y) == Some(X) && Lookup(g, x + 1, y) == Some(X)
      else Lookup(g, x, y - 1) == Some(X) && Lookup(g, x, y + 1) == Some(X)
  }

  /** Every passage joins the two pillars on either side of it. */
  predicate Linked(g: Grid)
  {
    forall x, y :: 0 <= x < |g| && 0 <= y < |g[x]| ==> LinkedAt(g, x, y)
  }

  /** g has the shape of g0 and keeps every pillar and passage of g0: only blanks were overwritten. */
  predicate Grows(g0: Grid, g: Grid)
  {
    && |g| == |g0|
    && (forall x :: 0 <= x < |g| ==> |g[x]| == |g0[x]|)
    && forall x, y :: 0 <= x < |g0| && 0 <= y < |g0[x]| && g0[x][y] != B ==> g[x][y] == g0[x][y]
  }

  /** The invariant behind the assert of `tryMarkingRandomDirection`: every frontier member is a pillar. */
  predicate FrontierPillars(g: Grid, frontier: set<Coord>)
  {
    forall c :: c in frontier ==> InBounds(g, c) && g[c.x][c.y] == X
  }

  /** A pillar that has left the frontier (or never entered it) cannot grow any more. */
  ghost predicate Settled(g: Grid, frontier: set<Coord>)
  {
    forall x, y :: 0 <= x < |g| && 0 <= y < |g[x]| && g[x][y] == X && Coord(x, y) !in frontier ==>
      Exhausted(g, Coord(x, y))
  }

  /** What every pass of the generation loop preserves. */
  ghost predicate Invariant(g: Grid, frontier: set<Coord>, size: nat)
  {
    && IsSquare(g, size)
    && Placed(g)
    && Linked(g)
    && Grows(InitialGrid(size), g)
    && FrontierPillars(g, frontier)
    && Settled(g, frontier)
  }

  ghost function Blanks(g: Grid): set<Coord>
  {
    set x: int, y: int | 0 <= x < |g| && 0 <= y < |g[x]| && g[x][y] == B :: Coord(x, y)
  }

  /** Stepping from a pillar position: one step lands between pillars, two steps on the next pillar. */
  lemma StepGeometry(c: Coord, d: Direction)
    requires IsPillarPos(c.x, c.y)
    ensures IsLinkPos(OneStep(c, d).x, OneStep(c, d).y)
    ensures IsPillarPos(TwoSteps(c, d).x, TwoSteps(c, d).y)
    ensures OneStep(c, d).x % 2 == 1 ==>
      OneStep(c, d).y == c.y == TwoSteps(c, d).y &&
      ((OneStep(c, d).x - 1 == c.x && OneStep(c, d).x + 1 == TwoSteps(c, d).x) ||
       (OneStep(c, d).x + 1 == c.x && OneStep(c, d).x - 1 == TwoSteps(c, d).x))
    ensures OneStep(c, d).x % 2 != 1 ==>
      OneStep(c, d).x == c.x == TwoSteps(c, d).x &&
      ((OneStep(c, d).y - 1 == c.y && OneStep(c, d).y + 1 == TwoSteps(c, d).y) ||
       (OneStep(c, d).y + 1 == c.y && OneStep(c, d).y - 1 == TwoSteps(c, d).y))
  {
  }

  /** A direction that is blocked stays blocked once only blanks are overwritten. */
  lemma ExhaustedStays(g: Grid, h: Grid, c: Coord)
    requires Grows(g, h) && Exhausted(g, c)
    ensures Exhausted(h, c)
  {
    forall d: Direction
      ensures !CanExtend(h, c, d)
    {
      assert !CanExtend(g, c, d);
      BlankWasBlank(g, h, OneStep(c, d));
      BlankWasBlank(g, h, TwoSteps(c, d));
    }
  }

  lemma BlankWasBlank(g: Grid, h: Grid, c: Coord)
    requires Grows(g, h)
    ensures Lookup(h, c.x, c.y) == Some(B) ==> Lookup(g, c.x, c.y) == Some(B)
  {
  }

  /** An extension overwrites two blanks and nothing else. */
  lemma ExtendGrows(g: Grid, start: Coord, d: Direction)
    requires CanExtend(g, start, d)
    ensures Grows(g, Extend(g, start, d))
  {
  }

  /** The new passage lies between pillar positions and the new pillar on one. */
  lemma ExtendPlaced(g: Grid, start: Coord, d: Direction)
    requires Placed(g)
    requires InBounds(g, start) && g[start.x][start.y] == X
    requires CanExtend(g, start, d)
    ensures Placed(Extend(g, start, d))
  {
    StepGeometry(start, d);
  }

  /** A pillar stays a pillar once only blanks are overwritten. */
  lemma PillarStays(g: Grid, h: Grid, x: int, y: int)
    requires Grows(g, h)
    ensures Lookup(g, x, y) == Some(X) ==> Lookup(h, x, y) == Some(X)
  {
  }

  /** A passage stays a passage once only blanks are overwritten. */
  lemma PassageStays(g: Grid, h: Grid, x: int, y: int)
    requires Grows(g, h)
    ensures Lookup(g, x, y) == Some(O) ==> Lookup(h, x, y) == Some(O)
  {
  }

  /** The new passage joins the start and the new pillar; the old passages keep their pillars. */
  lemma ExtendLinked(g: Grid, start: Coord, d: Direction)
    requires Placed(g) && Linked(g)
    requires InBounds(g, start) && g[start.x][start.y] == X
    requires CanExtend(g, start, d)
    ensures Linked(Extend(g, start, d))
  {
    var h := Extend(g, start, d);
    ExtendGrows(g, start, d);
    NewPassageLinked(g, start, d);
    forall x, y | 0 <= x < |h| && 0 <= y < |h[x]|
      ensures LinkedAt(h, x, y)
    {
      if Coord(x, y) != OneStep(start, d) && h[x][y] == O {
        OldPassageLinked(g, h, x, y);
      }
    }
  }

  /** The passage just carved lies between the start and the new pillar. */
  lemma NewPassageLinked(g: Grid, start: Coord, d: Direction)
    requires IsPillarPos(start.x, start.y)
    requires InBounds(g, start) && g[start.x][start.y] == X
    requires CanExtend(g, start, d)
    ensures LinkedAt(Extend(g, start, d), OneStep(start, d).x, OneStep(start, d).y)
  {
    var h, t := Extend(g, start, d), TwoSteps(start, d);
    StepGeometry(start, d);
    assert Lookup(h, start.x, start.y) == Some(X);
    assert Lookup(h, t.x, t.y) == Some(X);
  }

  /** A passage that was already there keeps its pillars. */
  lemma OldPassageLinked(g: Grid, h: Grid, x: int, y: int)
    requires Linked(g) && Grows(g, h)
    requires 0 <= x < |g| && 0 <= y < |g[x]| && g[x][y] == O
    ensures LinkedAt(h, x, y)
  {
    assert LinkedAt(g, x, y);
    if x % 2 == 1 {
      PillarStays(g, h, x - 1, y);
      PillarStays(g, h, x + 1, y);
    } else {
      PillarStays(g, h, x, y - 1);
      PillarStays(g, h, x, y + 1);
    }
  }

  /** Overwriting only blanks, twice, overwrites only blanks. */
  lemma GrowsTransitive(g0: Grid, g: Grid, h: Grid)
    requires Grows(g0, g) && Grows(g, h)
    ensures Grows(g0, h)
  {
  }

  /** After an extension every pillar outside the enlarged frontier is still exhausted. */
  lemma ExtendSettled(g: Grid, frontier: set<Coord>, start: Coord, d: Direction)
    requires Settled(g, frontier) && CanExtend(g, start, d)
    requires Grows(g, Extend(g, start, d))
    ensures Settled(Extend(g, start, d), frontier + {TwoSteps(start, d)})
  {
    var h := Extend(g, start, d);
    forall x, y | 0 <= x < |h| && 0 <= y < |h[x]| && h[x][y] == X && Coord(x, y) !in frontier + {TwoSteps(start, d)}
      ensures Exhausted(h, Coord(x, y))
    {
      assert g[x][y] == X;
      ExhaustedStays(g, h, Coord(x, y));
    }
  }

  /** An extension turns the new pillar's cell from blank to pillar and creates no blank. */
  lemma ExtendUsesBlanks(g: Grid, start: Coord, d: Direction)
    requires CanExtend(g, start, d)
    ensures Blanks(Extend(g, start, d)) < Blanks(g)
  {
    var h := Extend(g, start, d);
    var t := TwoSteps(start, d);
    assert Blanks(h) <= Blanks(g);
    assert t in Blanks(g) && t !in Blanks(h);
  }

  /** A successful extension keeps the invariant, with the new pillar joining the frontier, and uses up blanks. */
  lemma ExtendKeeps(g: Grid, frontier: set<Coord>, size: nat, start: Coord, d: Direction)
    requires Invariant(g, frontier, size)
    requires start in frontier && CanExtend(g, start, d)
    ensures Invariant(Extend(g, start, d), frontier + {TwoSteps(start, d)}, size)
    ensures Blanks(Extend(g, start, d)) < Blanks(g)
  {
    var h := Extend(g, start, d);
    ExtendGrows(g, start, d);
    ExtendPlaced(g, start, d);
    ExtendLinked(g, start, d);
    GrowsTransitive(InitialGrid(size), g, h);
    ExtendSettled(g, frontier, start, d);
    ExtendUsesBlanks(g, start, d);
    ExtendFrontier(g, frontier, start, d);
    assert IsSquare(h, size);
  }

  /** The frontier with the new pillar added still holds only pillars. */
  lemma ExtendFrontier(g: Grid, frontier: set<Coord>, start: Coord, d: Direction)
    requires FrontierPillars(g, frontier) && CanExtend(g, start, d)
    ensures FrontierPillars(Extend(g, start, d), frontier + {TwoSteps(start, d)})
  {
    var h := Extend(g, start, d);
    ExtendGrows(g, start, d);
    forall c | c in frontier
      ensures InBounds(h, c) && h[c.x][c.y] == X
    {
      PillarStays(g, h, c.x, c.y);
    }
  }

  /** A frontier member that cannot grow may leave the frontier. */
  lemma ExhaustedLeaves(g: Grid, frontier: set<Coord>, size: nat, start: Coord)
    requires Invariant(g, frontier, size)
    requires start in frontier && Exhausted(g, start)
    ensures Invariant(g, frontier - {start}, size)
  {
  }

  /** Every step from a corner of the initial grid leaves the grid or lands on the carved border. */
  lemma CornerExhausted(size: nat, c: Coord)
    requires size % 2 == 1
    requires 0 <= c.x < size && 0 <= c.y < size && IsCorner(size, c.x, c.y)
    ensures Exhausted(InitialGrid(size), c)
  {
    var g := InitialGrid(size);
    InitialGridPattern(size);
    forall d: Direction
      ensures !CanExtend(g, c, d)
    {
      var o := OneStep(c, d);
      if 0 <= o.x < size && 0 <= o.y < size {
        assert OnBorder(size, o.x, o.y);
        assert g[o.x][o.y] != B;
      }
    }
  }

  /** The grid and frontier that `Maze.init` builds satisfy the loop invariant. */
  lemma InitialInvariant(size: nat)
    requires size % 2 == 1
    ensures Invariant(InitialGrid(size), InitialFrontier(size), size)
  {
    InitialFrontierPillars(size);
    InitialPlaced(size);
    InitialLinked(size);
    InitialSettled(size);
  }

  /** The carved border puts pillars at even/even and passages at link positions. */
  lemma InitialPlaced(size: nat)
    requires size % 2 == 1
    ensures Placed(InitialGrid(size))
  {
    var g := InitialGrid(size);
    InitialGridPattern(size);
    forall x, y | 0 <= x < size && 0 <= y < size
      ensures (g[x][y] == X ==> IsPillarPos(x, y)) && (g[x][y] == O ==> IsLinkPos(x, y))
    {
      assert g[x][y] == BorderPattern(size, x, y);
    }
  }

  /** Along the carved border every passage sits between two pillars. */
  lemma InitialLinked(size: nat)
    requires size % 2 == 1
    ensures Linked(InitialGrid(size))
  {
    var g := InitialGrid(size);
    InitialGridPattern(size);
    forall x, y | 0 <= x < size && 0 <= y < size
      ensures LinkedAt(g, x, y)
    {
      if g[x][y] == O {
        assert g[x][y] == BorderPattern(size, x, y);
        BorderPassageLinked(size, x, y);
        if x % 2 == 1 {
          assert g[x - 1][y] == BorderPattern(size, x - 1, y);
          assert g[x + 1][y] == BorderPattern(size, x + 1, y);
        } else {
          assert g[x][y - 1] == BorderPattern(size, x, y - 1);
          assert g[x][y + 1] == BorderPattern(size, x, y + 1);
        }
      }
    }
  }

  /** A passage of the border pattern has a pillar on the border at each side of it. */
  lemma BorderPassageLinked(size: int, x: int, y: int)
    requires size % 2 == 1 && 0 <= x < size && 0 <= y < size
    requires BorderPattern(size, x, y) == O
    ensures x % 2 == 1 ==>
      0 < x && x + 1 < size && BorderPattern(size, x - 1, y) == X && BorderPattern(size, x + 1, y) == X
    ensures x % 2 == 0 ==>
      0 < y && y + 1 < size && BorderPattern(size, x, y - 1) == X && BorderPattern(size, x, y + 1) == X
  {
  }

  /** The only pillars left out of the initial frontier are the four corners, which cannot grow. */
  lemma InitialSettled(size: nat)
    requires size % 2 == 1
    ensures Settled(InitialGrid(size), InitialFrontier(size))
  {
    var g := InitialGrid(size);
    InitialFrontierPillars(size);
    forall x, y | 0 <= x < size && 0 <= y < size && g[x][y] == X && Coord(x, y) !in InitialFrontier(size)
      ensures Exhausted(g, Coord(x, y))
    {
      assert IsCorner(size, x, y);
      CornerExhausted(size, Coord(x, y));
    }
  }

  /**
   * Once no pillar can grow, every even/even position holds a pillar:
   * for each even y, along x the pillar at x = 0 forces one at x = 2, which
   * forces one at x = 4, and so on.
   */
  lemma {:induction false} PillarAt(g: Grid, size: nat, x: int, y: int)
    requires size % 2 == 1
    requires IsSquare(g, size) && Placed(g) && Linked(g) && Grows(InitialGrid(size), g) && Settled(g, {})
    requires 0 <= x < size && 0 <= y < size && IsPillarPos(x, y)
    ensures g[x][y] == X
    decreases x
  {
    if x == 0 {
      EdgePillar(size, y);
    } else {
      PillarAt(g, size, x - 2, y);
      NextPillar(g, x - 2, y);
    }
  }

  /** The cells (0, y) with y even are pillars of the initial odd-sized grid. */
  lemma EdgePillar(size: nat, y: int)
    requires size % 2 == 1 && 0 <= y < size && y % 2 == 0
    ensures InitialGrid(size)[0][y] == X
  {
    assert LastWriteBefore(size, size, 0, y) == y;
  }

  /** An exhausted pillar with room for another pillar two steps east has one there. */
  lemma NextPillar(g: Grid, x: int, y: int)
    requires Placed(g) && Linked(g)
    requires 0 <= x && x + 2 < |g| && 0 <= y < |g[x]| && 0 <= y < |g[x + 1]| && 0 <= y < |g[x + 2]|
    requires g[x][y] == X && Exhausted(g, Coord(x, y))
    ensures g[x + 2][y] == X
  {
    var c := Coord(x, y);
    assert OneStep(c, E) == Coord(x + 1, y) && TwoSteps(c, E) == Coord(x + 2, y);
    assert IsPillarPos(x, y) && !IsPillarPos(x + 1, y) && !IsLinkPos(x + 2, y);
    if g[x + 1][y] == O {
      assert LinkedAt(g, x + 1, y);
    } else {
      assert g[x + 1][y] == B && g[x + 2][y] != O;
      assert !CanExtend(g, c, E);
    }
  }

  /** At termination the pillars are exactly the even/even positions. */
  lemma AllPillarsBuilt(g: Grid, size: nat)
    requires size % 2 == 1
    requires Invariant(g, {}, size)
    ensures forall x, y :: 0 <= x < |g| && 0 <= y < |g[x]| ==> (g[x][y] == X <==> IsPillarPos(x, y))
  {
    forall x, y | 0 <= x < |g| && 0 <= y < |g[x]| && IsPillarPos(x, y)
      ensures g[x][y] == X
    {
      PillarAt(g, size, x, y);
    }
  }

  /** The direction pointing back. */
  function Opposite(d: Direction): Direction
  {
    match d
    case N => S
    case S => N
    case E => W
    case W => E
  }

  /** Going two steps back from the new pillar leads to the start, over the same passage. */
  lemma BackStep(c: Coord, d: Direction)
    ensures TwoSteps(TwoSteps(c, d), Opposite(d)) == c
    ensures OneStep(TwoSteps(c, d), Opposite(d)) == OneStep(c, d)
  {
  }

  /** Pillars a and b lie two cells apart on one line with a passage halfway between them. */
  predicate Joined(g: Grid, a: Coord, b: Coord)
  {
    && ((a.x == b.x && (b.y == a.y + 2 || b.y == a.y - 2)) || (a.y == b.y && (b.x == a.x + 2 || b.x == a.x - 2)))
    && Lookup(g, a.x, a.y) == Some(X)
    && Lookup(g, (a.x + b.x) / 2, (a.y + b.y) / 2) == Some(O)
    && Lookup(g, b.x, b.y) == Some(X)
  }

  /** A walk through the maze from pillar to pillar, each step over a passage. */
  predicate IsWalk(g: Grid, path: seq<Coord>)
  {
    && |path| >= 1
    && Lookup(g, path[0].x, path[0].y) == Some(X)
    && forall i :: 0 <= i < |path| - 1 ==> Joined(g, path[i], path[i + 1])
  }

  /** Some walk leads from c to a pillar of the border. */
  ghost predicate ReachesBorder(g: Grid, size: int, c: Coord)
  {
    exists path: seq<Coord> :: IsWalk(g, path) && path[0] == c && OnBorder(size, path[|path| - 1].x, path[|path| - 1].y)
  }

  /**
   * The certificate that the pillar at (x, y), if there is one, reaches the
   * border: its depth is 0 only on the border, and a pillar of depth k > 0
   * is joined, in the direction via gives it, to a pillar of depth k - 1.
   */
  ghost predicate RootedAt(g: Grid, size: int, depth: map<Coord, nat>, via: map<Coord, Direction>, x: int, y: int)
    requires 0 <= x < |g| && 0 <= y < |g[x]|
  {
    var c := Coord(x, y);
    g[x][y] == X ==>
      && c in depth
      && (depth[c] == 0 ==> OnBorder(size, x, y))
      && (depth[c] > 0 ==>
            && c in via
            && TwoSteps(c, via[c]) in depth
            && depth[TwoSteps(c, via[c])] == depth[c] - 1
            && Lookup(g, OneStep(c, via[c]).x, OneStep(c, via[c]).y) == Some(O)
            && Lookup(g, TwoSteps(c, via[c]).x, TwoSteps(c, via[c]).y) == Some(X))
  }

  /** Every pillar carries the certificate. */
  ghost predicate Rooted(g: Grid, size: int, depth: map<Coord, nat>, via: map<Coord, Direction>)
  {
    forall x, y :: 0 <= x < |g| && 0 <= y < |g[x]| ==> RootedAt(g, size, depth, via, x, y)
  }

  /** Every pillar of a rooted grid has a depth. */
  lemma RootedHas(g: Grid, size: int, depth: map<Coord, nat>, via: map<Coord, Direction>, c: Coord)
    requires Rooted(g, size, depth, via)
    requires InBounds(g, c) && g[c.x][c.y] == X
    ensures c in depth
  {
    assert RootedAt(g, size, depth, via, c.x, c.y);
  }

  /** Following the certificate from a pillar down to depth 0 is a walk to the border. */
  lemma {:induction false} WalkToBorder(g: Grid, size: int, depth: map<Coord, nat>, via: map<Coord, Direction>, c: Coord)
      returns (path: seq<Coord>)
    requires Rooted(g, size, depth, via)
    requires InBounds(g, c) && g[c.x][c.y] == X && c in depth
    ensures IsWalk(g, path) && path[0] == c && OnBorder(size, path[|path| - 1].x, path[|path| - 1].y)
    decreases depth[c]
  {
    assert RootedAt(g, size, depth, via, c.x, c.y);
    if depth[c] == 0 {
      path := [c];
    } else {
      var d := via[c];
      var p := TwoSteps(c, d);
      var rest := WalkToBorder(g, size, depth, via, p);
      path := [c] + rest;
      assert Joined(g, c, p);
      forall i | 0 <= i < |path| - 1
        ensures Joined(g, path[i], path[i + 1])
      {
        if i > 0 {
          assert path[i] == rest[i - 1] && path[i + 1] == rest[i];
        }
      }
    }
  }

  /** The cells of the border. */
  ghost function BorderSet(size: int): set<Coord>
  {
    set x, y | 0 <= x < size && 0 <= y < size && OnBorder(size, x, y) :: Coord(x, y)
  }

  /** Every cell of the border at depth 0. */
  ghost function BorderDepths(size: int): map<Coord, nat>
  {
    map c | c in BorderSet(size) :: 0
  }

  /** In the constructed grid every pillar lies on the border. */
  lemma RootedInitial(size: nat)
    requires size % 2 == 1
    ensures Rooted(InitialGrid(size), size, BorderDepths(size), map[])
  {
    var g := InitialGrid(size);
    InitialGridPattern(size);
    forall x, y | 0 <= x < size && 0 <= y < size
      ensures RootedAt(g, size, BorderDepths(size), map[], x, y)
    {
      if g[x][y] == X {
        assert g[x][y] == BorderPattern(size, x, y);
        assert Coord(x, y) in BorderSet(size);
      }
    }
  }

  /** An old pillar keeps its certificate when a blank elsewhere becomes a new pillar. */
  lemma RootedStays(g: Grid, h: Grid, size: int, depth: map<Coord, nat>, via: map<Coord, Direction>,
                    t: Coord, k: nat, e: Direction, x: int, y: int)
    requires Grows(g, h) && 0 <= x < |g| && 0 <= y < |g[x]|
    requires g[x][y] == X && RootedAt(g, size, depth, via, x, y)
    requires Lookup(g, t.x, t.y) == Some(B)
    ensures RootedAt(h, size, depth[t := k], via[t := e], x, y)
  {
    var c := Coord(x, y);
    if depth[c] > 0 {
      var o, p := OneStep(c, via[c]), TwoSteps(c, via[c]);
      PassageStays(g, h, o.x, o.y);
      PillarStays(g, h, p.x, p.y);
    }
  }

  /** The new pillar gets the depth of the start plus one, pointing back over the new passage. */
  lemma RootedExtend(g: Grid, size: int, depth: map<Coord, nat>, via: map<Coord, Direction>, start: Coord, d: Direction)
    requires Rooted(g, size, depth, via)
    requires InBounds(g, start) && g[start.x][start.y] == X && start in depth
    requires CanExtend(g, start, d)
    ensures var t := TwoSteps(start, d);
      Rooted(Extend(g, start, d), size, depth[t := depth[start] + 1], via[t := Opposite(d)])
  {
    var h, o, t := Extend(g, start, d), OneStep(start, d), TwoSteps(start, d);
    var depth', via' := depth[t := depth[start] + 1], via[t := Opposite(d)];
    ExtendGrows(g, start, d);
    BackStep(start, d);
    PillarStays(g, h, start.x, start.y);
    forall x, y | 0 <= x < |h| && 0 <= y < |h[x]|
      ensures RootedAt(h, size, depth', via', x, y)
    {
      if h[x][y] == X && Coord(x, y) != t {
        assert Coord(x, y) != o;
        assert g[x][y] == X && RootedAt(g, size, depth, via, x, y);
        RootedStays(g, h, size, depth, via, t, depth[start] + 1, Opposite(d), x, y);
      }
    }
  }

  /** The certificate after one try: extended by the new pillar on success, unchanged otherwise. */
  ghost function MarkDepths(g: Grid, start: Coord, order: seq<Direction>, depth: map<Coord, nat>, via: map<Coord, Direction>)
    : (map<Coord, nat>, map<Coord, Direction>)
    requires start in depth
  {
    match FirstOpen(g, start, order, 0)
    case None => (depth, via)
    case Some(k) =>
      var t := TwoSteps(start, order[k]);
      (depth[t := depth[start] + 1], via[t := Opposite(order[k])])
  }

  /** One try keeps every pillar joined to the border. */
  lemma MarkRooted(g: Grid, size: int, depth: map<Coord, nat>, via: map<Coord, Direction>, start: Coord, order: seq<Direction>)
    requires Rooted(g, size, depth, via)
    requires InBounds(g, start) && g[start.x][start.y] == X && start in depth
    ensures var next := MarkDepths(g, start, order, depth, via);
      Rooted(Mark(g, start, order).grid, size, next.0, next.1)
  {
    match FirstOpen(g, start, order, 0)
    case None =>
    case Some(k) =>
      RootedExtend(g, size, depth, via, start, order[k]);
  }

  /**
   * What a finished maze for parameter n looks like: a (2n-1) x (2n-1) grid
   * that keeps the carved border, with pillars only at even/even positions
   * and passages only between two pillars, no pillar able to grow any
   * more, a pillar at every even/even position, and every pillar joined
   * by a walk over passages to the border.
   */
  ghost predicate IsGeneratedMaze(g: Grid, n: int)
  {
    && n >= 1
    && IsSquare(g, 2 * n - 1)
    && Grows(InitialGrid(2 * n - 1), g)
    && Placed(g)
    && Linked(g)
    && (forall x, y :: 0 <= x < |g| && 0 <= y < |g[x]| && g[x][y] == X ==> Exhausted(g, Coord(x, y)))
    && (forall x, y :: 0 <= x < |g| && 0 <= y < |g[x]| ==> (g[x][y] == X <==> IsPillarPos(x, y)))
    && (forall x, y :: 0 <= x < |g| && 0 <= y < |g[x]| && g[x][y] == X ==> ReachesBorder(g, 2 * n - 1, Coord(x, y)))
  }

  /**
   * One pass of the generation loop keeps the invariant: a success adds the
   * new pillar to the frontier and uses up blanks, a failure leaves the grid
   * alone and the start may leave the frontier.
   */
  lemma MarkKeeps(g: Grid, frontier: set<Coord>, size: nat, start: Coord, order: seq<Direction>)
    requires Invariant(g, frontier, size)
    requires start in frontier && IsPermutation(order)
    ensures var m := Mark(g, start, order);
      m.newX.Some? ==> Invariant(m.grid, frontier + {m.newX.value}, size) && Blanks(m.grid) < Blanks(g)
    ensures var m := Mark(g, start, order);
      m.newX.None? ==> m.grid == g && Invariant(g, frontier - {start}, size)
  {
    NoneIffExhausted(g, start, order);
    match FirstOpen(g, start, order, 0)
    case None =>
      ExhaustedLeaves(g, frontier, size, start);
    case Some(k) =>
      ExtendKeeps(g, frontier, size, start, order[k]);
  }

  /** With the frontier empty, the grid is a finished maze. */
  lemma FinishedMaze(g: Grid, n: int, depth: map<Coord, nat>, via: map<Coord, Direction>)
    requires n >= 1 && Invariant(g, {}, 2 * n - 1) && Rooted(g, 2 * n - 1, depth, via)
    ensures IsGeneratedMaze(g, n)
  {
    AllPillarsBuilt(g, 2 * n - 1);
    forall x, y | 0 <= x < |g| && 0 <= y < |g[x]| && g[x][y] == X
      ensures ReachesBorder(g, 2 * n - 1, Coord(x, y))
    {
      RootedHas(g, 2 * n - 1, depth, via, Coord(x, y));
      var path := WalkToBorder(g, 2 * n - 1, depth, via, Coord(x, y));
    }
  }

  /**
   * `generateMaze(n:)`: build the maze, then repeatedly pick some frontier
   * member and try to grow from it, adding the new pillar on success and
   * dropping the member on failure, until the frontier is empty. Every pass
   * either turns two blanks into a passage and a pillar or shrinks the
   * frontier, so the loop ends.
   */
  method GenerateMaze(n: int) returns (grid: Grid)
    requires n >= 1
    ensures IsGeneratedMaze(grid, n)
    ensures OneComponent(grid)
  {
    var size := 2 * n - 1;
    var maze := new Maze(size);
    InitialInvariant(size);
    ghost var depth: map<Coord, nat>, via: map<Coord, Direction> := BorderDepths(size), map[];
    RootedInitial(size);
    while true
      invariant Invariant(maze.grid, maze.potentiallyValidX, size)
      invariant Rooted(maze.grid, size, depth, via)
      decreases Blanks(maze.grid), maze.potentiallyValidX
    {
      if maze.potentiallyValidX == {} {
        FinishedMaze(maze.grid, n, depth, via);
        GeneratedOneComponent(maze.grid, n);
        return maze.grid;
      }
      var x :| x in maze.potentiallyValidX;
      var order := ShuffledDirections();
      RootedHas(maze.grid, size, depth, via, x);
      ghost var next := MarkDepths(maze.grid, x, order, depth, via);
      MarkRooted(maze.grid, size, depth, via, x, order);
      MarkKeeps(maze.grid, maze.potentiallyValidX, size, x, order);
      var newX := TryMarkingRandomDirection(maze, x, order);
      if newX.Some? {
        maze.potentiallyValidX := maze.potentiallyValidX + {newX.value};
      } else {
        maze.potentiallyValidX := maze.potentiallyValidX - {x};
      }
      depth, via := next.0, next.1;
    }
  }

  /** Generation never touches the carved border: it still alternates pillar and passage. */
  lemma GeneratedBorder(g: Grid, n: int)
    requires IsGeneratedMaze(g, n)
    ensures forall x, y :: 0 <= x < |g| && 0 <= y < |g[x]| && OnBorder(2 * n - 1, x, y) ==>
      g[x][y] == BorderPattern(2 * n - 1, x, y)
  {
    InitialGridPattern(2 * n - 1);
  }

  /** The border of g, a square of the given size, holds the carved pattern. */
  ghost predicate BorderCarved(g: Grid, size: int)
  {
    && IsSquare(g, size)
    && forall x, y :: 0 <= x < size && 0 <= y < size && OnBorder(size, x, y) ==> g[x][y] == BorderPattern(size, x, y)
  }

  /** The last cell of a walk is a pillar. */
  lemma WalkEndsOnPillar(g: Grid, path: seq<Coord>)
    requires IsWalk(g, path)
    ensures Lookup(g, path[|path| - 1].x, path[|path| - 1].y) == Some(X)
  {
    if |path| > 1 {
      assert Joined(g, path[|path| - 2], path[|path| - 1]);
    }
  }

  /** A walk from a to b followed by a walk from b to c is a walk from a to c. */
  lemma WalkConcat(g: Grid, p: seq<Coord>, q: seq<Coord>)
    requires IsWalk(g, p) && IsWalk(g, q) && p[|p| - 1] == q[0]
    ensures IsWalk(g, p + q[1..])
    ensures (p + q[1..])[0] == p[0] && (p + q[1..])[|p + q[1..]| - 1] == q[|q| - 1]
  {
    var r := p + q[1..];
    forall i | 0 <= i < |r| - 1
      ensures Joined(g, r[i], r[i + 1])
    {
      if i < |p| - 1 {
        assert r[i] == p[i] && r[i + 1] == p[i + 1];
      } else {
        assert r[i] == q[i - |p| + 1] && r[i + 1] == q[i - |p| + 2];
      }
    }
  }

  /** The walk read backwards. */
  ghost function Backwards(path: seq<Coord>): (r: seq<Coord>)
    ensures |r| == |path| && forall i :: 0 <= i < |path| ==> r[i] == path[|path| - 1 - i]
  {
    if path == [] then [] else Backwards(path[1..]) + [path[0]]
  }

  /** A walk read backwards is a walk from its end back to its start. */
  lemma WalkBackwards(g: Grid, path: seq<Coord>)
    requires IsWalk(g, path)
    ensures IsWalk(g, Backwards(path))
    ensures Backwards(path)[0] == path[|path| - 1] && Backwards(path)[|path| - 1] == path[0]
  {
    var r := Backwards(path);
    WalkEndsOnPillar(g, path);
    forall i | 0 <= i < |r| - 1
      ensures Joined(g, r[i], r[i + 1])
    {
      var j := |path| - 2 - i;
      assert r[i] == path[j + 1] && r[i + 1] == path[j];
      assert Joined(g, path[j], path[j + 1]);
    }
  }

  /**
   * Along a vertical edge of the carved border (x = 0 or x = size-1) the
   * pillar at an even y walks down the edge to the corner at y = 0.
   */
  lemma {:induction false} EdgeWalkY(g: Grid, size: int, x: int, y: int) returns (path: seq<Coord>)
    requires size % 2 == 1 && BorderCarved(g, size)
    requires IsEdge(size, x) && 0 <= x < size && 0 <= y < size && y % 2 == 0
    ensures IsWalk(g, path) && path[0] == Coord(x, y) && path[|path| - 1] == Coord(x, 0)
    decreases y
  {
    assert g[x][y] == BorderPattern(size, x, y);
    if y == 0 {
      path := [Coord(x, 0)];
    } else {
      var rest := EdgeWalkY(g, size, x, y - 2);
      assert g[x][y - 1] == BorderPattern(size, x, y - 1);
      assert g[x][y - 2] == BorderPattern(size, x, y - 2);
      assert Joined(g, Coord(x, y), Coord(x, y - 2));
      WalkConcat(g, [Coord(x, y), Coord(x, y - 2)], rest);
      path := [Coord(x, y), Coord(x, y - 2)] + rest[1..];
    }
  }

  /**
   * Along a horizontal edge of the carved border (y = 0 or y = size-1) the
   * pillar at an even x walks along the edge to the corner at x = 0.
   */
  lemma {:induction false} EdgeWalkX(g: Grid, size: int, x: int, y: int) returns (path: seq<Coord>)
    requires size % 2 == 1 && BorderCarved(g, size)
    requires IsEdge(size, y) && 0 <= x < size && 0 <= y < size && x % 2 == 0
    ensures IsWalk(g, path) && path[0] == Coord(x, y) && path[|path| - 1] == Coord(0, y)
    decreases x
  {
    assert g[x][y] == BorderPattern(size, x, y);
    if x == 0 {
      path := [Coord(0, y)];
    } else {
      var rest := EdgeWalkX(g, size, x - 2, y);
      assert g[x - 1][y] == BorderPattern(size, x - 1, y);
      assert g[x - 2][y] == BorderPattern(size, x - 2, y);
      assert Joined(g, Coord(x, y), Coord(x - 2, y));
      WalkConcat(g, [Coord(x, y), Coord(x - 2, y)], rest);
      path := [Coord(x, y), Coord(x - 2, y)] + rest[1..];
    }
  }

  /** Every pillar of the carved border walks around the ring to the corner (0, 0). */
  lemma BorderToCorner(g: Grid, size: int, c: Coord) returns (path: seq<Coord>)
    requires size % 2 == 1 && BorderCarved(g, size)
    requires 0 <= c.x < size && 0 <= c.y < size && OnBorder(size, c.x, c.y) && g[c.x][c.y] == X
    ensures IsWalk(g, path) && path[0] == c && path[|path| - 1] == Coord(0, 0)
  {
    assert g[c.x][c.y] == BorderPattern(size, c.x, c.y);
    if c.x == 0 {
      path := EdgeWalkY(g, size, 0, c.y);
    } else if c.y == 0 {
      path := EdgeWalkX(g, size, c.x, 0);
    } else if c.x == size - 1 {
      var p := EdgeWalkY(g, size, c.x, c.y);
      var q := EdgeWalkX(g, size, c.x, 0);
      WalkConcat(g, p, q);
      path := p + q[1..];
    } else {
      var p := EdgeWalkX(g, size, c.x, c.y);
      var q := EdgeWalkY(g, size, 0, c.y);
      WalkConcat(g, p, q);
      path := p + q[1..];
    }
  }

  /** A pillar that reaches the carved border walks on, around the ring, to the corner (0, 0). */
  lemma BorderWalkToCorner(g: Grid, size: int, c: Coord) returns (path: seq<Coord>)
    requires size % 2 == 1 && BorderCarved(g, size) && ReachesBorder(g, size, c)
    ensures IsWalk(g, path) && path[0] == c && path[|path| - 1] == Coord(0, 0)
  {
    var p: seq<Coord> :| IsWalk(g, p) && p[0] == c && OnBorder(size, p[|p| - 1].x, p[|p| - 1].y);
    WalkEndsOnPillar(g, p);
    var q := BorderToCorner(g, size, p[|p| - 1]);
    WalkConcat(g, p, q);
    path := p + q[1..];
  }

  /** A finished maze keeps the carved border. */
  lemma GeneratedCarved(g: Grid, n: int)
    requires IsGeneratedMaze(g, n)
    ensures (2 * n - 1) % 2 == 1 && BorderCarved(g, 2 * n - 1)
  {
    GeneratedBorder(g, n);
  }

  /** Each pillar of a finished maze reaches the border. */
  lemma GeneratedReaches(g: Grid, n: int, c: Coord)
    requires IsGeneratedMaze(g, n)
    requires InBounds(g, c) && g[c.x][c.y] == X
    ensures ReachesBorder(g, 2 * n - 1, c)
  {
    assert g[c.x][c.y] == X && c == Coord(c.x, c.y);
  }

  /** In a finished maze every pillar walks to the corner pillar (0, 0). */
  lemma ReachesCorner(g: Grid, n: int, c: Coord) returns (path: seq<Coord>)
    requires IsGeneratedMaze(g, n)
    requires InBounds(g, c) && g[c.x][c.y] == X
    ensures IsWalk(g, path) && path[0] == c && path[|path| - 1] == Coord(0, 0)
  {
    GeneratedCarved(g, n);
    GeneratedReaches(g, n, c);
    path := BorderWalkToCorner(g, 2 * n - 1, c);
  }

  /** Some walk leads from pillar a to pillar b. */
  ghost predicate Connects(g: Grid, a: Coord, b: Coord)
  {
    exists path: seq<Coord> :: IsWalk(g, path) && path[0] == a && path[|path| - 1] == b
  }

  /** In a finished maze any two pillars are joined by a walk: the pillars form one component. */
  lemma GeneratedConnected(g: Grid, n: int, a: Coord, b: Coord) returns (path: seq<Coord>)
    requires IsGeneratedMaze(g, n)
    requires InBounds(g, a) && g[a.x][a.y] == X && InBounds(g, b) && g[b.x][b.y] == X
    ensures IsWalk(g, path) && path[0] == a && path[|path| - 1] == b
  {
    var p := ReachesCorner(g, n, a);
    var q := ReachesCorner(g, n, b);
    WalkBackwards(g, q);
    WalkConcat(g, p, Backwards(q));
    path := p + Backwards(q)[1..];
  }

  /** The pillars of g form a single connected component. */
  ghost predicate OneComponent(g: Grid)
  {
    forall a: Coord, b: Coord :: InBounds(g, a) && g[a.x][a.y] == X && InBounds(g, b) && g[b.x][b.y] == X ==> Connects(g, a, b)
  }

  /** A finished maze is one component. */
  lemma GeneratedOneComponent(g: Grid, n: int)
    requires IsGeneratedMaze(g, n)
    ensures OneComponent(g)
  {
    forall a: Coord, b: Coord | InBounds(g, a) && g[a.x][a.y] == X && InBounds(g, b) && g[b.x][b.y] == X
      ensures Connects(g, a, b)
    {
      var path := GeneratedConnected(g, n, a, b);
    }
  }

  /** For n = 1 the maze is the single pillar. */
  lemma SinglePillarMaze(g: Grid)
    requires IsGeneratedMaze(g, 1)
    ensures g == [[X]]
  {
    assert g[0][0] == X;
    assert g[0] == [X];
  }

  /** For n = 2 the frontier starts empty and the maze is the bare carved 3 x 3 ring. */
  lemma RingMaze(g: Grid)
    requires IsGeneratedMaze(g, 2)
    ensures InitialFrontier(3) == {}
    ensures g == InitialGrid(3)
  {
    InitialFrontierSize(2);
    InitialGridPattern(3);
    forall x, y | 0 <= x < 3 && 0 <= y < 3
      ensures g[x][y] == InitialGrid(3)[x][y]
    {
      if !OnBorder(3, x, y) {
        assert x == 1 && y == 1;
        assert g[x][y] != X && g[x][y] != O;
      }
    }
    SameCells(g, InitialGrid(3), 3);
  }
}
