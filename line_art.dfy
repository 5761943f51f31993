/**
 * The character that `printMazeLines` draws for each cell, as a pure
 * function of the grid (MazeMaker/main.swift). The printing is not modelled.
 */
module LineArt {
  import opened Cells
  import opened MazeGrid
  import opened Growth

  /**
   * A blank cell is drawn as a space. Otherwise the four neighbours are
   * looked up with the bounds-checked subscript: `-` when only the N and S
   * neighbours are occupied, `|` when only the E and W ones are, `+` in
   * every other case.
   */
  function CellChar(g: Grid, x: int, y: int): (c: char)
    requires 0 <= x < |g| && 0 <= y < |g[x]|
    ensures c == ' ' <==> g[x][y] == B
    ensures c == ' ' || c == '-' || c == '|' || c == '+'
  {
    if g[x][y] == B then ' '
    else
      var n := Lookup(g, x + Vector(N).0, y + Vector(N).1);
      var s := Lookup(g, x + Vector(S).0, y + Vector(S).1);
      var e := Lookup(g, x + Vector(E).0, y + Vector(E).1);
      var w := Lookup(g, x + Vector(W).0, y + Vector(W).1);
      if Occupied(n) && Occupied(s) && !Occupied(e) && !Occupied(w) then '-'
      else if !Occupied(n) && !Occupied(s) && Occupied(e) && Occupied(w) then '|'
      else '+'
  }

  /**
   * The character choice in terms of the four neighbours at y - 1 (N),
   * y + 1 (S), x + 1 (E) and x - 1 (W), where a neighbour outside the grid
   * counts as unoccupied: `-` exactly when only N and S are occupied, `|`
   * exactly when only E and W are, `+` otherwise.
   */
  lemma CellCharByNeighbours(g: Grid, x: int, y: int)
    requires 0 <= x < |g| && 0 <= y < |g[x]| && g[x][y] != B
    ensures var n, s, e, w :=
        Occupied(Lookup(g, x, y - 1)), Occupied(Lookup(g, x, y + 1)),
        Occupied(Lookup(g, x + 1, y)), Occupied(Lookup(g, x - 1, y));
      && (CellChar(g, x, y) == '-' <==> n && s && !e && !w)
      && (CellChar(g, x, y) == '|' <==> !n && !s && e && w)
      && (CellChar(g, x, y) == '+' <==> !(n && s && !e && !w) && !(!n && !s && e && w))
  {
  }

  /** The rows of characters that `printMazeLines` prints, one per outer index x. */
  function Render(g: Grid): (lines: seq<seq<char>>)
    ensures |lines| == |g| && forall x :: 0 <= x < |g| ==> |lines[x]| == |g[x]|
    ensures forall x, y :: 0 <= x < |g| && 0 <= y < |g[x]| ==> lines[x][y] == CellChar(g, x, y)
  {
    seq(|g|, x requires 0 <= x < |g| => seq(|g[x]|, y requires 0 <= y < |g[x]| => CellChar(g, x, y)))
  }

  /** The grid mirrored along its diagonal. */
  function Transpose(g: Grid): (t: Grid)
    requires IsSquare(g, |g|)
    ensures IsSquare(t, |g|)
    ensures forall x, y :: 0 <= x < |g| && 0 <= y < |g| ==> t[y][x] == g[x][y]
  {
    seq(|g|, y requires 0 <= y < |g| => seq(|g|, x requires 0 <= x < |g| => g[x][y]))
  }

  function Mirrored(c: char): char
  {
    if c == '-' then '|' else if c == '|' then '-' else c
  }

  /**
   * The two straight-line characters are mirror images: mirroring the grid
   * along its diagonal swaps the N/S neighbours with the W/E ones, and so
   * swaps `-` with `|` and keeps ` ` and `+`.
   */
  lemma MirrorSwapsLines(g: Grid, x: int, y: int)
    requires IsSquare(g, |g|)
    requires 0 <= x < |g| && 0 <= y < |g|
    ensures CellChar(Transpose(g), y, x) == Mirrored(CellChar(g, x, y))
  {
    TransposedLookup(g, x - 1, y);
    TransposedLookup(g, x + 1, y);
    TransposedLookup(g, x, y + 1);
    TransposedLookup(g, x, y - 1);
  }

  /** The drawing of the mirrored grid is the mirrored drawing, with `-` and `|` swapped. */
  lemma RenderMirrored(g: Grid)
    requires IsSquare(g, |g|)
    ensures forall x, y :: 0 <= x < |g| && 0 <= y < |g| ==>
      Render(Transpose(g))[y][x] == Mirrored(Render(g)[x][y])
  {
    forall x, y | 0 <= x < |g| && 0 <= y < |g|
      ensures Render(Transpose(g))[y][x] == Mirrored(Render(g)[x][y])
    {
      MirrorSwapsLines(g, x, y);
    }
  }

  /** The bounds-checked subscript sees the same cell, or the same absence, in the mirrored grid. */
  lemma TransposedLookup(g: Grid, x: int, y: int)
    requires IsSquare(g, |g|)
    ensures Lookup(Transpose(g), y, x) == Lookup(g, x, y)
  {
  }

  /**
   * In a grid whose pillars and passages sit where generation puts them, a
   * passage between two pillars that differ in x is drawn `|`, one between
   * two pillars that differ in y is drawn `-`, and the odd/odd floor cells
   * are drawn as spaces.
   */
  lemma PassageCharacters(g: Grid)
    requires Placed(g) && Linked(g)
    ensures forall x, y :: 0 <= x < |g| && 0 <= y < |g[x]| && g[x][y] == O && x % 2 == 1 ==> CellChar(g, x, y) == '|'
    ensures forall x, y :: 0 <= x < |g| && 0 <= y < |g[x]| && g[x][y] == O && x % 2 == 0 ==> CellChar(g, x, y) == '-'
    ensures forall x, y :: 0 <= x < |g| && 0 <= y < |g[x]| && x % 2 == 1 && y % 2 == 1 ==> CellChar(g, x, y) == ' '
  {
    forall x, y | 0 <= x < |g| && 0 <= y < |g[x]| && g[x][y] == O
      ensures CellChar(g, x, y) == if x % 2 == 1 then '|' else '-'
    {
      assert LinkedAt(g, x, y);
      if x % 2 == 1 {
        FloorUnoccupied(g, x, y - 1);
        FloorUnoccupied(g, x, y + 1);
      } else {
        FloorUnoccupied(g, x - 1, y);
        FloorUnoccupied(g, x + 1, y);
      }
    }
  }

  /** An odd/odd position holds neither pillar nor passage. */
  lemma FloorUnoccupied(g: Grid, x: int, y: int)
    requires Placed(g)
    requires x % 2 == 1 && y % 2 == 1
    ensures !Occupied(Lookup(g, x, y))
  {
  }
}
