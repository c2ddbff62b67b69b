/**
 * Value view of the board: a column-major grid of optional tiles, read
 * through `At` exactly as GridManager.GetGemAt reads its Gem[,] array.
 */
module Grids {
  import opened Tiles

  /** g[x][y] is the cell in column x, row y (row 0 is the bottom row). */
  type Grid = seq<seq<Option<Tile>>>

  /** The number of tile types in play (activeGemPrefabs.Count). */
  const ActiveTypes: int := 6

  predicate IsRect(g: Grid, w: int, h: int)
  {
    |g| == w && forall x :: 0 <= x < w ==> |g[x]| == h
  }

  predicate InBounds(g: Grid, p: Pos)
  {
    0 <= p.x < |g| && 0 <= p.y < |g[p.x]|
  }

  /** GetGemAt as a value: out-of-range coordinates read as an empty cell. */
  function At(g: Grid, p: Pos): Option<Tile>
  {
    if InBounds(g, p) then g[p.x][p.y] else None
  }

  predicate Occupied(g: Grid, p: Pos)
  {
    At(g, p).Some?
  }

  /** An occupied cell holding an ordinary (non-special) tile. */
  predicate IsOrdinaryAt(g: Grid, p: Pos)
  {
    At(g, p).Some? && At(g, p).value.IsOrdinary()
  }

  predicate IsSpecialAt(g: Grid, p: Pos)
  {
    At(g, p).Some? && !At(g, p).value.IsOrdinary()
  }

  /** The cell holds an ordinary tile of type t: what the flood fill may enter. */
  predicate Matchable(g: Grid, p: Pos, t: int)
  {
    IsOrdinaryAt(g, p) && At(g, p).value.typeIndex == t
  }

  /** Every occupied cell's tile reports that cell's coordinate. */
  predicate Coherent(g: Grid)
  {
    forall x, y :: 0 <= x < |g| && 0 <= y < |g[x]| && g[x][y].Some? ==>
      g[x][y].value.x == x && g[x][y].value.y == y
  }

  /** Every tile's type is an index into the active type list. */
  predicate TypesInRange(g: Grid)
  {
    forall x, y :: 0 <= x < |g| && 0 <= y < |g[x]| && g[x][y].Some? ==>
      0 <= g[x][y].value.typeIndex < ActiveTypes
  }

  /** Every cell of the grid is occupied. */
  predicate IsFull(g: Grid)
  {
    forall x, y :: 0 <= x < |g| && 0 <= y < |g[x]| ==> g[x][y].Some?
  }

  /** The coordinates of all cells of the grid. */
  function CellsOf(g: Grid): set<Pos>
  {
    set x, y | 0 <= x < |g| && 0 <= y < |g[x]| :: Pos(x, y)
  }

  lemma CellsOfMember(g: Grid, p: Pos)
    ensures p in CellsOf(g) <==> InBounds(g, p)
  {
    if InBounds(g, p) {
      assert Pos(p.x, p.y) == p;
    }
  }

  /** The grid with one cell replaced. */
  function Put(g: Grid, p: Pos, c: Option<Tile>): (r: Grid)
    requires InBounds(g, p)
    ensures |r| == |g| && forall x :: 0 <= x < |g| ==> |r[x]| == |g[x]|
    ensures forall q :: InBounds(g, q) ==> At(r, q) == if q == p then c else At(g, q)
  {
    g[p.x := g[p.x][p.y := c]]
  }

  /** The four neighbour offsets in the order FindConnectedGroup tries them. */
  function Step(p: Pos, d: int): Pos
  {
    if d == 0 then Pos(p.x, p.y + 1)
    else if d == 1 then Pos(p.x, p.y - 1)
    else if d == 2 then Pos(p.x + 1, p.y)
    else Pos(p.x - 1, p.y)
  }

  /** The direction that undoes d. */
  function Back(d: int): int
  {
    if d == 0 then 1 else if d == 1 then 0 else if d == 2 then 3 else 2
  }

  predicate Adjacent(p: Pos, q: Pos)
  {
    (p.x == q.x && (p.y - q.y == 1 || q.y - p.y == 1)) ||
    (p.y == q.y && (p.x - q.x == 1 || q.x - p.x == 1))
  }

  /** The value of a board array. */
  ghost function Snap(a: array2<Option<Tile>>): (g: Grid)
    reads a
    ensures IsRect(g, a.Length0, a.Length1)
    ensures forall x, y :: 0 <= x < a.Length0 && 0 <= y < a.Length1 ==> g[x][y] == a[x, y]
  {
    seq(a.Length0, x requires 0 <= x < a.Length0 reads a =>
      seq(a.Length1, y requires 0 <= y < a.Length1 reads a => a[x, y]))
  }

  /**
   * GetGemAt on the board array: the tile at (x, y), or no tile when the
   * coordinate is outside the board.
   */
  function CellAt(a: array2<Option<Tile>>, x: int, y: int): (c: Option<Tile>)
    reads a
    ensures c == At(Snap(a), Pos(x, y))
  {
    if 0 <= x < a.Length0 && 0 <= y < a.Length1 then a[x, y] else None
  }

  /** Two grids of the same shape that agree on every cell are equal. */
  lemma GridExt(g: Grid, r: Grid, w: int, h: int)
    requires IsRect(g, w, h) && IsRect(r, w, h)
    requires forall x, y :: 0 <= x < w && 0 <= y < h ==> g[x][y] == r[x][y]
    ensures g == r
  {
    forall x | 0 <= x < w
      ensures g[x] == r[x]
    {
      assert |g[x]| == |r[x]| == h;
    }
  }

  predicate SameShape(g: Grid, r: Grid)
  {
    |g| == |r| && forall x :: 0 <= x < |g| ==> |g[x]| == |r[x]|
  }

  /** Two grids of the same shape that read the same at every cell are equal. */
  lemma GridEqAt(g: Grid, r: Grid)
    requires SameShape(g, r)
    requires forall q :: InBounds(g, q) ==> At(g, q) == At(r, q)
    ensures g == r
  {
    forall x | 0 <= x < |g|
      ensures g[x] == r[x]
    {
      forall y | 0 <= y < |g[x]|
        ensures g[x][y] == r[x][y]
      {
        assert At(g, Pos(x, y)) == At(r, Pos(x, y));
      }
    }
  }

  /**
   * Two grids with the same shape whose cells agree on occupancy, type and
   * special kind: they differ at most in the coordinates the tiles report.
   */
  ghost predicate SameKinds(g: Grid, r: Grid)
  {
    && SameShape(g, r)
    && (forall q :: At(g, q).Some? <==> At(r, q).Some?)
    && (forall q :: At(g, q).Some? ==>
          At(g, q).value.typeIndex == At(r, q).value.typeIndex &&
          At(g, q).value.special == At(r, q).value.special)
  }

  lemma StepBack(p: Pos, d: int)
    requires 0 <= d < 4
    ensures Step(Step(p, d), Back(d)) == p
    ensures 0 <= Back(d) < 4
    ensures Adjacent(p, Step(p, d))
  {
  }

  /** Every neighbour is reached by one of the four offsets. */
  function DirTo(p: Pos, q: Pos): (d: int)
    requires Adjacent(p, q)
    ensures 0 <= d < 4 && Step(p, d) == q
  {
    if q.y == p.y + 1 && q.x == p.x then 0
    else if q.y == p.y - 1 && q.x == p.x then 1
    else if q.x == p.x + 1 then 2
    else 3
  }
}
