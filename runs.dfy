/**
 * Straight runs of ordinary same-type tiles: what HintManager.CheckForLinearMatch
 * counts, and the two-in-a-row rule GridManager.GetRandomGemType rejects.
 */
module Runs {
  import opened Tiles
  import opened Grids

  /** Height of column x (0 outside the grid). */
  function ColumnHeight(g: Grid, x: int): nat
  {
    if 0 <= x < |g| then |g[x]| else 0
  }

  /** Matching cells x, x-1, x-2, ... of row y, up to the first cell that does not match. */
  function LeftRun(g: Grid, x: int, y: int, t: int): nat
    decreases x + 1
  {
    if x < 0 || !Matchable(g, Pos(x, y), t) then 0 else 1 + LeftRun(g, x - 1, y, t)
  }

  /** Matching cells x, x+1, x+2, ... of row y, up to the first cell that does not match. */
  function RightRun(g: Grid, x: int, y: int, t: int): nat
    decreases |g| - x
  {
    if x >= |g| || !Matchable(g, Pos(x, y), t) then 0 else 1 + RightRun(g, x + 1, y, t)
  }

  /** Matching cells y, y-1, ... of column x. */
  function DownRun(g: Grid, x: int, y: int, t: int): nat
    decreases y + 1
  {
    if y < 0 || !Matchable(g, Pos(x, y), t) then 0 else 1 + DownRun(g, x, y - 1, t)
  }

  /** Matching cells y, y+1, ... of column x. */
  function UpRun(g: Grid, x: int, y: int, t: int): nat
    decreases ColumnHeight(g, x) - y
  {
    if y >= ColumnHeight(g, x) || !Matchable(g, Pos(x, y), t) then 0 else 1 + UpRun(g, x, y + 1, t)
  }

  /** The horizontal run through p counting p itself, for type t. */
  function HorizontalCount(g: Grid, p: Pos, t: int): nat
  {
    1 + LeftRun(g, p.x - 1, p.y, t) + RightRun(g, p.x + 1, p.y, t)
  }

  function VerticalCount(g: Grid, p: Pos, t: int): nat
  {
    1 + DownRun(g, p.x, p.y - 1, t) + UpRun(g, p.x, p.y + 1, t)
  }

  /** A straight run of three or more cells of type t passes through p, counting p itself. */
  predicate RunThrough(g: Grid, p: Pos, t: int)
  {
    HorizontalCount(g, p, t) >= 3 || VerticalCount(g, p, t) >= 3
  }

  /** The tile at p lies on a straight run of three or more of its own type. */
  predicate LinearMatch(g: Grid, p: Pos)
  {
    Occupied(g, p) && RunThrough(g, p, At(g, p).value.typeIndex)
  }

  /** Cells lo, lo+1, lo+2 of p's row: each is p itself or an ordinary tile of type t. */
  predicate RowWindow(g: Grid, p: Pos, lo: int, t: int)
  {
    forall i :: lo <= i < lo + 3 && i != p.x ==> Matchable(g, Pos(i, p.y), t)
  }

  /** Cells lo, lo+1, lo+2 of p's column: each is p itself or an ordinary tile of type t. */
  predicate ColumnWindow(g: Grid, p: Pos, lo: int, t: int)
  {
    forall j :: lo <= j < lo + 3 && j != p.y ==> Matchable(g, Pos(p.x, j), t)
  }

  /**
   * Independent statement of a straight match: three consecutive cells in p's
   * row or column, one of them p, every other one an ordinary tile of p's type.
   */
  predicate LineOfThree(g: Grid, p: Pos)
  {
    Occupied(g, p) &&
    var t := At(g, p).value.typeIndex;
    RowWindow(g, p, p.x - 2, t) || RowWindow(g, p, p.x - 1, t) || RowWindow(g, p, p.x, t) ||
    ColumnWindow(g, p, p.y - 2, t) || ColumnWindow(g, p, p.y - 1, t) || ColumnWindow(g, p, p.y, t)
  }

  /** A left scan counts exactly the matching cells before the first non-matching one. */
  lemma {:induction false} LeftRunSpec(g: Grid, x: int, y: int, t: int)
    ensures forall i :: x - LeftRun(g, x, y, t) < i <= x ==> Matchable(g, Pos(i, y), t)
    ensures !Matchable(g, Pos(x - LeftRun(g, x, y, t), y), t)
    decreases x + 1
  {
    if x >= 0 && Matchable(g, Pos(x, y), t) {
      LeftRunSpec(g, x - 1, y, t);
    }
  }

  lemma {:induction false} RightRunSpec(g: Grid, x: int, y: int, t: int)
    ensures forall i :: x <= i < x + RightRun(g, x, y, t) ==> Matchable(g, Pos(i, y), t)
    ensures !Matchable(g, Pos(x + RightRun(g, x, y, t), y), t)
    decreases |g| - x
  {
    if x < |g| && Matchable(g, Pos(x, y), t) {
      RightRunSpec(g, x + 1, y, t);
    }
  }

  lemma {:induction false} DownRunSpec(g: Grid, x: int, y: int, t: int)
    ensures forall j :: y - DownRun(g, x, y, t) < j <= y ==> Matchable(g, Pos(x, j), t)
    ensures !Matchable(g, Pos(x, y - DownRun(g, x, y, t)), t)
    decreases y + 1
  {
    if y >= 0 && Matchable(g, Pos(x, y), t) {
      DownRunSpec(g, x, y - 1, t);
    }
  }

  lemma {:induction false} UpRunSpec(g: Grid, x: int, y: int, t: int)
    ensures forall j :: y <= j < y + UpRun(g, x, y, t) ==> Matchable(g, Pos(x, j), t)
    ensures !Matchable(g, Pos(x, y + UpRun(g, x, y, t)), t)
    decreases ColumnHeight(g, x) - y
  {
    if y < ColumnHeight(g, x) && Matchable(g, Pos(x, y), t) {
      UpRunSpec(g, x, y + 1, t);
    }
  }

  /** The horizontal count reaches three exactly when a row window of three through p matches. */
  lemma HorizontalCountWindow(g: Grid, p: Pos, t: int)
    ensures HorizontalCount(g, p, t) >= 3 <==>
      RowWindow(g, p, p.x - 2, t) || RowWindow(g, p, p.x - 1, t) || RowWindow(g, p, p.x, t)
  {
    var l, r := LeftRun(g, p.x - 1, p.y, t), RightRun(g, p.x + 1, p.y, t);
    LeftRunSpec(g, p.x - 1, p.y, t);
    RightRunSpec(g, p.x + 1, p.y, t);
    if RowWindow(g, p, p.x - 2, t) {
      assert Matchable(g, Pos(p.x - 1, p.y), t) && Matchable(g, Pos(p.x - 2, p.y), t);
    }
    if RowWindow(g, p, p.x - 1, t) {
      assert Matchable(g, Pos(p.x - 1, p.y), t) && Matchable(g, Pos(p.x + 1, p.y), t);
    }
    if RowWindow(g, p, p.x, t) {
      assert Matchable(g, Pos(p.x + 1, p.y), t) && Matchable(g, Pos(p.x + 2, p.y), t);
    }
    if 1 + l + r >= 3 {
      var lo := if l >= 2 then p.x - 2 else if l == 1 then p.x - 1 else p.x;
      assert RowWindow(g, p, lo, t);
    }
  }

  /** The vertical count reaches three exactly when a column window of three through p matches. */
  lemma VerticalCountWindow(g: Grid, p: Pos, t: int)
    ensures VerticalCount(g, p, t) >= 3 <==>
      ColumnWindow(g, p, p.y - 2, t) || ColumnWindow(g, p, p.y - 1, t) || ColumnWindow(g, p, p.y, t)
  {
    var d, u := DownRun(g, p.x, p.y - 1, t), UpRun(g, p.x, p.y + 1, t);
    DownRunSpec(g, p.x, p.y - 1, t);
    UpRunSpec(g, p.x, p.y + 1, t);
    if ColumnWindow(g, p, p.y - 2, t) {
      assert Matchable(g, Pos(p.x, p.y - 1), t) && Matchable(g, Pos(p.x, p.y - 2), t);
    }
    if ColumnWindow(g, p, p.y - 1, t) {
      assert Matchable(g, Pos(p.x, p.y - 1), t) && Matchable(g, Pos(p.x, p.y + 1), t);
    }
    if ColumnWindow(g, p, p.y, t) {
      assert Matchable(g, Pos(p.x, p.y + 1), t) && Matchable(g, Pos(p.x, p.y + 2), t);
    }
    if 1 + d + u >= 3 {
      var lo := if d >= 2 then p.y - 2 else if d == 1 then p.y - 1 else p.y;
      assert ColumnWindow(g, p, lo, t);
    }
  }

  /** CheckForLinearMatch's counts agree with the three-in-a-line reading. */
  lemma LinearMatchIsLineOfThree(g: Grid, p: Pos)
    ensures LinearMatch(g, p) <==> LineOfThree(g, p)
  {
    if Occupied(g, p) {
      HorizontalCountWindow(g, p, At(g, p).value.typeIndex);
      VerticalCountWindow(g, p, At(g, p).value.typeIndex);
    }
  }

  /**
   * GetRandomGemType's rejection test: type t would repeat the two tiles
   * directly to the left of (x, y), or the two directly below it.
   */
  predicate CompletesRun(g: Grid, x: int, y: int, t: int)
  {
    || (x > 1 && At(g, Pos(x - 1, y)).Some? && At(g, Pos(x - 1, y)).value.typeIndex == t &&
        At(g, Pos(x - 2, y)).Some? && At(g, Pos(x - 2, y)).value.typeIndex == t)
    || (y > 1 && At(g, Pos(x, y - 1)).Some? && At(g, Pos(x, y - 1)).value.typeIndex == t &&
        At(g, Pos(x, y - 2)).Some? && At(g, Pos(x, y - 2)).value.typeIndex == t)
  }

  /** The rejection test rules out at most two types, so with three or more one always remains. */
  lemma SomeTypeFits(g: Grid, x: int, y: int, n: int)
    requires n >= 3
    ensures exists t :: 0 <= t < n && !CompletesRun(g, x, y, t)
  {
    var left := if At(g, Pos(x - 1, y)).Some? then At(g, Pos(x - 1, y)).value.typeIndex else -1;
    var below := if At(g, Pos(x, y - 1)).Some? then At(g, Pos(x, y - 1)).value.typeIndex else -1;
    var t := if left != 0 && below != 0 then 0 else if left != 1 && below != 1 then 1 else 2;
    assert !CompletesRun(g, x, y, t);
  }
}
