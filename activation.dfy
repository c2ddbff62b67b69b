/**
 * Special-tile activation as values: the row or column a line tile clears
 * (GridManager.ActivateSpecialGem) and the destroy set the activation queue
 * of ProcessMatches settles on.
 */
module Activation {
  import opened Tiles
  import opened Grids
  import opened Runs

  /**
   * The cells a tile clears when activated: every occupied cell of the row it
   * reports for a horizontal line tile, every occupied cell of its column for
   * a vertical one, nothing for an ordinary tile or a missing one.
   */
  function LineOf(g: Grid, tile: Option<Tile>): (c: set<Pos>)
    ensures forall q :: q in c ==> Occupied(g, q)
    ensures tile.None? || tile.value.IsOrdinary() ==> c == {}
  {
    if tile.None? then {}
    else if tile.value.special == HorizontalLine then
      set i | 0 <= i < |g| && Occupied(g, Pos(i, tile.value.y)) :: Pos(i, tile.value.y)
    else if tile.value.special == VerticalLine then
      set j | 0 <= j < ColumnHeight(g, tile.value.x) && Occupied(g, Pos(tile.value.x, j)) ::
        Pos(tile.value.x, j)
    else {}
  }

  /** Membership in a line, stated per cell. */
  lemma LineOfMember(g: Grid, tile: Tile, q: Pos)
    ensures tile.special == HorizontalLine ==>
      (q in LineOf(g, Some(tile)) <==> q.y == tile.y && Occupied(g, q))
    ensures tile.special == VerticalLine ==>
      (q in LineOf(g, Some(tile)) <==> q.x == tile.x && Occupied(g, q))
  {
    if tile.special == HorizontalLine && q.y == tile.y && Occupied(g, q) {
      assert q == Pos(q.x, tile.y);
    }
    if tile.special == VerticalLine && q.x == tile.x && Occupied(g, q) {
      assert q == Pos(tile.x, q.y);
    }
  }

  /** Every special tile of D has its whole line inside D. */
  ghost predicate ActivationClosed(g: Grid, D: set<Pos>)
  {
    forall s :: s in D && IsSpecialAt(g, s) ==> LineOf(g, At(g, s)) <= D
  }

  /**
   * D is the destroy set an activation round must reach from the cells P:
   * the smallest set holding P that is closed under activation.
   */
  ghost predicate IsActivationOf(g: Grid, P: set<Pos>, D: set<Pos>)
  {
    && P <= D
    && ActivationClosed(g, D)
    && forall S :: P <= S && ActivationClosed(g, S) ==> D <= S
  }

  /** The destroy set of a round is determined by its start cells. */
  lemma ActivationUnique(g: Grid, P: set<Pos>, D1: set<Pos>, D2: set<Pos>)
    requires IsActivationOf(g, P, D1) && IsActivationOf(g, P, D2)
    ensures D1 == D2
  {
  }

  /** Without special tiles among the start cells, a round destroys exactly those cells. */
  lemma OrdinaryStartIsClosed(g: Grid, P: set<Pos>)
    requires forall p :: p in P ==> !IsSpecialAt(g, p)
    ensures IsActivationOf(g, P, P)
  {
  }
}
