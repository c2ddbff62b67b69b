/**
 * Swaps on the board, as values: the position swap SwapGemsCoroutine performs,
 * the type-only exchange HintManager simulates, and the moves the hint list
 * records.
 */
module Moves {
  import opened Tiles
  import opened Grids
  import opened Collections
  import opened Connectivity
  import opened Runs

  /** One recorded hint: the two tiles of a swappable neighbour pair. */
  datatype Move = Move(first: Pos, second: Pos)

  /**
   * SwapGemData on values: the two cells exchange their typeIndex and keep
   * everything else (special kind and reported coordinate).
   */
  function SwapTypes(g: Grid, a: Pos, b: Pos): (r: Grid)
    requires Occupied(g, a) && Occupied(g, b)
    ensures SameShape(r, g)
    ensures At(r, a) == Some(At(g, a).value.(typeIndex := At(g, b).value.typeIndex))
    ensures At(r, b) == Some(At(g, b).value.(typeIndex := At(g, a).value.typeIndex))
    ensures forall q :: q != a && q != b ==> At(r, q) == At(g, q)
  {
    var ta := At(g, a).value;
    var g1 := Put(g, a, Some(ta.(typeIndex := At(g, b).value.typeIndex)));
    Put(g1, b, Some(At(g1, b).value.(typeIndex := ta.typeIndex)))
  }

  /** Exchanging the types twice restores the grid: TestSwapForMatch leaves no trace. */
  lemma SwapTypesTwice(g: Grid, a: Pos, b: Pos)
    requires Occupied(g, a) && Occupied(g, b)
    ensures SwapTypes(SwapTypes(g, a, b), a, b) == g
  {
    GridEqAt(SwapTypes(SwapTypes(g, a, b), a, b), g);
  }

  /** The exchange does not depend on the order of the pair. */
  lemma SwapTypesSymmetric(g: Grid, a: Pos, b: Pos)
    requires Occupied(g, a) && Occupied(g, b)
    ensures SwapTypes(g, a, b) == SwapTypes(g, b, a)
  {
    GridEqAt(SwapTypes(g, a, b), SwapTypes(g, b, a));
  }

  /** TestSwapForMatch: after the exchange, a straight run appears at either cell. */
  predicate WouldMatch(g: Grid, a: Pos, b: Pos)
    requires Occupied(g, a) && Occupied(g, b)
  {
    LinearMatch(SwapTypes(g, a, b), a) || LinearMatch(SwapTypes(g, a, b), b)
  }

  lemma WouldMatchSymmetric(g: Grid, a: Pos, b: Pos)
    requires Occupied(g, a) && Occupied(g, b)
    ensures WouldMatch(g, a, b) <==> WouldMatch(g, b, a)
  {
    SwapTypesSymmetric(g, a, b);
  }

  /**
   * The pair test of FindAllValidMoves: a pair with a special tile always
   * counts; two ordinary tiles count when their types differ and the
   * exchange produces a straight run.
   */
  predicate IsValidPair(g: Grid, a: Pos, b: Pos)
    requires Occupied(g, a) && Occupied(g, b)
  {
    IsSpecialAt(g, a) || IsSpecialAt(g, b) ||
    (At(g, a).value.typeIndex != At(g, b).value.typeIndex && WouldMatch(g, a, b))
  }

  /** The right-hand or upper neighbour of a cell. */
  predicate IsForwardPair(m: Move)
  {
    m.second == Pos(m.first.x + 1, m.first.y) || m.second == Pos(m.first.x, m.first.y + 1)
  }

  /**
   * The two fixed outcomes of the pair test: a neighbour pair with a special
   * tile is always recorded, two ordinary tiles of one type never are.
   */
  lemma PairRules(g: Grid, m: Move)
    requires IsForwardPair(m) && Occupied(g, m.first) && Occupied(g, m.second)
    ensures IsSpecialAt(g, m.first) || IsSpecialAt(g, m.second) ==> IsRecordedMove(g, m)
    ensures (IsOrdinaryAt(g, m.first) && IsOrdinaryAt(g, m.second) &&
             At(g, m.first).value.typeIndex == At(g, m.second).value.typeIndex) ==> !IsRecordedMove(g, m)
  {
  }

  /** A move FindAllValidMoves records on grid g. */
  predicate IsRecordedMove(g: Grid, m: Move)
  {
    && IsForwardPair(m)
    && Occupied(g, m.first) && Occupied(g, m.second)
    && IsValidPair(g, m.first, m.second)
  }

  /**
   * The grid right after SwapGemsCoroutine exchanges two tiles: each tile
   * moves to the other's cell and reports its new coordinate.
   */
  function SwapCells(g: Grid, a: Pos, b: Pos): (r: Grid)
    requires InBounds(g, a) && InBounds(g, b) && Occupied(g, a) && Occupied(g, b)
    requires a != b
    ensures SameShape(r, g)
    ensures At(r, a) == Some(At(g, b).value.MovedTo(a.x, a.y))
    ensures At(r, b) == Some(At(g, a).value.MovedTo(b.x, b.y))
    ensures forall q :: q != a && q != b ==> At(r, q) == At(g, q)
  {
    var ta, tb := At(g, a).value, At(g, b).value;
    Put(Put(g, a, Some(tb.MovedTo(a.x, a.y))), b, Some(ta.MovedTo(b.x, b.y)))
  }

  /** On a coherent grid, swapping the same two tiles back restores the grid. */
  lemma SwapCellsTwice(g: Grid, a: Pos, b: Pos)
    requires InBounds(g, a) && InBounds(g, b) && Occupied(g, a) && Occupied(g, b) && a != b
    requires Coherent(g)
    ensures SwapCells(SwapCells(g, a, b), a, b) == g
  {
    GridEqAt(SwapCells(SwapCells(g, a, b), a, b), g);
  }

  /**
   * The acceptance rule of SwapGemsCoroutine: after the swap there is a
   * flood-fill match, or one of the two tiles is special.
   */
  ghost predicate AcceptsSwap(g: Grid, a: Pos, b: Pos)
    requires InBounds(g, a) && InBounds(g, b) && Occupied(g, a) && Occupied(g, b) && a != b
  {
    MatchCells(SwapCells(g, a, b)) != {} || IsSpecialAt(g, a) || IsSpecialAt(g, b)
  }

  /** Three distinct ordinary same-type cells chained by adjacency form a match. */
  lemma ThreeInGroup(g: Grid, p: Pos, c1: Pos, c2: Pos)
    requires IsOrdinaryAt(g, p)
    requires Matchable(g, c1, TypeAt(g, p)) && Matchable(g, c2, TypeAt(g, p))
    requires p != c1 && p != c2 && c1 != c2
    requires Adjacent(p, c1) && (Adjacent(p, c2) || Adjacent(c1, c2))
    ensures p in MatchCells(g)
  {
    var t := TypeAt(g, p);
    SinglePath(g, p);
    PathInComponent(g, p, [p, c1]);
    if Adjacent(p, c2) {
      PathInComponent(g, p, [p, c2]);
    } else {
      PathInComponent(g, p, [p, c1, c2]);
    }
    SubsetCard({p, c1, c2}, Component(g, p));
    CellsOfMember(g, p);
  }

  /** Three ordinary same-type cells in a line through p put p in a group of three or more. */
  lemma LineIsMatch(g: Grid, p: Pos)
    requires LinearMatch(g, p) && IsOrdinaryAt(g, p)
    ensures p in MatchCells(g)
  {
    LinearMatchIsLineOfThree(g, p);
    var t := TypeAt(g, p);
    if RowWindow(g, p, p.x - 2, t) {
      ThreeInGroup(g, p, Pos(p.x - 1, p.y), Pos(p.x - 2, p.y));
    } else if RowWindow(g, p, p.x - 1, t) {
      ThreeInGroup(g, p, Pos(p.x - 1, p.y), Pos(p.x + 1, p.y));
    } else if RowWindow(g, p, p.x, t) {
      ThreeInGroup(g, p, Pos(p.x + 1, p.y), Pos(p.x + 2, p.y));
    } else if ColumnWindow(g, p, p.y - 2, t) {
      ThreeInGroup(g, p, Pos(p.x, p.y - 1), Pos(p.x, p.y - 2));
    } else if ColumnWindow(g, p, p.y - 1, t) {
      ThreeInGroup(g, p, Pos(p.x, p.y - 1), Pos(p.x, p.y + 1));
    } else {
      ThreeInGroup(g, p, Pos(p.x, p.y + 1), Pos(p.x, p.y + 2));
    }
  }

  /**
   * Every recorded hint is a move SwapGems accepts: the hint test is sound
   * with respect to the flood-fill rule.
   */
  lemma RecordedMoveIsAccepted(g: Grid, m: Move)
    requires IsRecordedMove(g, m) && InBounds(g, m.first) && InBounds(g, m.second)
    ensures AcceptsSwap(g, m.first, m.second)
  {
    var a, b := m.first, m.second;
    if !IsSpecialAt(g, a) && !IsSpecialAt(g, b) {
      var s, c := SwapTypes(g, a, b), SwapCells(g, a, b);
      assert SameKinds(s, c);
      SameKindsComponents(s, c);
      if LinearMatch(s, a) {
        LineIsMatch(s, a);
      } else {
        LineIsMatch(s, b);
      }
    }
  }

  /**
   * The hint test sees straight runs only. On the board of BentExample,
   * exchanging (1,1) and (2,1) forms a bent group of three, so SwapGems
   * accepts the swap ...
   */
  lemma BentSwapIsAccepted()
    ensures AcceptsSwap(BentExample(), Pos(1, 1), Pos(2, 1))
  {
    var c := SwapCells(BentExample(), Pos(1, 1), Pos(2, 1));
    assert At(c, Pos(0, 0)) == Some(Tile(0, NoSpecial, 0, 0));
    assert At(c, Pos(0, 1)) == Some(Tile(0, NoSpecial, 0, 1));
    assert At(c, Pos(1, 1)) == Some(Tile(0, NoSpecial, 1, 1));
    ThreeInGroup(c, Pos(0, 0), Pos(0, 1), Pos(1, 1));
  }

  /** ... yet FindAllValidMoves does not record the pair. */
  lemma BentSwapIsNotHinted()
    ensures !IsRecordedMove(BentExample(), Move(Pos(1, 1), Pos(2, 1)))
  {
    var s := SwapTypes(BentExample(), Pos(1, 1), Pos(2, 1));
    var e := [[Some(Tile(0, NoSpecial, 0, 0)), Some(Tile(0, NoSpecial, 0, 1))],
              [Some(Tile(1, NoSpecial, 1, 0)), Some(Tile(0, NoSpecial, 1, 1))],
              [Some(Tile(2, NoSpecial, 2, 0)), Some(Tile(2, NoSpecial, 2, 1))]];
    GridEqAt(s, e);
    NoStraightRunAfter(e);
  }

  lemma NoStraightRunAfter(e: Grid)
    requires e == [[Some(Tile(0, NoSpecial, 0, 0)), Some(Tile(0, NoSpecial, 0, 1))],
                   [Some(Tile(1, NoSpecial, 1, 0)), Some(Tile(0, NoSpecial, 1, 1))],
                   [Some(Tile(2, NoSpecial, 2, 0)), Some(Tile(2, NoSpecial, 2, 1))]]
    ensures !LinearMatch(e, Pos(1, 1)) && !LinearMatch(e, Pos(2, 1))
  {
    assert LeftRun(e, 0, 1, 0) == 1;
    assert RightRun(e, 2, 1, 0) == 0;
    assert DownRun(e, 1, 0, 0) == 0;
    assert UpRun(e, 1, 2, 0) == 0;
    assert LeftRun(e, 1, 1, 2) == 0;
    assert RightRun(e, 3, 1, 2) == 0;
    assert DownRun(e, 2, 0, 2) == 1;
    assert UpRun(e, 2, 2, 2) == 0;
  }

  /**
   * Columns 0..2, rows 0..1 (type per cell, all ordinary):
   *   row 1:  0 2 0
   *   row 0:  0 1 2
   */
  function BentExample(): (g: Grid)
    ensures IsRect(g, 3, 2) && Coherent(g)
  {
    [[Some(Tile(0, NoSpecial, 0, 0)), Some(Tile(0, NoSpecial, 0, 1))],
     [Some(Tile(1, NoSpecial, 1, 0)), Some(Tile(2, NoSpecial, 1, 1))],
     [Some(Tile(2, NoSpecial, 2, 0)), Some(Tile(0, NoSpecial, 2, 1))]]
  }
}
