/**
 * HintManager: enumerates the neighbour swaps the player could make, by
 * exchanging two tiles' types in place, looking for a straight run and
 * exchanging them back.
 */
module Hints {
  import opened Tiles
  import opened Grids
  import opened Collections
  import opened Runs
  import opened Moves
  import opened Session

  /** p comes before cell (x, y) in the column-major scan of FindAllValidMoves. */
  predicate ScannedBefore(p: Pos, x: int, y: int)
  {
    p.x < x || (p.x == x && p.y < y)
  }

  /** The moves the scan records at cell p: the right-hand pair, then the upper pair. */
  function MovesFrom(g: Grid, p: Pos): (ms: seq<Move>)
  {
    var right, up := Move(p, Pos(p.x + 1, p.y)), Move(p, Pos(p.x, p.y + 1));
    (if IsRecordedMove(g, right) then [right] else []) + (if IsRecordedMove(g, up) then [up] else [])
  }

  /** A cell contributes exactly the recorded moves that start at it, each once. */
  lemma MovesFromSpec(g: Grid, p: Pos)
    ensures forall m :: m in MovesFrom(g, p) <==> IsRecordedMove(g, m) && m.first == p
    ensures Distinct(MovesFrom(g, p))
  {
  }

  class HintManager {
    /** The moves found on the current board. */
    var allValidMoves: seq<Move>
    /** The move being shown, if any. */
    var currentHint: Option<Move>

    /** Awake(): an empty move list and no hint. */
    constructor ()
      ensures allValidMoves == [] && currentHint == None
    {
      allValidMoves := [];
      currentHint := None;
    }

    /** Stops the hint display; the hint being shown is dropped. */
    method StopHintVisual()
      modifies this
      ensures currentHint == None && allValidMoves == old(allValidMoves)
    {
      currentHint := None;
    }

    /**
     * Counts, from the start tile's cell and with the start tile's (possibly
     * simulated) type, the ordinary same-type tiles to the left, right, below
     * and above, each scan stopping at the first cell that does not match.
     */
    method CheckForLinearMatch(grid: array2<Option<Tile>>, startGem: Option<Tile>) returns (found: bool)
      ensures found <==>
        startGem.Some? && RunThrough(Snap(grid), startGem.value.At(), startGem.value.typeIndex)
    {
      if startGem.None? {
        return false;
      }
      var x, y, targetType := startGem.value.x, startGem.value.y, startGem.value.typeIndex;
      var horizontalCount := CountHorizontal(grid, x, y, targetType);
      if horizontalCount >= 3 {
        return true;
      }
      var verticalCount := CountVertical(grid, x, y, targetType);
      found := verticalCount >= 3;
    }

    /** The horizontal half of CheckForLinearMatch: the cell itself, then the scans left and right. */
    method CountHorizontal(grid: array2<Option<Tile>>, x: int, y: int, targetType: int) returns (horizontalCount: nat)
      ensures horizontalCount == HorizontalCount(Snap(grid), Pos(x, y), targetType)
    {
      ghost var g := Snap(grid);
      horizontalCount := 1;
      var i := x - 1;
      while i >= 0
        invariant i <= x - 1
        invariant horizontalCount + LeftRun(g, i, y, targetType) == 1 + LeftRun(g, x - 1, y, targetType)
        decreases i
      {
        var neighbor := CellAt(grid, i, y);
        if neighbor.Some? && neighbor.value.typeIndex == targetType && neighbor.value.special == NoSpecial {
          horizontalCount := horizontalCount + 1;
        } else {
          break;
        }
        i := i - 1;
      }
      i := x + 1;
      while i < grid.Length0
        invariant horizontalCount + RightRun(g, i, y, targetType) ==
                  1 + LeftRun(g, x - 1, y, targetType) + RightRun(g, x + 1, y, targetType)
        decreases grid.Length0 - i
      {
        var neighbor := CellAt(grid, i, y);
        if neighbor.Some? && neighbor.value.typeIndex == targetType && neighbor.value.special == NoSpecial {
          horizontalCount := horizontalCount + 1;
        } else {
          break;
        }
        i := i + 1;
      }
    }

    /** The vertical half of CheckForLinearMatch: the cell itself, then the scans down and up. */
    method CountVertical(grid: array2<Option<Tile>>, x: int, y: int, targetType: int) returns (verticalCount: nat)
      ensures verticalCount == VerticalCount(Snap(grid), Pos(x, y), targetType)
    {
      ghost var g := Snap(grid);
      verticalCount := 1;
      var i := y - 1;
      while i >= 0
        invariant i <= y - 1
        invariant verticalCount + DownRun(g, x, i, targetType) == 1 + DownRun(g, x, y - 1, targetType)
        decreases i
      {
        var neighbor := CellAt(grid, x, i);
        if neighbor.Some? && neighbor.value.typeIndex == targetType && neighbor.value.special == NoSpecial {
          verticalCount := verticalCount + 1;
        } else {
          break;
        }
        i := i - 1;
      }
      i := y + 1;
      while i < grid.Length1
        invariant verticalCount + UpRun(g, x, i, targetType) ==
                  1 + DownRun(g, x, y - 1, targetType) + UpRun(g, x, y + 1, targetType)
        decreases grid.Length1 - i
      {
        var neighbor := CellAt(grid, x, i);
        if neighbor.Some? && neighbor.value.typeIndex == targetType && neighbor.value.special == NoSpecial {
          verticalCount := verticalCount + 1;
        } else {
          break;
        }
        i := i + 1;
      }
    }

    /** Exchanges the types of the tiles at a and b; nothing else changes. */
    method SwapGemData(grid: array2<Option<Tile>>, a: Pos, b: Pos)
      requires InBounds(Snap(grid), a) && InBounds(Snap(grid), b)
      requires Occupied(Snap(grid), a) && Occupied(Snap(grid), b)
      modifies grid
      ensures Snap(grid) == SwapTypes(old(Snap(grid)), a, b)
    {
      ghost var g := Snap(grid);
      var tempType := grid[a.x, a.y].value.typeIndex;
      grid[a.x, a.y] := Some(grid[a.x, a.y].value.(typeIndex := grid[b.x, b.y].value.typeIndex));
      grid[b.x, b.y] := Some(grid[b.x, b.y].value.(typeIndex := tempType));
      GridEqAt(Snap(grid), SwapTypes(g, a, b));
    }

    /**
     * Simulates swapping a and b: exchanges their types, looks for a straight
     * run at either cell, and exchanges the types back.
     */
    method TestSwapForMatch(grid: array2<Option<Tile>>, a: Pos, b: Pos) returns (matchFound: bool)
      requires InBounds(Snap(grid), a) && InBounds(Snap(grid), b)
      requires Occupied(Snap(grid), a) && Occupied(Snap(grid), b)
      requires Coherent(Snap(grid))
      modifies grid
      ensures Snap(grid) == old(Snap(grid))
      ensures matchFound == WouldMatch(old(Snap(grid)), a, b)
    {
      ghost var g := Snap(grid);
      SwapGemData(grid, a, b);
      var m1 := CheckForLinearMatch(grid, grid[a.x, a.y]);
      var m2 := CheckForLinearMatch(grid, grid[b.x, b.y]);
      matchFound := m1 || m2;
      SwapGemData(grid, a, b);
      SwapTypesTwice(g, a, b);
    }

    /**
     * One cell of the FindAllValidMoves scan: the pair with the right-hand
     * neighbour, then the pair with the upper neighbour, each appended when
     * it passes the pair test.
     */
    method RecordMovesFrom(grid: array2<Option<Tile>>, x: int, y: int)
      requires 0 <= x < grid.Length0 && 0 <= y < grid.Length1
      requires Coherent(Snap(grid))
      modifies this, grid
      ensures Snap(grid) == old(Snap(grid)) && currentHint == old(currentHint)
      ensures allValidMoves == old(allValidMoves) + MovesFrom(old(Snap(grid)), Pos(x, y))
    {
      var width, height := grid.Length0, grid.Length1;
      var currentGem := CellAt(grid, x, y);
      if currentGem.None? {
        return;
      }
      var rightMoves := [];
      if x < width - 1 {
        rightMoves := TestPairFrom(grid, Pos(x, y), Pos(x + 1, y));
      }
      var upMoves := [];
      if y < height - 1 {
        upMoves := TestPairFrom(grid, Pos(x, y), Pos(x, y + 1));
      }
      allValidMoves := allValidMoves + rightMoves + upMoves;
    }

    /**
     * The pair test of FindAllValidMoves for an occupied cell and its
     * right-hand or upper neighbour inside the board: recorded when either
     * tile is special, or when the types differ and the simulated swap makes
     * a straight run.
     */
    method TestPairFrom(grid: array2<Option<Tile>>, here: Pos, other: Pos) returns (pairMoves: seq<Move>)
      requires InBounds(Snap(grid), here) && InBounds(Snap(grid), other) && Occupied(Snap(grid), here)
      requires IsForwardPair(Move(here, other))
      requires Coherent(Snap(grid))
      modifies grid
      ensures Snap(grid) == old(Snap(grid))
      ensures pairMoves == if IsRecordedMove(old(Snap(grid)), Move(here, other)) then [Move(here, other)] else []
    {
      var currentGem := CellAt(grid, here.x, here.y);
      var otherGem := CellAt(grid, other.x, other.y);
      pairMoves := [];
      if otherGem.Some? {
        if currentGem.value.special != NoSpecial || otherGem.value.special != NoSpecial {
          pairMoves := [Move(here, other)];
        } else if currentGem.value.typeIndex != otherGem.value.typeIndex {
          var found := TestSwapForMatch(grid, here, other);
          if found {
            pairMoves := [Move(here, other)];
          }
        }
      }
    }

    /**
     * Rebuilds the move list: every cell paired with its right-hand and its
     * upper neighbour, each pair tested once. The shuffle request of
     * GameManager.NoMoreMoves is returned to the caller, which owns the board.
     */
    method FindAllValidMoves(grid: array2<Option<Tile>>, gameManager: GameManager)
      returns (shuffleRequested: bool)
      requires Coherent(Snap(grid))
      modifies this, grid
      ensures Snap(grid) == old(Snap(grid))
      ensures forall m :: m in allValidMoves <==> IsRecordedMove(old(Snap(grid)), m)
      ensures Distinct(allValidMoves)
      ensures currentHint == None
      ensures shuffleRequested <==> allValidMoves == [] && !gameManager.isGameOver
    {
      ghost var g := Snap(grid);
      allValidMoves := [];
      StopHintVisual();
      var width, height := grid.Length0, grid.Length1;
      var x := 0;
      while x < width
        invariant 0 <= x <= width
        invariant Snap(grid) == g && currentHint == None
        invariant Distinct(allValidMoves)
        invariant forall m :: m in allValidMoves <==> IsRecordedMove(g, m) && ScannedBefore(m.first, x, 0)
      {
        var y := 0;
        while y < height
          invariant 0 <= y <= height
          invariant Snap(grid) == g && currentHint == None
          invariant Distinct(allValidMoves)
          invariant forall m :: m in allValidMoves <==> IsRecordedMove(g, m) && ScannedBefore(m.first, x, y)
        {
          ghost var before := allValidMoves;
          RecordMovesFrom(grid, x, y);
          MovesFromSpec(g, Pos(x, y));
          DistinctAppend(before, MovesFrom(g, Pos(x, y)));
          y := y + 1;
        }
        x := x + 1;
      }
      shuffleRequested := false;
      if |allValidMoves| == 0 {
        var over := gameManager.IsGameOver();
        if !over {
          shuffleRequested := gameManager.NoMoreMoves();
        }
      }
    }

    /** Picks one recorded move at random as the hint; with no moves there is none to show. */
    method RequestHintFromButton()
      modifies this
      ensures allValidMoves == old(allValidMoves)
      ensures allValidMoves == [] ==> currentHint == None
      ensures allValidMoves != [] ==> currentHint.Some? && currentHint.value in allValidMoves
    {
      StopHintVisual();
      if |allValidMoves| == 0 {
        return;
      }
      var i :| 0 <= i < |allValidMoves|;
      currentHint := Some(allValidMoves[i]);
    }
  }
}
