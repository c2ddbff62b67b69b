/**
 * GridManager: the board array and the operations that change it in place:
 * generation, flood-fill matching, the swap, the cascade of matches with its
 * special-tile activations, gravity and refill, and the shuffle.
 */
module Board {
  import opened Tiles
  import opened Grids
  import opened Collections
  import opened Connectivity
  import opened Runs
  import opened Moves
  import opened Gravity
  import opened Activation
  import opened Bags
  import opened Cascade
  import opened Session
  import opened Hints

  /** The visited array marks exactly the cells of V, all of them on the board. */
  ghost predicate Tracks(visited: array2<bool>, V: set<Pos>)
    reads visited
  {
    && (forall p :: p in V ==> 0 <= p.x < visited.Length0 && 0 <= p.y < visited.Length1)
    && (forall x, y :: 0 <= x < visited.Length0 && 0 <= y < visited.Length1 ==>
          (visited[x, y] <==> Pos(x, y) in V))
  }

  class GridManager {
    const width: nat
    const height: nat
    /** grid[x, y] is the tile in column x, row y; None is an empty cell. */
    const grid: array2<Option<Tile>>
    var isProcessing: bool
    const gameManager: GameManager
    const hintManager: HintManager

    /**
     * The board has the configured size, every tile reports the cell it sits
     * in and has an active type, and the session counters are consistent.
     */
    ghost predicate Valid()
      reads grid, gameManager
    {
      && grid.Length0 == width && grid.Length1 == height
      && Coherent(Snap(grid)) && TypesInRange(Snap(grid))
      && gameManager.Valid()
    }

    /** Start(): an empty width-by-height grid, before the board is generated. */
    constructor (width: nat, height: nat, gameManager: GameManager, hintManager: HintManager)
      requires gameManager.Valid()
      ensures this.width == width && this.height == height
      ensures this.gameManager == gameManager && this.hintManager == hintManager
      ensures fresh(grid) && !isProcessing
      ensures grid.Length0 == width && grid.Length1 == height
      ensures forall x, y :: 0 <= x < width && 0 <= y < height ==> grid[x, y] == None
      ensures Valid()
    {
      this.width := width;
      this.height := height;
      this.gameManager := gameManager;
      this.hintManager := hintManager;
      grid := new Option<Tile>[width, height]((x, y) => None);
      isProcessing := false;
    }

    /** The tile at (x, y), or none when the coordinate is off the board. */
    method GetGemAt(x: int, y: int) returns (gem: Option<Tile>)
      requires grid.Length0 == width && grid.Length1 == height
      ensures gem == At(Snap(grid), Pos(x, y))
      ensures gem.Some? ==> 0 <= x < width && 0 <= y < height
    {
      if x < 0 || x >= width || y < 0 || y >= height {
        return None;
      }
      gem := grid[x, y];
    }

    method IsProcessing() returns (processing: bool)
      ensures processing == isProcessing
    {
      processing := isProcessing;
    }

    /**
     * A random active type that does not repeat the two tiles to the left of
     * (x, y), nor the two below it. The draw is a free choice among the types
     * the rejection test lets through.
     */
    method GetRandomGemType(x: int, y: int) returns (t: int)
      requires Valid() && 0 <= x < width && 0 <= y < height
      ensures 0 <= t < ActiveTypes
      ensures !CompletesRun(Snap(grid), x, y, t)
    {
      SomeTypeFits(Snap(grid), x, y, ActiveTypes);
      ghost var fits :| 0 <= fits < ActiveTypes && !CompletesRun(Snap(grid), x, y, fits);
      assert !Rejected(x, y, fits);
      t :| 0 <= t < ActiveTypes && !Rejected(x, y, t);
      assert Rejected(x, y, t) == CompletesRun(Snap(grid), x, y, t);
    }

    /** The loop condition of GetRandomGemType, read from the array. */
    predicate Rejected(x: int, y: int, t: int)
      requires grid.Length0 == width && grid.Length1 == height
      requires 0 <= x < width && 0 <= y < height
      reads grid
      ensures Rejected(x, y, t) == CompletesRun(Snap(grid), x, y, t)
    {
      || (x > 1 && grid[x - 1, y].Some? && grid[x - 1, y].value.typeIndex == t &&
          grid[x - 2, y].Some? && grid[x - 2, y].value.typeIndex == t)
      || (y > 1 && grid[x, y - 1].Some? && grid[x, y - 1].value.typeIndex == t &&
          grid[x, y - 2].Some? && grid[x, y - 2].value.typeIndex == t)
    }

    /** Places a new ordinary tile of a type GetRandomGemType draws at (x, y). */
    method CreateGem(x: int, y: int)
      requires Valid() && 0 <= x < width && 0 <= y < height
      modifies grid
      ensures Valid()
      ensures grid[x, y].Some?
      ensures grid[x, y].value == Tile(grid[x, y].value.typeIndex, NoSpecial, x, y)
      ensures 0 <= grid[x, y].value.typeIndex < ActiveTypes
      ensures !CompletesRun(Snap(grid), x, y, grid[x, y].value.typeIndex)
      ensures forall i, j :: 0 <= i < width && 0 <= j < height && (i != x || j != y) ==>
        grid[i, j] == old(grid[i, j])
    {
      var randomTypeIndex := GetRandomGemType(x, y);
      ghost var g := Snap(grid);
      grid[x, y] := Some(Tile(randomTypeIndex, NoSpecial, x, y));
      assert forall i, j :: 0 <= i < width && 0 <= j < height && (i != x || j != y) ==>
        Snap(grid)[i][j] == g[i][j];
    }

    /** Empties every cell. */
    method ClearBoard()
      requires Valid()
      modifies grid
      ensures Valid()
      ensures forall x, y :: 0 <= x < width && 0 <= y < height ==> grid[x, y] == None
    {
      var x := 0;
      while x < width
        invariant 0 <= x <= width
        invariant Valid()
        invariant forall i, j :: 0 <= i < x && 0 <= j < height ==> grid[i, j] == None
      {
        var y := 0;
        while y < height
          invariant 0 <= y <= height
          invariant Valid()
          invariant forall i, j :: 0 <= i < x && 0 <= j < height ==> grid[i, j] == None
          invariant forall j :: 0 <= j < y ==> grid[x, j] == None
        {
          if grid[x, y].Some? {
            grid[x, y] := None;
          }
          y := y + 1;
        }
        x := x + 1;
      }
    }

    /**
     * One neighbour test of the flood fill: the cell in direction d of the
     * current cell is marked and enqueued when it is on the board, unmarked
     * and holds an ordinary tile of the target type.
     */
    method VisitNeighbor(current: Pos, d: int, targetType: int, visited: array2<bool>, queue: seq<Pos>,
                         ghost g: Grid, ghost C: set<Pos>, ghost V0: set<Pos>, ghost V: set<Pos>,
                         ghost group: seq<Pos>)
      returns (newQueue: seq<Pos>, ghost newV: set<Pos>)
      requires Valid() && g == Snap(grid)
      requires visited.Length0 == width && visited.Length1 == height
      requires Tracks(visited, V) && BfsInv(g, C, V0, V, group, queue)
      requires NeighborMarked(g, current, d, targetType, C)
      modifies visited
      ensures Tracks(visited, newV) && BfsInv(g, C, V0, newV, group, newQueue)
      ensures V <= newV && (newV == V ==> newQueue == queue)
      ensures NeighborMarked(g, current, d, targetType, newV)
    {
      newQueue, newV := queue, V;
      var n := Step(current, d);
      if n.x < 0 || n.x >= width || n.y < 0 || n.y >= height {
        return;
      }
      if visited[n.x, n.y] {
        return;
      }
      var neighbor := grid[n.x, n.y];
      if neighbor.Some? && neighbor.value.typeIndex == targetType && neighbor.value.special == NoSpecial {
        visited[n.x, n.y] := true;
        CellsOfMember(g, n);
        BfsEnqueue(g, C, V0, V, group, queue, n);
        newQueue, newV := queue + [n], V + {n};
      }
    }

    /**
     * The four neighbour tests of one dequeued cell, in the order up, down,
     * right, left.
     */
    method ExpandCell(current: Pos, targetType: int, visited: array2<bool>, queue: seq<Pos>,
                      ghost g: Grid, ghost C: set<Pos>, ghost V0: set<Pos>, ghost V: set<Pos>,
                      ghost group: seq<Pos>)
      returns (newQueue: seq<Pos>, ghost newV: set<Pos>)
      requires Valid() && g == Snap(grid)
      requires visited.Length0 == width && visited.Length1 == height
      requires Tracks(visited, V) && BfsInv(g, C, V0, V, group, queue)
      requires forall d :: 0 <= d < 4 ==> NeighborMarked(g, current, d, targetType, C)
      modifies visited
      ensures Tracks(visited, newV) && BfsInv(g, C, V0, newV, group, newQueue)
      ensures V <= newV && (newV == V ==> newQueue == queue)
      ensures forall d :: 0 <= d < 4 ==> NeighborMarked(g, current, d, targetType, newV)
    {
      newQueue, newV := queue, V;
      var i := 0;
      while i < 4
        invariant 0 <= i <= 4
        invariant Tracks(visited, newV) && BfsInv(g, C, V0, newV, group, newQueue)
        invariant V <= newV && (newV == V ==> newQueue == queue)
        invariant forall d :: 0 <= d < i ==> NeighborMarked(g, current, d, targetType, newV)
      {
        ghost var before := newV;
        newQueue, newV := VisitNeighbor(current, i, targetType, visited, newQueue, g, C, V0, newV, group);
        forall d | 0 <= d < i
          ensures NeighborMarked(g, current, d, targetType, newV)
        {
          NeighborMarkedGrows(g, current, d, targetType, before, newV);
        }
        i := i + 1;
      }
    }

    /**
     * One turn of the flood-fill loop: the head of the queue joins the group
     * and its four neighbours are tested.
     */
    method BfsStep(visited: array2<bool>, queue: seq<Pos>, group: seq<Pos>, targetType: int,
                   ghost g: Grid, ghost C: set<Pos>, ghost V0: set<Pos>, ghost V: set<Pos>, ghost s: Pos)
      returns (newQueue: seq<Pos>, newGroup: seq<Pos>, ghost newV: set<Pos>)
      requires Valid() && g == Snap(grid)
      requires visited.Length0 == width && visited.Length1 == height
      requires Tracks(visited, V) && BfsInv(g, C, V0, V, group, queue) && queue != []
      requires IsOrdinaryAt(g, s) && C == Component(g, s) && targetType == TypeAt(g, s)
      requires forall p, d :: p in group && 0 <= d < 4 ==> NeighborMarked(g, p, d, targetType, V)
      modifies visited
      ensures Tracks(visited, newV) && BfsInv(g, C, V0, newV, newGroup, newQueue)
      ensures newGroup == group + [queue[0]]
      ensures forall p, d :: p in newGroup && 0 <= d < 4 ==> NeighborMarked(g, p, d, targetType, newV)
      ensures V <= newV && (newV == V ==> |newQueue| < |queue|)
    {
      var current := queue[0];
      BfsDequeue(g, C, V0, V, group, queue);
      NeighborsInComponent(g, s, current);
      newQueue := queue[1..];
      newGroup := group + [current];
      newQueue, newV := ExpandCell(current, targetType, visited, newQueue, g, C, V0, V, newGroup);
      forall p, d | p in newGroup && 0 <= d < 4
        ensures NeighborMarked(g, p, d, targetType, newV)
      {
        if p != current {
          NeighborMarkedGrows(g, p, d, targetType, V, newV);
        }
      }
    }

    /**
     * The flood fill from (startX, startY): breadth-first through the four
     * neighbours, entering only ordinary tiles of the start's type, marking
     * each cell in `visited` as it is enqueued.
     */
    method FindConnectedGroup(startX: int, startY: int, visited: array2<bool>, ghost V0: set<Pos>)
      returns (group: seq<Pos>)
      requires Valid()
      requires visited.Length0 == width && visited.Length1 == height
      requires 0 <= startX < width && 0 <= startY < height
      requires Tracks(visited, V0) && VisitedClosed(Snap(grid), V0) && Pos(startX, startY) !in V0
      modifies visited
      ensures Elems(group) == Component(Snap(grid), Pos(startX, startY)) && Distinct(group)
      ensures !IsOrdinaryAt(Snap(grid), Pos(startX, startY)) ==> group == []
      ensures group != [] ==> group[0] == Pos(startX, startY)
      ensures Elems(group) !! V0
      ensures Tracks(visited, V0 + Elems(group)) && VisitedClosed(Snap(grid), V0 + Elems(group))
    {
      ghost var g := Snap(grid);
      var s := Pos(startX, startY);
      group := [];
      var startGem := grid[startX, startY];
      if startGem.None? || startGem.value.special != NoSpecial {
        assert V0 + Elems(group) == V0;
        return;
      }
      var queue := [s];
      visited[startX, startY] := true;
      ghost var V := V0 + {s};
      ghost var C := Component(g, s);
      var targetType := startGem.value.typeIndex;
      BfsStart(g, V0, s);
      while |queue| > 0
        invariant Tracks(visited, V) && BfsInv(g, C, V0, V, group, queue)
        invariant group != [] ==> group[0] == s
        invariant group == [] ==> queue == [s]
        invariant forall p, d :: p in group && 0 <= d < 4 ==> NeighborMarked(g, p, d, targetType, V)
        decreases CellsOf(g) - V, |queue|
      {
        ghost var before := V;
        queue, group, V := BfsStep(visited, queue, group, targetType, g, C, V0, V, s);
        if V != before {
          RestShrinks(CellsOf(g), before, V);
        }
      }
      BfsFinish(g, V0, V, group, s);
    }

    /**
     * Every group of three or more, found by flood fills started from each
     * occupied, unmarked cell in column-major order; the set union of the
     * groups is kept in the order the cells were first added.
     */
    method FindAllMatches() returns (matches: seq<Pos>)
      requires Valid()
      ensures Distinct(matches) && Elems(matches) == MatchCells(Snap(grid))
    {
      ghost var g := Snap(grid);
      matches := [];
      var visited := new bool[width, height]((x, y) => false);
      ghost var V: set<Pos> := {};
      var x := 0;
      while x < width
        invariant 0 <= x <= width
        invariant Tracks(visited, V) && VisitedClosed(g, V)
        invariant forall p :: IsOrdinaryAt(g, p) && p.x < x ==> p in V
        invariant forall p :: p in matches <==> p in V && |Component(g, p)| >= 3
        invariant Distinct(matches)
      {
        var y := 0;
        while y < height
          invariant 0 <= y <= height
          invariant Tracks(visited, V) && VisitedClosed(g, V)
          invariant forall p :: IsOrdinaryAt(g, p) && ScannedBefore(p, x, y) ==> p in V
          invariant forall p :: p in matches <==> p in V && |Component(g, p)| >= 3
          invariant Distinct(matches)
        {
          ghost var before := V;
          if grid[x, y].Some? && !visited[x, y] {
            var group := FindConnectedGroup(x, y, visited, V);
            GroupSizes(g, Pos(x, y), group);
            if IsOrdinaryAt(g, Pos(x, y)) {
              SinglePath(g, Pos(x, y));
            }
            if |group| >= 3 {
              DistinctAppend(matches, group);
              matches := matches + group;
            }
            V := V + Elems(group);
          }
          assert IsOrdinaryAt(g, Pos(x, y)) ==> Pos(x, y) in V;
          forall p | IsOrdinaryAt(g, p) && ScannedBefore(p, x, y + 1)
            ensures p in V
          {
            if ScannedBefore(p, x, y) {
              assert p in before;
            } else {
              assert p == Pos(x, y);
            }
          }
          y := y + 1;
        }
        x := x + 1;
      }
      MatchCellsFromMarks(g, V, Elems(matches));
    }

    /**
     * The cells a special tile clears: the occupied cells of its row for a
     * horizontal line tile, of its column for a vertical one, none otherwise.
     */
    method ActivateSpecialGem(gem: Option<Tile>) returns (cells: seq<Pos>)
      requires Valid()
      ensures Distinct(cells) && Elems(cells) == LineOf(Snap(grid), gem)
    {
      ghost var g := Snap(grid);
      cells := [];
      if gem.None? {
        return;
      }
      var t := gem.value;
      if t.special == HorizontalLine {
        var x := 0;
        while x < width
          invariant 0 <= x <= width
          invariant Distinct(cells)
          invariant forall q :: q in cells <==> q.y == t.y && 0 <= q.x < x && Occupied(g, q)
        {
          var target := GetGemAt(x, t.y);
          if target.Some? {
            cells := cells + [Pos(x, t.y)];
          }
          x := x + 1;
        }
      } else if t.special == VerticalLine {
        var y := 0;
        while y < height
          invariant 0 <= y <= height
          invariant Distinct(cells)
          invariant forall q :: q in cells <==> q.x == t.x && 0 <= q.y < y && Occupied(g, q)
        {
          var target := GetGemAt(t.x, y);
          if target.Some? {
            cells := cells + [Pos(t.x, y)];
          }
          y := y + 1;
        }
      }
      forall q
        ensures q in cells <==> q in LineOf(g, gem)
      {
        LineOfMember(g, t, q);
      }
    }

    /**
     * One activated tile's line: each cell not yet destroyed is queued if it
     * holds a special tile not yet queued, and destroyed otherwise.
     */
    method AbsorbLine(line: seq<Pos>, destroy: set<Pos>, queue: seq<Pos>,
                      ghost g: Grid, ghost P: set<Pos>, ghost a: Pos)
      returns (newDestroy: set<Pos>, newQueue: seq<Pos>)
      requires Valid() && g == Snap(grid)
      requires IsSpecialAt(g, a) && a in destroy && Elems(line) == LineOf(g, At(g, a))
      requires ActState(g, P, destroy, queue)
      ensures ActState(g, P, newDestroy, newQueue)
      ensures destroy <= newDestroy && destroy + Elems(queue) <= newDestroy + Elems(newQueue)
      ensures LineOf(g, At(g, a)) <= newDestroy + Elems(newQueue)
      ensures forall q :: q in newDestroy - destroy ==> !IsSpecialAt(g, q)
    {
      newDestroy, newQueue := destroy, queue;
      for j := 0 to |line|
        invariant ActState(g, P, newDestroy, newQueue)
        invariant destroy <= newDestroy && destroy + Elems(queue) <= newDestroy + Elems(newQueue)
        invariant Elems(line[..j]) <= newDestroy + Elems(newQueue)
        invariant forall q :: q in newDestroy - destroy ==> !IsSpecialAt(g, q)
      {
        var newGem := line[j];
        assert newGem in LineOf(g, At(g, a));
        if newGem !in newDestroy {
          if grid[newGem.x, newGem.y].value.special != NoSpecial {
            if newGem !in newQueue {
              ActStateEnqueue(g, P, newDestroy, newQueue, a, newGem);
              newQueue := newQueue + [newGem];
            }
          } else {
            ActStateDestroy(g, P, newDestroy, newQueue, a, newGem);
            newDestroy := newDestroy + {newGem};
          }
        }
        assert line[..j + 1] == line[..j] + [newGem];
      }
      assert line[..|line|] == line;
    }

    /**
     * The activation phase of a cascade round: ordinary tiles of the round go
     * straight into the destroy set, special ones into the activation queue;
     * each dequeued special tile is destroyed and its line absorbed, until
     * the queue is empty.
     */
    method ResolveActivations(process: seq<Pos>) returns (destroy: set<Pos>)
      requires Valid()
      requires forall p :: p in process ==> Occupied(Snap(grid), p)
      ensures IsActivationOf(Snap(grid), Elems(process), destroy)
      ensures forall q :: q in destroy ==> Occupied(Snap(grid), q)
    {
      ghost var g := Snap(grid);
      ghost var P := Elems(process);
      destroy := {};
      var queue: seq<Pos> := [];
      for i := 0 to |process|
        invariant forall q :: q in destroy <==> q in process[..i] && IsOrdinaryAt(g, q)
        invariant forall q :: q in queue <==> q in process[..i] && IsSpecialAt(g, q)
        invariant Distinct(queue)
      {
        var p := process[i];
        assert p in process;
        if grid[p.x, p.y].value.special != NoSpecial {
          if p !in queue {
            DistinctAppend(queue, [p]);
            queue := queue + [p];
          }
        } else {
          destroy := destroy + {p};
        }
        assert process[..i + 1] == process[..i] + [p];
      }
      assert process[..|process|] == process;
      assert ActState(g, P, destroy, queue);
      while |queue| > 0
        invariant ActState(g, P, destroy, queue)
        invariant P <= destroy + Elems(queue)
        invariant forall s :: s in destroy && IsSpecialAt(g, s) ==> LineOf(g, At(g, s)) <= destroy + Elems(queue)
        decreases CellsOf(g) - destroy
      {
        var gemToActivate := queue[0];
        ghost var before := destroy;
        queue := queue[1..];
        if gemToActivate in destroy {
          assert false;
          continue;
        }
        ActStateActivate(g, P, destroy, queue, gemToActivate);
        destroy := destroy + {gemToActivate};
        var line := ActivateSpecialGem(grid[gemToActivate.x, gemToActivate.y]);
        destroy, queue := AbsorbLine(line, destroy, queue, g, P, gemToActivate);
        OccupiedCells(g, destroy);
        RestShrinks(CellsOf(g), before, destroy);
      }
      assert Elems(queue) == {};
    }

    /**
     * The groups of the round's cells: each unvisited ordinary cell starts a
     * flood fill, in list order, sharing one visited array.
     */
    method CollectGroups(process: seq<Pos>) returns (groups: seq<seq<Pos>>)
      requires Valid()
      requires forall p :: p in process ==> Occupied(Snap(grid), p)
      ensures forall k :: 0 <= k < |groups| ==> WholeGroup(Snap(grid), groups[k])
      ensures forall q :: InGroups(groups, q) <==> Covered(Snap(grid), process, |process|, q)
      ensures FirstLargeGroup(groups) == FirstLarge(Snap(grid), process)
    {
      ghost var g := Snap(grid);
      var visited := new bool[width, height]((x, y) => false);
      ghost var V: set<Pos> := {};
      groups := [];
      for i := 0 to |process|
        invariant Snap(grid) == g
        invariant Tracks(visited, V) && VisitedClosed(g, V)
        invariant GroupsInv(g, process, i, groups, V)
      {
        var p := process[i];
        assert p in process;
        if grid[p.x, p.y].Some? && !visited[p.x, p.y] && grid[p.x, p.y].value.special == NoSpecial {
          var group := FindConnectedGroup(p.x, p.y, visited, V);
          SinglePath(g, p);
          GroupsAdd(g, process, i, groups, V, group);
          groups := groups + [group];
          V := V + Elems(group);
        } else {
          GroupsSkip(g, process, i, groups, V);
        }
      }
      assert process[..|process|] == process;
    }

    /**
     * The tile the round turns into a line tile: in the first round the
     * swiped tile, when some group of four or more holds it; otherwise the
     * first ordinary member of the first group of four or more.
     */
    method ChooseGemToTransform(process: seq<Pos>, first: bool, clicked: Option<Pos>)
      returns (choice: Option<Pos>)
      requires Valid()
      requires forall p :: p in process ==> Occupied(Snap(grid), p)
      ensures choice == TransformChoice(Snap(grid), process, first, clicked)
    {
      ghost var g := Snap(grid);
      var groups := CollectGroups(process);
      choice := None;
      if first && clicked.Some? {
        var c := clicked.value;
        var k := 0;
        while k < |groups|
          invariant 0 <= k <= |groups|
          invariant forall j :: 0 <= j < k ==> !(|groups[j]| >= 4 && c in groups[j] && IsOrdinaryAt(g, c))
        {
          if |groups[k]| >= 4 && c in groups[k] {
            ComponentMembers(g, groups[k][0], c);
            if grid[c.x, c.y].value.special == NoSpecial {
              choice := clicked;
              break;
            }
          }
          k := k + 1;
        }
        ClickedFromGroups(g, process, groups, c);
      }
      if choice.None? {
        var k := 0;
        while k < |groups|
          invariant 0 <= k <= |groups|
          invariant FirstLargeGroup(groups[..k]) == None
        {
          assert groups[..k + 1][..k] == groups[..k];
          if |groups[k]| >= 4 {
            // every member of a group is ordinary, so the first ordinary member is the first one
            choice := Some(groups[k][0]);
            FirstLargeGroupPrefix(groups, k + 1);
            break;
          }
          k := k + 1;
        }
        assert groups[..|groups|] == groups;
      }
    }

    /**
     * The removal stage of ClearAndRefill: each listed cell that still holds
     * a tile is emptied, and ten points are counted for it.
     */
    method RemoveMatched(matches: seq<Pos>) returns (scoreToAdd: int)
      requires Valid()
      requires forall p :: p in matches ==> InBounds(Snap(grid), p)
      modifies grid
      ensures Valid()
      ensures Snap(grid) == Cleared(old(Snap(grid)), Elems(matches))
      ensures scoreToAdd == 10 * |OccupiedIn(old(Snap(grid)), Elems(matches))|
    {
      ghost var g := Snap(grid);
      ghost var E: set<Pos> := {};
      scoreToAdd := 0;
      for i := 0 to |matches|
        invariant E == Elems(matches[..i])
        invariant forall x, y :: 0 <= x < width && 0 <= y < height ==>
          grid[x, y] == if Pos(x, y) in E then None else g[x][y]
        invariant scoreToAdd == 10 * |OccupiedIn(g, E)|
      {
        var gem := matches[i];
        assert gem in matches;
        OccupiedInStep(g, E, gem);
        if grid[gem.x, gem.y].Some? {
          grid[gem.x, gem.y] := None;
          scoreToAdd := scoreToAdd + 10;
        }
        E := E + {gem};
        assert matches[..i + 1] == matches[..i] + [gem];
      }
      assert matches[..|matches|] == matches;
      GridEqAt(Snap(grid), Cleared(g, E));
      ClearedKeepsInvariants(g, E);
    }

    /**
     * The compaction of column x, holding col: scanning upwards, the lowest
     * empty row is remembered, and each tile found above it drops into it and
     * takes that row as its own.
     */
    method CompactColumn(x: int, ghost col: seq<Option<Tile>>)
      requires 0 <= x < grid.Length0 && |col| == grid.Length1
      requires ColumnOf(grid, x) == col && ColumnCoherent(col, x)
      modifies grid
      ensures ColumnOf(grid, x) == Packed(col, x)
      ensures forall i, j :: 0 <= i < grid.Length0 && 0 <= j < grid.Length1 && i != x ==>
        grid[i, j] == old(grid[i, j])
    {
      ghost var s: seq<Tile> := [];
      var emptySpotY := -1;
      var y := 0;
      while y < grid.Length1
        invariant forall i, j :: 0 <= i < grid.Length0 && 0 <= j < grid.Length1 && i != x ==>
          grid[i, j] == old(grid[i, j])
        invariant CompactingColumn(col, x, y, emptySpotY, s, ColumnOf(grid, x))
      {
        ghost var cur := ColumnOf(grid, x);
        CompactingStep(col, x, y, emptySpotY, s, cur);
        if grid[x, y].None? && emptySpotY == -1 {
          emptySpotY := y;
        }
        if grid[x, y].Some? && emptySpotY != -1 {
          s := s + [grid[x, y].value];
          DropGem(x, y, emptySpotY);
          assert ColumnOf(grid, x) == cur[y := None][emptySpotY := Some(col[y].value.MovedTo(x, emptySpotY))];
          emptySpotY := emptySpotY + 1;
        } else if grid[x, y].Some? {
          s := s + [grid[x, y].value];
        }
        y := y + 1;
      }
      CompactingDone(col, x, emptySpotY, s, ColumnOf(grid, x));
    }

    /** Moves the tile at row y of column x down to row to, where it takes its new row. */
    method DropGem(x: int, y: int, to: int)
      requires 0 <= x < grid.Length0 && 0 <= to < y < grid.Length1 && grid[x, y].Some?
      modifies grid
      ensures grid[x, to] == Some(old(grid[x, y]).value.MovedTo(x, to)) && grid[x, y] == None
      ensures forall i, j :: 0 <= i < grid.Length0 && 0 <= j < grid.Length1 && (i != x || (j != y && j != to)) ==>
        grid[i, j] == old(grid[i, j])
    {
      var gemToMove := grid[x, y].value;
      grid[x, y] := None;
      grid[x, to] := Some(gemToMove.MovedTo(x, to));
    }

    /** The compaction stage of ClearAndRefill, column by column. */
    method Compact()
      requires Valid()
      modifies grid
      ensures Valid()
      ensures Snap(grid) == Compacted(old(Snap(grid)))
    {
      ghost var g := Snap(grid);
      var x := 0;
      while x < width
        invariant 0 <= x <= width
        invariant forall i, j :: 0 <= i < x && 0 <= j < height ==> grid[i, j] == Packed(g[i], i)[j]
        invariant forall i, j :: x <= i < width && 0 <= j < height ==> grid[i, j] == g[i][j]
      {
        assert ColumnCoherent(g[x], x);
        assert ColumnOf(grid, x) == g[x];
        CompactColumn(x, g[x]);
        assert forall j :: 0 <= j < height ==> grid[x, j] == ColumnOf(grid, x)[j];
        x := x + 1;
      }
      GridExt(Snap(grid), Compacted(g), width, height);
      CompactedCoherent(g);
      CompactedTypesInRange(g);
    }

    /**
     * The refill stage of ClearAndRefill: column by column, bottom to top,
     * every empty cell receives a new ordinary tile placed as CreateGem
     * places one.
     */
    method Refill()
      requires Valid()
      modifies grid
      ensures Valid()
      ensures RefillOf(old(Snap(grid)), Snap(grid))
    {
      ghost var g := Snap(grid);
      var x := 0;
      while x < width
        invariant 0 <= x <= width && Valid()
        invariant RefillUpTo(g, Snap(grid), x, 0)
      {
        var y := 0;
        while y < height
          invariant 0 <= y <= height && Valid()
          invariant RefillUpTo(g, Snap(grid), x, y)
        {
          if grid[x, y].None? {
            ghost var r := Snap(grid);
            CreateGem(x, y);
            RefillStepFill(g, r, Snap(grid), x, y);
          } else {
            RefillStepSkip(g, Snap(grid), x, y);
          }
          y := y + 1;
        }
        RefillNextColumn(g, Snap(grid), x);
        x := x + 1;
      }
      RefillDone(g, Snap(grid));
    }

    /**
     * Removes the listed tiles and scores them, lets the columns fall and
     * refills the board.
     */
    method ClearAndRefill(matches: seq<Pos>)
      requires Valid()
      requires forall p :: p in matches ==> InBounds(Snap(grid), p)
      modifies grid, gameManager
      ensures Valid()
      ensures RefillOf(Compacted(Cleared(old(Snap(grid)), Elems(matches))), Snap(grid))
      ensures gameManager.currentScore == old(gameManager.currentScore) +
        if old(gameManager.isGameOver) then 0 else 10 * |OccupiedIn(old(Snap(grid)), Elems(matches))|
      ensures gameManager.currentMoves == old(gameManager.currentMoves)
      ensures gameManager.isGameOver == old(gameManager.isGameOver)
      ensures gameManager.highScore == old(gameManager.highScore)
    {
      var scoreToAdd := RemoveMatched(matches);
      if scoreToAdd > 0 {
        gameManager.AddScore(scoreToAdd);
      }
      Compact();
      Refill();
    }

    /**
     * Replaces the ordinary tile at c by a line tile of the same type, of a
     * randomly chosen direction.
     */
    method TransformGem(c: Pos) returns (newGem: Tile)
      requires Valid() && IsOrdinaryAt(Snap(grid), c)
      modifies grid
      ensures Valid()
      ensures newGem.At() == c && newGem.typeIndex == old(At(Snap(grid), c)).value.typeIndex
      ensures newGem.special == HorizontalLine || newGem.special == VerticalLine
      ensures Snap(grid) == Put(old(Snap(grid)), c, Some(newGem))
    {
      ghost var g := Snap(grid);
      var newType: SpecialGemType :| newType == HorizontalLine || newType == VerticalLine;
      newGem := Tile(grid[c.x, c.y].value.typeIndex, newType, c.x, c.y);
      grid[c.x, c.y] := Some(newGem);
      GridEqAt(Snap(grid), Put(g, c, Some(newGem)));
    }

    /**
     * The first half of a ProcessMatches pass: the activation phase fixes the
     * tiles to destroy, and the transform choice may keep one of them, which
     * becomes a line tile in place.
     */
    method PlanRound(process: seq<Pos>, first: bool, clicked: Option<Pos>)
      returns (destroyList: seq<Pos>, ghost activated: set<Pos>, ghost destroyed: set<Pos>, ghost newGem: Option<Tile>)
      requires Valid()
      requires forall p :: p in process ==> Occupied(Snap(grid), p)
      modifies grid
      ensures Valid()
      ensures RoundPlan(old(Snap(grid)), process, first, clicked, activated, destroyed, newGem)
      ensures Snap(grid) == Placed(old(Snap(grid)), newGem)
      ensures Distinct(destroyList) && Elems(destroyList) == destroyed
    {
      ghost var g0 := Snap(grid);
      var gemsToDestroy := ResolveActivations(process);
      activated := gemsToDestroy;
      var gemToTransform := ChooseGemToTransform(process, first, clicked);
      TransformChoiceIsLarge(g0, process, first, clicked);
      newGem := None;
      if gemToTransform.Some? {
        gemsToDestroy := gemsToDestroy - {gemToTransform.value};
        var t := TransformGem(gemToTransform.value);
        newGem := Some(t);
      }
      destroyed := gemsToDestroy;
      destroyList := ListOf(gemsToDestroy);
    }

    /**
     * One pass of the ProcessMatches loop: the planned tiles are cleared and
     * scored, the board falls and is refilled, and the matches of the new
     * board are the next pass's cells.
     */
    method CascadeRound(process: seq<Pos>, first: bool, clicked: Option<Pos>)
      returns (next: seq<Pos>, ghost activated: set<Pos>, ghost destroyed: set<Pos>, ghost newGem: Option<Tile>)
      requires Valid()
      requires forall p :: p in process ==> Occupied(Snap(grid), p)
      modifies grid, gameManager
      ensures Valid()
      ensures RoundPlan(old(Snap(grid)), process, first, clicked, activated, destroyed, newGem)
      ensures RefillOf(Compacted(Cleared(Placed(old(Snap(grid)), newGem), destroyed)), Snap(grid))
      ensures gameManager.currentScore == old(gameManager.currentScore) +
        if old(gameManager.isGameOver) then 0 else 10 * |destroyed|
      ensures gameManager.currentMoves == old(gameManager.currentMoves)
      ensures gameManager.isGameOver == old(gameManager.isGameOver)
      ensures gameManager.highScore == old(gameManager.highScore)
      ensures IsFull(Snap(grid))
      ensures Distinct(next) && Elems(next) == MatchCells(Snap(grid))
    {
      ghost var g0 := Snap(grid);
      var destroyList;
      destroyList, activated, destroyed, newGem := PlanRound(process, first, clicked);
      ghost var g1 := Snap(grid);
      DestroyedAllOccupied(g0, process, first, clicked, activated, destroyed, newGem);
      ClearAndRefill(destroyList);
      ClearedKeepsInvariants(g1, destroyed);
      CompactedCoherent(Cleared(g1, destroyed));
      CompactedTypesInRange(Cleared(g1, destroyed));
      RefillIsFull(Compacted(Cleared(g1, destroyed)), Snap(grid));
      next := FindAllMatches();
    }

    /**
     * The cascade: passes run while the previous pass left matches, the
     * swiped tile taking precedence only in the first pass. The loop is
     * bounded by maxRounds passes; settled reports that it ended because no
     * match was left.
     */
    method ProcessMatches(initialMatches: seq<Pos>, clickedGem: Option<Pos>, maxRounds: nat)
      returns (settled: bool)
      requires Valid()
      requires forall p :: p in initialMatches ==> Occupied(Snap(grid), p)
      modifies grid, gameManager
      ensures Valid()
      ensures initialMatches == [] ==> settled && Snap(grid) == old(Snap(grid))
      ensures settled && initialMatches != [] ==> IsFull(Snap(grid)) && MatchCells(Snap(grid)) == {}
      ensures old(gameManager.isGameOver) || initialMatches == [] ==>
        gameManager.currentScore == old(gameManager.currentScore)
      ensures gameManager.currentScore >= old(gameManager.currentScore)
      ensures gameManager.currentMoves == old(gameManager.currentMoves)
      ensures gameManager.isGameOver == old(gameManager.isGameOver)
      ensures gameManager.highScore == old(gameManager.highScore)
    {
      var gemsToProcess := initialMatches;
      var firstIteration := true;
      var rounds := 0;
      while |gemsToProcess| > 0 && rounds < maxRounds
        invariant Valid()
        invariant forall p :: p in gemsToProcess ==> Occupied(Snap(grid), p)
        invariant firstIteration ==> gemsToProcess == initialMatches && Snap(grid) == old(Snap(grid))
        invariant initialMatches == [] ==> firstIteration
        invariant !firstIteration ==> IsFull(Snap(grid)) && Elems(gemsToProcess) == MatchCells(Snap(grid))
        invariant old(gameManager.isGameOver) || firstIteration ==>
          gameManager.currentScore == old(gameManager.currentScore)
        invariant gameManager.currentScore >= old(gameManager.currentScore)
        invariant gameManager.currentMoves == old(gameManager.currentMoves)
        invariant gameManager.isGameOver == old(gameManager.isGameOver)
        invariant gameManager.highScore == old(gameManager.highScore)
        decreases maxRounds - rounds
      {
        ghost var activated, destroyed, newGem;
        gemsToProcess, activated, destroyed, newGem := CascadeRound(gemsToProcess, firstIteration, clickedGem);
        MatchCellsOrdinary(Snap(grid));
        assert forall p :: p in gemsToProcess ==> p in Elems(gemsToProcess);
        firstIteration := false;
        rounds := rounds + 1;
      }
      settled := |gemsToProcess| == 0;
    }

    /** The tiles at a and b trade cells, each taking its new coordinate. */
    method SwapTiles(a: Pos, b: Pos)
      requires Valid() && a != b
      requires InBounds(Snap(grid), a) && InBounds(Snap(grid), b)
      requires Occupied(Snap(grid), a) && Occupied(Snap(grid), b)
      modifies grid
      ensures Valid()
      ensures Snap(grid) == SwapCells(old(Snap(grid)), a, b)
    {
      ghost var g := Snap(grid);
      var gemA, gemB := grid[a.x, a.y].value, grid[b.x, b.y].value;
      grid[a.x, a.y] := Some(gemB.MovedTo(a.x, a.y));
      grid[b.x, b.y] := Some(gemA.MovedTo(b.x, b.y));
      GridEqAt(Snap(grid), SwapCells(g, a, b));
    }

    /**
     * The cells SwapGemsCoroutine hands to the cascade after the swap: the
     * matches of the new board, then the swiped tile now at p2 and the one
     * now at p1 when they are special. Matched cells hold ordinary tiles, so
     * the list has no repetition to remove.
     */
    method SwipedCells(p1: Pos, p2: Pos) returns (gemsToProcess: seq<Pos>)
      requires Valid() && p1 != p2
      requires Occupied(Snap(grid), p1) && Occupied(Snap(grid), p2)
      ensures Distinct(gemsToProcess)
      ensures forall p :: p in gemsToProcess ==> Occupied(Snap(grid), p)
      ensures forall p :: p in gemsToProcess <==>
        p in MatchCells(Snap(grid)) || (p == p1 && IsSpecialAt(Snap(grid), p1)) ||
        (p == p2 && IsSpecialAt(Snap(grid), p2))
    {
      var allFoundMatches := FindAllMatches();
      var specialGemsSwiped := [];
      if grid[p2.x, p2.y].value.special != NoSpecial {
        specialGemsSwiped := specialGemsSwiped + [p2];
      }
      if grid[p1.x, p1.y].value.special != NoSpecial {
        specialGemsSwiped := specialGemsSwiped + [p1];
      }
      MatchCellsOrdinary(Snap(grid));
      assert forall p :: p in allFoundMatches <==> p in Elems(allFoundMatches);
      DistinctAppend(allFoundMatches, specialGemsSwiped);
      gemsToProcess := allFoundMatches + specialGemsSwiped;
    }

    /**
     * The board part of SwapGemsCoroutine: the two tiles trade cells; the
     * swap stands when the new board has a match or a swiped tile is special,
     * in which case a move is spent and the cascade runs with the swiped tile
     * first; otherwise both tiles go back.
     */
    method ResolveSwap(p1: Pos, p2: Pos, maxRounds: nat) returns (accepted: bool, settled: bool)
      requires Valid() && Adjacent(p1, p2)
      requires InBounds(Snap(grid), p1) && InBounds(Snap(grid), p2)
      requires Occupied(Snap(grid), p1) && Occupied(Snap(grid), p2)
      modifies grid, gameManager
      ensures Valid()
      ensures accepted == AcceptsSwap(old(Snap(grid)), p1, p2)
      ensures !accepted ==>
        (settled && Snap(grid) == old(Snap(grid)) &&
         gameManager.currentScore == old(gameManager.currentScore) &&
         gameManager.currentMoves == old(gameManager.currentMoves))
      ensures accepted ==>
        (gameManager.currentMoves == MovesAfterTurn(old(gameManager.currentMoves), old(gameManager.isGameOver)) &&
         gameManager.currentScore >= old(gameManager.currentScore) &&
         (settled ==> IsFull(Snap(grid)) && MatchCells(Snap(grid)) == {}))
      ensures gameManager.isGameOver == old(gameManager.isGameOver)
      ensures gameManager.highScore == old(gameManager.highScore)
    {
      ghost var g0 := Snap(grid);
      SwapTiles(p1, p2);
      var gemsToProcess := SwipedCells(p1, p2);
      SwipedMeansAccepted(g0, Snap(grid), p1, p2, gemsToProcess);
      if |gemsToProcess| > 0 {
        accepted := true;
        gameManager.DecreaseMoves();
        settled := ProcessMatches(gemsToProcess, Some(p2), maxRounds);
      } else {
        accepted := false;
        SwapTiles(p1, p2);
        SwapCellsTwice(g0, p1, p2);
        settled := true;
      }
    }

    /** The generation pass: CreateGem on every cell, column by column, bottom to top. */
    method FillBoard()
      requires Valid()
      modifies grid
      ensures Valid()
      ensures forall q :: InBounds(Snap(grid), q) ==> FreshTile(Snap(grid), q)
    {
      var x := 0;
      while x < width
        invariant 0 <= x <= width && Valid()
        invariant FilledUpTo(Snap(grid), x, 0)
      {
        var y := 0;
        while y < height
          invariant 0 <= y <= height && Valid()
          invariant FilledUpTo(Snap(grid), x, y)
        {
          ghost var r := Snap(grid);
          CreateGem(x, y);
          FillStep(r, Snap(grid), x, y);
          y := y + 1;
        }
        x := x + 1;
      }
      assert forall q :: InBounds(Snap(grid), q) ==> ScannedBefore(q, width, 0);
    }

    /**
     * Start-up generation: fill the board, and while the flood fill finds a
     * match, clear it and fill it again, at most maxAttempts times; then the
     * move list is rebuilt, which may start a shuffle.
     */
    method InitializeBoard(maxAttempts: nat) returns (generated: bool)
      requires Valid()
      modifies this, grid, hintManager
      ensures Valid()
      ensures generated && !isProcessing ==>
        && IsFull(Snap(grid)) && MatchCells(Snap(grid)) == {}
        && (forall m :: m in hintManager.allValidMoves <==> IsRecordedMove(Snap(grid), m))
      ensures !generated ==> isProcessing == old(isProcessing)
    {
      FillBoard();
      var matches := FindAllMatches();
      var attempts := 0;
      while |matches| > 0 && attempts < maxAttempts
        invariant Valid() && isProcessing == old(isProcessing)
        invariant forall q :: InBounds(Snap(grid), q) ==> FreshTile(Snap(grid), q)
        invariant Elems(matches) == MatchCells(Snap(grid))
        decreases maxAttempts - attempts
      {
        ClearBoard();
        FillBoard();
        matches := FindAllMatches();
        attempts := attempts + 1;
      }
      generated := |matches| == 0;
      if !generated {
        return;
      }
      assert Elems(matches) == {};
      FreshIsFull(Snap(grid));
      var shuffleRequested := hintManager.FindAllValidMoves(grid, gameManager);
      if shuffleRequested {
        ShuffleBoard(maxAttempts);
      }
    }

    /**
     * The regeneration loop of ShuffleBoardCoroutine: fill the board; stop
     * when the flood fill finds no match, otherwise clear and retry, at most
     * maxAttempts times.
     */
    method RegenerateBoard(maxAttempts: nat) returns (generated: bool)
      requires Valid()
      modifies grid
      ensures Valid()
      ensures generated ==>
        (forall q :: InBounds(Snap(grid), q) ==> FreshTile(Snap(grid), q)) && MatchCells(Snap(grid)) == {}
    {
      generated := false;
      var attempts := 0;
      while attempts < maxAttempts
        invariant Valid() && !generated
        decreases maxAttempts - attempts
      {
        FillBoard();
        var matches := FindAllMatches();
        if |matches| == 0 {
          assert Elems(matches) == {};
          generated := true;
          break;
        }
        ClearBoard();
        attempts := attempts + 1;
      }
    }

    /** The special tiles' saved data, read column by column, bottom to top. */
    method PreserveSpecials() returns (preservedGems: seq<PreservedGemData>)
      requires Valid()
      ensures preservedGems == SpecialsAt(Snap(grid), AllPositions(width, height))
    {
      preservedGems := [];
      for x := 0 to width
        invariant preservedGems == SpecialsAt(Snap(grid), AllPositions(x, height))
      {
        var column := PreserveColumn(x);
        preservedGems := preservedGems + column;
        SpecialsAtNextColumn(Snap(grid), x, height);
      }
    }

    /** One column of that scan, bottom to top. */
    method PreserveColumn(x: int) returns (column: seq<PreservedGemData>)
      requires Valid() && 0 <= x < width
      ensures column == SpecialsAt(Snap(grid), ColumnCells(x, height))
    {
      ghost var g := Snap(grid);
      column := [];
      for y := 0 to height
        invariant column == SpecialsAt(g, ColumnCells(x, y))
      {
        SpecialsAtColumnStep(g, x, y);
        var cell := grid[x, y];
        assert cell == At(g, Pos(x, y));
        if cell.Some? && cell.value.special != NoSpecial {
          column := column + [PreservedGemData(cell.value.typeIndex, cell.value.special)];
        }
      }
    }

    /** allPositions: every cell, column by column, bottom to top. */
    method BuildPositions() returns (allPositions: seq<Pos>)
      ensures allPositions == AllPositions(width, height)
    {
      allPositions := [];
      for x := 0 to width
        invariant allPositions == AllPositions(x, height)
      {
        for y := 0 to height
          invariant allPositions == AllPositions(x, height) + ColumnCells(x, y)
        {
          allPositions := allPositions + [Pos(x, y)];
          assert ColumnCells(x, y + 1) == ColumnCells(x, y) + [Pos(x, y)];
        }
        assert ColumnCells(x, 0) == [];
      }
    }

    /** The Fisher-Yates pass: position i is exchanged with a random position in [i, n). */
    method ShufflePositions(allPositions: seq<Pos>) returns (shuffled: seq<Pos>)
      ensures |shuffled| == |allPositions|
      ensures multiset(shuffled) == multiset(allPositions)
    {
      shuffled := allPositions;
      for i := 0 to |allPositions|
        invariant |shuffled| == |allPositions|
        invariant multiset(shuffled) == multiset(allPositions)
      {
        assert i <= i < |shuffled|;
        var randomIndex :| i <= randomIndex < |shuffled|;
        var temp := shuffled[i];
        shuffled := shuffled[i := shuffled[randomIndex]][randomIndex := temp];
      }
    }

    /** Writes one tile into its own cell; nothing else changes. */
    method PutGem(tile: Tile)
      requires Valid() && InBounds(Snap(grid), tile.At()) && 0 <= tile.typeIndex < ActiveTypes
      modifies grid
      ensures Valid()
      ensures Snap(grid) == Put(old(Snap(grid)), tile.At(), Some(tile))
    {
      ghost var g := Snap(grid);
      grid[tile.x, tile.y] := Some(tile);
      GridEqAt(Snap(grid), Put(g, tile.At(), Some(tile)));
    }

    /**
     * The restoring pass: the i-th saved special tile replaces the tile at the
     * i-th shuffled position, keeping its type; the kind is horizontal when
     * the saved kind is, and vertical otherwise.
     */
    method PlaceSpecials(preservedGems: seq<PreservedGemData>, allPositions: seq<Pos>)
      requires Valid() && IsFull(Snap(grid)) && MatchCells(Snap(grid)) == {}
      requires forall q :: InBounds(Snap(grid), q) ==> IsOrdinaryAt(Snap(grid), q)
      requires multiset(allPositions) == multiset(AllPositions(width, height))
      requires |preservedGems| <= |allPositions|
      requires forall d :: d in preservedGems ==> d.specialType != NoSpecial && 0 <= d.typeIndex < ActiveTypes
      modifies grid
      ensures Valid() && IsFull(Snap(grid)) && MatchCells(Snap(grid)) == {}
      ensures PlacedUpTo(Snap(grid), preservedGems, allPositions, |preservedGems|)
      ensures forall q :: q !in allPositions[..|preservedGems|] ==> At(Snap(grid), q) == At(old(Snap(grid)), q)
      ensures multiset(SpecialsAt(Snap(grid), AllPositions(width, height))) == multiset(preservedGems)
    {
      ShuffledCells(allPositions, width, height);
      ghost var g0 := Snap(grid);
      var i := 0;
      while i < |preservedGems| && i < |allPositions|
        invariant 0 <= i <= |preservedGems|
        invariant Valid() && IsFull(Snap(grid)) && MatchCells(Snap(grid)) == {}
        invariant PlacedUpTo(Snap(grid), preservedGems, allPositions, i)
        invariant forall q :: q !in allPositions[..i] ==> At(Snap(grid), q) == At(g0, q)
      {
        var data := preservedGems[i];
        var pos := allPositions[i];
        var special := if data.specialType == HorizontalLine then HorizontalLine else VerticalLine;
        ghost var r := Snap(grid);
        PlaceSpecialShrinks(r, pos, Tile(data.typeIndex, special, pos.x, pos.y));
        PutGem(Tile(data.typeIndex, special, pos.x, pos.y));
        PlacedStep(r, Snap(grid), preservedGems, allPositions, i);
        assert allPositions[..i + 1] == allPositions[..i] + [pos];
        i := i + 1;
      }
      PlacedAll(Snap(grid), preservedGems, allPositions, width, height);
    }

    /**
     * The restoring step of the shuffle: when special tiles were saved, the
     * cell list is built, shuffled, and the saved tiles are placed at its
     * first cells.
     */
    method RestoreSpecials(preservedGems: seq<PreservedGemData>)
      requires Valid() && IsFull(Snap(grid)) && MatchCells(Snap(grid)) == {}
      requires forall q :: InBounds(Snap(grid), q) ==> IsOrdinaryAt(Snap(grid), q)
      requires |preservedGems| <= width * height
      requires forall d :: d in preservedGems ==> d.specialType != NoSpecial && 0 <= d.typeIndex < ActiveTypes
      modifies grid
      ensures Valid() && IsFull(Snap(grid)) && MatchCells(Snap(grid)) == {}
      ensures multiset(SpecialsAt(Snap(grid), AllPositions(width, height))) == multiset(preservedGems)
      ensures |preservedGems| == 0 ==> Snap(grid) == old(Snap(grid))
      ensures |preservedGems| > 0 ==>
        exists ps :: multiset(ps) == multiset(AllPositions(width, height)) && |preservedGems| <= |ps| &&
          PlacedUpTo(Snap(grid), preservedGems, ps, |preservedGems|) &&
          forall q :: q !in ps[..|preservedGems|] ==> At(Snap(grid), q) == At(old(Snap(grid)), q)
    {
      if |preservedGems| > 0 {
        var allPositions := BuildPositions();
        AllPositionsSpec(width, height);
        allPositions := ShufflePositions(allPositions);
        PlaceSpecials(preservedGems, allPositions);
      } else {
        SpecialsAtOrdinary(Snap(grid), AllPositions(width, height));
      }
    }

    /**
     * GameManager's entry to the shuffle: ignored while the board is busy,
     * otherwise the shuffle runs.
     */
    method ShuffleBoard(maxAttempts: nat)
      requires Valid()
      modifies this, grid, hintManager
      ensures Valid()
      ensures old(isProcessing) ==>
        isProcessing && Snap(grid) == old(Snap(grid)) &&
        hintManager.allValidMoves == old(hintManager.allValidMoves) &&
        hintManager.currentHint == old(hintManager.currentHint)
      ensures !old(isProcessing) && !isProcessing ==> ShuffleOutcome(old(Snap(grid)), Snap(grid), width, height)
      ensures !old(isProcessing) && !isProcessing ==>
        forall m :: m in hintManager.allValidMoves <==> IsRecordedMove(Snap(grid), m)
      decreases if isProcessing then 0 else 2
    {
      if isProcessing {
        return;
      }
      ShuffleBoardCoroutine(maxAttempts);
    }

    /**
     * The shuffle: save the special tiles, regenerate a board without
     * matches, put the saved special tiles back at random cells and rebuild
     * the move list. While regeneration is still retrying when the attempts
     * run out, the board stays busy.
     */
    method ShuffleBoardCoroutine(maxAttempts: nat)
      requires Valid()
      modifies this, grid, hintManager
      ensures Valid()
      ensures !isProcessing ==> ShuffleOutcome(old(Snap(grid)), Snap(grid), width, height)
      ensures !isProcessing ==> forall m :: m in hintManager.allValidMoves <==> IsRecordedMove(Snap(grid), m)
      decreases 1
    {
      isProcessing := true;
      ghost var g := Snap(grid);
      var preservedGems := PreserveSpecials();
      SpecialsAtTypes(g, AllPositions(width, height));
      AllPositionsSpec(width, height);
      ClearBoard();
      var generated := RegenerateBoard(maxAttempts);
      if !generated {
        return;
      }
      FreshIsFull(Snap(grid));
      RestoreSpecials(preservedGems);
      var shuffleRequested := hintManager.FindAllValidMoves(grid, gameManager);
      if shuffleRequested {
        ShuffleBoard(maxAttempts);
      }
      isProcessing := false;
    }

    /**
     * The player's swipe of the tile at p1 onto its neighbour p2: ignored
     * while the board is busy or the game is over, otherwise the swap runs.
     */
    method SwapGems(p1: Pos, p2: Pos, maxRounds: nat, maxAttempts: nat)
      requires Valid() && Adjacent(p1, p2)
      requires InBounds(Snap(grid), p1) && InBounds(Snap(grid), p2)
      requires Occupied(Snap(grid), p1) && Occupied(Snap(grid), p2)
      modifies this, grid, gameManager, hintManager
      ensures Valid()
      ensures old(isProcessing) || old(gameManager.isGameOver) ==>
        && isProcessing == old(isProcessing) && Snap(grid) == old(Snap(grid))
        && gameManager.currentScore == old(gameManager.currentScore)
        && gameManager.currentMoves == old(gameManager.currentMoves)
        && gameManager.isGameOver == old(gameManager.isGameOver)
      ensures !old(isProcessing) && !old(gameManager.isGameOver) && AcceptsSwap(old(Snap(grid)), p1, p2) ==>
        gameManager.currentMoves == MovesAfterTurn(old(gameManager.currentMoves), false) &&
        gameManager.currentScore >= old(gameManager.currentScore)
      ensures !AcceptsSwap(old(Snap(grid)), p1, p2) ==>
        gameManager.currentMoves == old(gameManager.currentMoves) &&
        gameManager.currentScore == old(gameManager.currentScore)
      ensures !old(isProcessing) && !old(gameManager.isGameOver) && !isProcessing ==>
        && gameManager.isGameOver == (gameManager.currentMoves <= 0)
        && (AcceptsSwap(old(Snap(grid)), p1, p2) ==> IsFull(Snap(grid)) && MatchCells(Snap(grid)) == {})
        && (!gameManager.isGameOver ==>
              forall m :: m in hintManager.allValidMoves <==> IsRecordedMove(Snap(grid), m))
    {
      if isProcessing {
        return;
      }
      var over := gameManager.IsGameOver();
      if over {
        return;
      }
      SwapGemsCoroutine(p1, p2, maxRounds, maxAttempts);
    }

    /**
     * The swap and what follows it: the swap is resolved (kept and cascaded,
     * or reverted), the game-over test runs and, while the game goes on, the
     * move list is rebuilt, which may start a shuffle. The board stays busy
     * when the cascade is still running as the round budget runs out.
     */
    method SwapGemsCoroutine(p1: Pos, p2: Pos, maxRounds: nat, maxAttempts: nat)
      requires Valid() && Adjacent(p1, p2)
      requires InBounds(Snap(grid), p1) && InBounds(Snap(grid), p2)
      requires Occupied(Snap(grid), p1) && Occupied(Snap(grid), p2)
      modifies this, grid, gameManager, hintManager
      ensures Valid()
      ensures AcceptsSwap(old(Snap(grid)), p1, p2) ==>
        gameManager.currentMoves == MovesAfterTurn(old(gameManager.currentMoves), old(gameManager.isGameOver)) &&
        gameManager.currentScore >= old(gameManager.currentScore)
      ensures !AcceptsSwap(old(Snap(grid)), p1, p2) ==>
        gameManager.currentMoves == old(gameManager.currentMoves) &&
        gameManager.currentScore == old(gameManager.currentScore)
      ensures !isProcessing ==>
        && gameManager.isGameOver == (old(gameManager.isGameOver) || gameManager.currentMoves <= 0)
        && (AcceptsSwap(old(Snap(grid)), p1, p2) ==> IsFull(Snap(grid)) && MatchCells(Snap(grid)) == {})
        && (!gameManager.isGameOver ==>
              forall m :: m in hintManager.allValidMoves <==> IsRecordedMove(Snap(grid), m))
    {
      isProcessing := true;
      var accepted, settled := ResolveSwap(p1, p2, maxRounds);
      if !settled {
        return;
      }
      gameManager.CheckForGameOver();
      isProcessing := false;
      var over := gameManager.IsGameOver();
      if !over {
        var shuffleRequested := hintManager.FindAllValidMoves(grid, gameManager);
        if shuffleRequested {
          ShuffleBoard(maxAttempts);
        }
      }
    }
  }

  /**
   * A finished shuffle: a full board without matches holding the same
   * special tiles, by type and kind, as the board before it.
   */
  ghost predicate ShuffleOutcome(g: Grid, r: Grid, w: nat, h: nat)
  {
    && IsFull(r) && MatchCells(r) == {}
    && multiset(SpecialsAt(r, AllPositions(w, h))) == multiset(SpecialsAt(g, AllPositions(w, h)))
  }

  /** The first i saved tiles sit at the first i positions; the later positions hold ordinary tiles. */
  ghost predicate PlacedUpTo(r: Grid, data: seq<PreservedGemData>, ps: seq<Pos>, i: int)
    requires 0 <= i <= |data| <= |ps|
  {
    && (forall j :: 0 <= j < i ==>
          At(r, ps[j]) == Some(Tile(data[j].typeIndex, data[j].specialType, ps[j].x, ps[j].y)))
    && (forall j :: i <= j < |ps| ==> IsOrdinaryAt(r, ps[j]))
  }

  /** A shuffled cell list is a duplicate-free list of the board's cells. */
  lemma ShuffledCells(ps: seq<Pos>, w: nat, h: nat)
    requires multiset(ps) == multiset(AllPositions(w, h))
    ensures Distinct(ps)
    ensures forall p :: p in ps <==> 0 <= p.x < w && 0 <= p.y < h
  {
    AllPositionsSpec(w, h);
    var all := AllPositions(w, h);
    forall p
      ensures p in ps <==> p in all
    {
      assert p in ps <==> p in multiset(ps);
      assert p in all <==> p in multiset(all);
    }
    forall i, j | 0 <= i < j < |ps|
      ensures ps[i] != ps[j]
    {
      if ps[i] == ps[j] {
        assert multiset(ps)[ps[i]] >= 2 by {
          MultisetTwo(ps, i, j);
        }
        DistinctCount(all, ps[i]);
        assert false;
      }
    }
  }

  lemma {:induction false} MultisetTwo<T>(s: seq<T>, i: int, j: int)
    requires 0 <= i < j < |s| && s[i] == s[j]
    ensures multiset(s)[s[i]] >= 2
  {
    assert s == s[..i] + [s[i]] + s[i + 1..j] + [s[j]] + s[j + 1..];
  }

  lemma {:induction false} DistinctCount<T>(s: seq<T>, e: T)
    requires Distinct(s)
    ensures multiset(s)[e] <= 1
  {
    if s != [] {
      var init := s[..|s| - 1];
      assert s == init + [s[|s| - 1]];
      assert Distinct(init);
      DistinctCount(init, e);
      if e == s[|s| - 1] {
        assert e !in init;
      }
    }
  }

  /** Placing the i-th saved tile extends the placed prefix. */
  lemma PlacedStep(r: Grid, r2: Grid, data: seq<PreservedGemData>, ps: seq<Pos>, i: int)
    requires 0 <= i < |data| <= |ps| && Distinct(ps) && InBounds(r, ps[i])
    requires PlacedUpTo(r, data, ps, i)
    requires data[i].specialType != NoSpecial
    requires r2 == Put(r, ps[i], Some(Tile(data[i].typeIndex,
      if data[i].specialType == HorizontalLine then HorizontalLine else VerticalLine, ps[i].x, ps[i].y)))
    requires forall j :: 0 <= j < |ps| ==> InBounds(r, ps[j])
    ensures PlacedUpTo(r2, data, ps, i + 1)
  {
  }

  /** Once every saved tile is placed, reading the board's specials gives back the saved data. */
  lemma PlacedAll(r: Grid, data: seq<PreservedGemData>, ps: seq<Pos>, w: nat, h: nat)
    requires |data| <= |ps| && PlacedUpTo(r, data, ps, |data|)
    requires forall d :: d in data ==> d.specialType != NoSpecial
    requires multiset(ps) == multiset(AllPositions(w, h))
    ensures multiset(SpecialsAt(r, AllPositions(w, h))) == multiset(data)
  {
    var k := |data|;
    assert ps == ps[..k] + ps[k..];
    SpecialsAtConcat(r, ps[..k], ps[k..]);
    SpecialsAtPlaced(r, data, ps[..k]);
    SpecialsAtOrdinary(r, ps[k..]);
    SpecialsAtPermutation(r, AllPositions(w, h), ps);
  }

  lemma {:induction false} SpecialsAtPlaced(r: Grid, data: seq<PreservedGemData>, ps: seq<Pos>)
    requires |data| == |ps|
    requires forall j :: 0 <= j < |ps| ==>
      At(r, ps[j]) == Some(Tile(data[j].typeIndex, data[j].specialType, ps[j].x, ps[j].y))
    requires forall d :: d in data ==> d.specialType != NoSpecial
    ensures SpecialsAt(r, ps) == data
  {
    if ps != [] {
      var n := |ps| - 1;
      SpecialsAtPlaced(r, data[..n], ps[..n]);
      assert data[n] in data;
      assert data == data[..n] + [data[n]];
    }
  }

  /** Reading one more cell appends that cell's saved data, if it holds a special tile. */
  lemma SpecialsAtSnoc(g: Grid, ps: seq<Pos>, p: Pos)
    ensures SpecialsAt(g, ps + [p]) == SpecialsAt(g, ps) +
      (if IsSpecialAt(g, p) then [PreservedGemData(At(g, p).value.typeIndex, At(g, p).value.special)] else [])
  {
    assert (ps + [p])[..|ps|] == ps;
  }

  /** The scan of column x reaching row y + 1 reads cell (x, y) last. */
  lemma SpecialsAtColumnStep(g: Grid, x: int, y: nat)
    ensures SpecialsAt(g, ColumnCells(x, y + 1)) == SpecialsAt(g, ColumnCells(x, y)) +
      (if IsSpecialAt(g, Pos(x, y))
       then [PreservedGemData(At(g, Pos(x, y)).value.typeIndex, At(g, Pos(x, y)).value.special)]
       else [])
  {
    assert ColumnCells(x, y + 1) == ColumnCells(x, y) + [Pos(x, y)];
    SpecialsAtSnoc(g, ColumnCells(x, y), Pos(x, y));
  }

  /** Scanning one more column appends that column's saved data. */
  lemma SpecialsAtNextColumn(g: Grid, x: nat, h: nat)
    ensures SpecialsAt(g, AllPositions(x + 1, h)) == SpecialsAt(g, AllPositions(x, h)) + SpecialsAt(g, ColumnCells(x, h))
  {
    SpecialsAtConcat(g, AllPositions(x, h), ColumnCells(x, h));
  }

  /** Cells without special tiles contribute nothing to the saved data. */
  lemma {:induction false} SpecialsAtOrdinary(r: Grid, ps: seq<Pos>)
    requires forall p :: p in ps ==> !IsSpecialAt(r, p)
    ensures SpecialsAt(r, ps) == []
  {
    if ps != [] {
      SpecialsAtOrdinary(r, ps[..|ps| - 1]);
    }
  }

  /** Saved data read from a board whose types are in range has types in range. */
  lemma SpecialsAtTypes(g: Grid, ps: seq<Pos>)
    requires TypesInRange(g)
    ensures forall d :: d in SpecialsAt(g, ps) ==> 0 <= d.typeIndex < ActiveTypes
  {
    if ps != [] {
      SpecialsAtTypes(g, ps[..|ps| - 1]);
    }
  }

  /** Cells scanned before (x, y) hold fresh tiles. */
  ghost predicate FilledUpTo(r: Grid, x: int, y: int)
  {
    forall q :: InBounds(r, q) && ScannedBefore(q, x, y) ==> FreshTile(r, q)
  }

  /** A fresh tile stays fresh when a cell scanned after it changes. */
  lemma FreshTileStable(r: Grid, r2: Grid, q: Pos, p: Pos)
    requires FreshTile(r, q) && ScannedBefore(q, p.x, p.y)
    requires SameShape(r2, r) && forall c :: InBounds(r, c) && c != p ==> At(r2, c) == At(r, c)
    ensures FreshTile(r2, q)
  {
    var cells := [q, Pos(q.x - 1, q.y), Pos(q.x - 2, q.y), Pos(q.x, q.y - 1), Pos(q.x, q.y - 2)];
    forall c | c in cells
      ensures At(r2, c) == At(r, c)
    {
    }
  }

  /** Creating the tile at (x, y) extends the filled prefix by one cell. */
  lemma FillStep(r: Grid, r2: Grid, x: int, y: int)
    requires FilledUpTo(r, x, y) && InBounds(r, Pos(x, y))
    requires SameShape(r2, r) && forall q :: InBounds(r, q) && q != Pos(x, y) ==> At(r2, q) == At(r, q)
    requires FreshTile(r2, Pos(x, y))
    ensures FilledUpTo(r2, x, y + 1)
  {
    forall q | InBounds(r2, q) && ScannedBefore(q, x, y + 1)
      ensures FreshTile(r2, q)
    {
      if q != Pos(x, y) {
        FreshTileStable(r, r2, q, Pos(x, y));
      }
    }
  }

  /** A board of fresh tiles is full of ordinary tiles. */
  lemma FreshIsFull(r: Grid)
    requires forall q :: InBounds(r, q) ==> FreshTile(r, q)
    ensures IsFull(r)
    ensures forall q :: InBounds(r, q) ==> IsOrdinaryAt(r, q)
  {
    forall x, y | 0 <= x < |r| && 0 <= y < |r[x]|
      ensures r[x][y].Some?
    {
      assert FreshTile(r, Pos(x, y));
    }
  }

  /** The swap stands exactly when the cells handed to the cascade are not empty. */
  lemma SwipedMeansAccepted(g0: Grid, g1: Grid, p1: Pos, p2: Pos, gemsToProcess: seq<Pos>)
    requires InBounds(g0, p1) && InBounds(g0, p2) && Occupied(g0, p1) && Occupied(g0, p2) && p1 != p2
    requires g1 == SwapCells(g0, p1, p2)
    requires forall p :: p in gemsToProcess <==>
      p in MatchCells(g1) || (p == p1 && IsSpecialAt(g1, p1)) || (p == p2 && IsSpecialAt(g1, p2))
    ensures (|gemsToProcess| > 0) == AcceptsSwap(g0, p1, p2)
  {
    assert IsSpecialAt(g1, p2) == IsSpecialAt(g0, p1) && IsSpecialAt(g1, p1) == IsSpecialAt(g0, p2);
    if |gemsToProcess| > 0 {
      assert gemsToProcess[0] in gemsToProcess;
    }
    if MatchCells(g1) != {} {
      var q :| q in MatchCells(g1);
      assert q in gemsToProcess;
    }
    if IsSpecialAt(g1, p1) {
      assert p1 in gemsToProcess;
    }
    if IsSpecialAt(g1, p2) {
      assert p2 in gemsToProcess;
    }
  }

  /**
   * What a ProcessMatches pass decides on board g0: activated is the
   * activation closure of the pass's cells; when the transform choice names
   * a tile, it is left out of the destroyed tiles and a line tile of its
   * type takes its cell.
   */
  ghost predicate RoundPlan(g0: Grid, process: seq<Pos>, first: bool, clicked: Option<Pos>,
                            activated: set<Pos>, destroyed: set<Pos>, newGem: Option<Tile>)
  {
    var choice := TransformChoice(g0, process, first, clicked);
    && IsActivationOf(g0, Elems(process), activated)
    && (forall q :: q in activated ==> Occupied(g0, q))
    && (choice.None? ==> destroyed == activated && newGem.None?)
    && (choice.Some? ==>
          && destroyed == activated - {choice.value}
          && newGem.Some? && newGem.value.At() == choice.value
          && IsOrdinaryAt(g0, choice.value)
          && newGem.value.typeIndex == At(g0, choice.value).value.typeIndex
          && newGem.value.special != NoSpecial)
  }

  /**
   * The tiles a round destroys are all on the board, and the new line tile
   * is not among them, so each of them scores.
   */
  lemma DestroyedAllOccupied(g0: Grid, process: seq<Pos>, first: bool, clicked: Option<Pos>,
                             activated: set<Pos>, destroyed: set<Pos>, newGem: Option<Tile>)
    requires RoundPlan(g0, process, first, clicked, activated, destroyed, newGem)
    ensures newGem.Some? ==> InBounds(g0, newGem.value.At())
    ensures forall q :: q in destroyed ==> InBounds(Placed(g0, newGem), q)
    ensures OccupiedIn(Placed(g0, newGem), destroyed) == destroyed
  {
  }

  /** Adding one cell to the removal list adds it to the cleared tiles exactly when it still holds one. */
  lemma OccupiedInStep(g: Grid, E: set<Pos>, p: Pos)
    ensures |OccupiedIn(g, E + {p})| ==
      |OccupiedIn(g, E)| + if p !in E && Occupied(g, p) then 1 else 0
  {
    if p !in E && Occupied(g, p) {
      assert OccupiedIn(g, E + {p}) == OccupiedIn(g, E) + {p};
    } else {
      assert OccupiedIn(g, E + {p}) == OccupiedIn(g, E);
    }
  }

  /** Column x of a board array, bottom to top. */
  ghost function ColumnOf(a: array2<Option<Tile>>, x: int): (col: seq<Option<Tile>>)
    requires 0 <= x < a.Length0
    reads a
    ensures |col| == a.Length1 && forall j :: 0 <= j < a.Length1 ==> col[j] == a[x, j]
  {
    seq(a.Length1, j requires 0 <= j < a.Length1 reads a => a[x, j])
  }

  /**
   * Column compaction after the rows below y, with s the tiles of col below
   * y: rows below |s| hold those tiles moved down in order, rows |s| to
   * y - 1 are empty, rows from y up are untouched, and the remembered empty
   * row is |s|, or -1 while no hole has been seen.
   */
  ghost predicate CompactingColumn(col: seq<Option<Tile>>, x: int, y: int, e: int, s: seq<Tile>, cur: seq<Option<Tile>>)
  {
    && 0 <= y <= |col| && |cur| == |col|
    && s == Survivors(col[..y]) && |s| <= y
    && (forall j :: 0 <= j < |s| ==> cur[j] == Some(s[j].MovedTo(x, j)))
    && (forall j :: |s| <= j < y ==> cur[j] == None)
    && (forall j :: y <= j < |col| ==> cur[j] == col[j])
    && e == if |s| == y then -1 else |s|
  }

  /** One row of the compaction scan, in each of its three cases. */
  lemma CompactingStep(col: seq<Option<Tile>>, x: int, y: int, e: int, s: seq<Tile>, cur: seq<Option<Tile>>)
    requires CompactingColumn(col, x, y, e, s, cur) && y < |col| && ColumnCoherent(col, x)
    ensures cur[y] == col[y]
    ensures col[y].None? ==> CompactingColumn(col, x, y + 1, if e == -1 then y else e, s, cur)
    ensures col[y].Some? && e == -1 ==> CompactingColumn(col, x, y + 1, e, s + [col[y].value], cur)
    ensures col[y].Some? && e != -1 ==>
      (0 <= e < y &&
       CompactingColumn(col, x, y + 1, e + 1, s + [col[y].value],
         cur[y := None][e := Some(col[y].value.MovedTo(x, e))]))
  {
    SurvivorsAppend(col[..y], col[y]);
    assert col[..y + 1] == col[..y] + [col[y]];
  }

  /** At the top of the column the scan has produced the packed column. */
  lemma CompactingDone(col: seq<Option<Tile>>, x: int, e: int, s: seq<Tile>, cur: seq<Option<Tile>>)
    requires CompactingColumn(col, x, |col|, e, s, cur)
    ensures cur == Packed(col, x)
  {
    assert col[..|col|] == col;
  }

  /** A refilled cell: a new ordinary tile of an active type reporting q, completing no run in r. */
  ghost predicate FreshTile(r: Grid, q: Pos)
  {
    && At(r, q).Some?
    && At(r, q).value == Tile(At(r, q).value.typeIndex, NoSpecial, q.x, q.y)
    && 0 <= At(r, q).value.typeIndex < ActiveTypes
    && !CompletesRun(r, q.x, q.y, At(r, q).value.typeIndex)
  }

  /**
   * The refill of g0 has reached cell (x, y) in r: the cells scanned so far
   * that were empty hold fresh tiles, and every other cell is as in g0.
   */
  ghost predicate RefillUpTo(g0: Grid, r: Grid, x: int, y: int)
  {
    && SameShape(r, g0)
    && (forall q :: InBounds(g0, q) && (!ScannedBefore(q, x, y) || Occupied(g0, q)) ==> At(r, q) == At(g0, q))
    && (forall q :: InBounds(g0, q) && ScannedBefore(q, x, y) && !Occupied(g0, q) ==> FreshTile(r, q))
  }

  /**
   * Filling the next empty cell keeps the earlier fresh tiles fresh: the
   * run test of a cell only reads cells scanned before it.
   */
  lemma RefillStepFill(g0: Grid, r: Grid, r2: Grid, x: int, y: int)
    requires RefillUpTo(g0, r, x, y) && InBounds(g0, Pos(x, y)) && At(r, Pos(x, y)).None?
    requires SameShape(r2, r) && forall q :: InBounds(r, q) && q != Pos(x, y) ==> At(r2, q) == At(r, q)
    requires FreshTile(r2, Pos(x, y))
    ensures RefillUpTo(g0, r2, x, y + 1)
  {
    var p := Pos(x, y);
    forall q | InBounds(g0, q) && ScannedBefore(q, x, y + 1) && !Occupied(g0, q)
      ensures FreshTile(r2, q)
    {
      if q != p {
        assert FreshTile(r, q);
        var cells := [Pos(q.x - 1, q.y), Pos(q.x - 2, q.y), Pos(q.x, q.y - 1), Pos(q.x, q.y - 2)];
        forall c | c in cells
          ensures At(r2, c) == At(r, c)
        {
        }
      }
    }
  }

  /** An occupied cell is left as it is. */
  lemma RefillStepSkip(g0: Grid, r: Grid, x: int, y: int)
    requires RefillUpTo(g0, r, x, y) && InBounds(g0, Pos(x, y)) && At(r, Pos(x, y)).Some?
    ensures RefillUpTo(g0, r, x, y + 1)
  {
  }

  lemma RefillNextColumn(g0: Grid, r: Grid, x: int)
    requires 0 <= x < |g0| && RefillUpTo(g0, r, x, |g0[x]|)
    ensures RefillUpTo(g0, r, x + 1, 0)
  {
  }

  lemma RefillDone(g0: Grid, r: Grid)
    requires RefillUpTo(g0, r, |g0|, 0)
    ensures RefillOf(g0, r)
  {
    assert forall q :: InBounds(g0, q) ==> ScannedBefore(q, |g0|, 0);
  }

  /** The start of the first group, in list order, with four or more members. */
  ghost function FirstLargeGroup(groups: seq<seq<Pos>>): (r: Option<Pos>)
  {
    if groups == [] then None
    else
      var r := FirstLargeGroup(groups[..|groups| - 1]);
      var last := groups[|groups| - 1];
      if r.Some? then r else if |last| >= 4 then Some(last[0]) else None
  }

  /** Once a prefix has a large group, later groups do not change the answer. */
  lemma {:induction false} FirstLargeGroupPrefix(groups: seq<seq<Pos>>, n: nat)
    requires n <= |groups| && FirstLargeGroup(groups[..n]).Some?
    ensures FirstLargeGroup(groups) == FirstLargeGroup(groups[..n])
    decreases |groups| - n
  {
    if n < |groups| {
      assert groups[..n + 1][..n] == groups[..n];
      FirstLargeGroupPrefix(groups, n + 1);
    } else {
      assert groups[..n] == groups;
    }
  }

  /** A whole flood-fill group, listed once each from its start. */
  ghost predicate WholeGroup(g: Grid, group: seq<Pos>)
  {
    group != [] && Distinct(group) && Elems(group) == Component(g, group[0])
  }

  /** q lies in the group of one of the first i cells of process. */
  ghost predicate Covered(g: Grid, process: seq<Pos>, i: int, q: Pos)
  {
    exists j :: 0 <= j < i && j < |process| && q in Component(g, process[j])
  }

  /** q is listed in one of the groups. */
  ghost predicate InGroups(groups: seq<seq<Pos>>, q: Pos)
  {
    exists k :: 0 <= k < |groups| && q in groups[k]
  }

  /**
   * The groups collected from the first i cells of process, with V the
   * cells they cover: each group is a whole flood-fill group listed from its
   * start, together they cover the groups of those cells, and the first
   * large group starts at the first large cell.
   */
  ghost predicate GroupsInv(g: Grid, process: seq<Pos>, i: nat, groups: seq<seq<Pos>>, V: set<Pos>)
    requires i <= |process|
  {
    && (forall k :: 0 <= k < |groups| ==> WholeGroup(g, groups[k]))
    && (forall q :: q in V <==> Covered(g, process, i, q))
    && (forall q :: q in V <==> InGroups(groups, q))
    && FirstLargeGroup(groups) == FirstLarge(g, process[..i])
    && (FirstLarge(g, process[..i]).None? ==> forall q :: q in V ==> |Component(g, q)| < 4)
  }

  /** A cell that starts no group: it is special or its group is already covered. */
  lemma GroupsSkip(g: Grid, process: seq<Pos>, i: nat, groups: seq<seq<Pos>>, V: set<Pos>)
    requires i < |process| && GroupsInv(g, process, i, groups, V) && VisitedClosed(g, V)
    requires !IsOrdinaryAt(g, process[i]) || process[i] in V
    ensures GroupsInv(g, process, i + 1, groups, V)
  {
    var p := process[i];
    assert process[..i + 1][..i] == process[..i] && process[..i + 1][i] == p;
    if p in V {
      VisitedHoldsComponent(g, V, p);
    }
    assert Component(g, p) <= V;
    forall q
      ensures q in V <==> Covered(g, process, i + 1, q)
    {
      CoveredStep(g, process, i, q);
    }
  }

  /** Covering one more cell adds exactly that cell's group. */
  lemma CoveredStep(g: Grid, process: seq<Pos>, i: nat, q: Pos)
    requires i < |process|
    ensures Covered(g, process, i + 1, q) <==> Covered(g, process, i, q) || q in Component(g, process[i])
  {
    if Covered(g, process, i + 1, q) {
      var j :| 0 <= j < i + 1 && j < |process| && q in Component(g, process[j]);
      if j < i {
        assert Covered(g, process, i, q);
      }
    }
    if Covered(g, process, i, q) {
      var j :| 0 <= j < i && j < |process| && q in Component(g, process[j]);
      assert Covered(g, process, i + 1, q);
    }
    if q in Component(g, process[i]) {
      assert Covered(g, process, i + 1, q);
    }
  }

  /** Appending a group adds exactly its cells to those listed. */
  lemma InGroupsStep(groups: seq<seq<Pos>>, group: seq<Pos>, q: Pos)
    ensures InGroups(groups + [group], q) <==> InGroups(groups, q) || q in group
  {
    var gs := groups + [group];
    if InGroups(gs, q) {
      var k :| 0 <= k < |gs| && q in gs[k];
      if k < |groups| {
        assert InGroups(groups, q);
      }
    }
    if InGroups(groups, q) {
      var k :| 0 <= k < |groups| && q in groups[k];
      assert gs[k] == groups[k];
    }
    if q in group {
      assert gs[|groups|] == group;
    }
  }

  /** A cell that starts a group: the group is appended and its cells covered. */
  lemma GroupsAdd(g: Grid, process: seq<Pos>, i: nat, groups: seq<seq<Pos>>, V: set<Pos>, group: seq<Pos>)
    requires i < |process| && GroupsInv(g, process, i, groups, V)
    requires IsOrdinaryAt(g, process[i]) && process[i] in Component(g, process[i])
    requires Elems(group) == Component(g, process[i]) && Distinct(group)
    requires group != [] ==> group[0] == process[i]
    ensures GroupsInv(g, process, i + 1, groups + [group], V + Elems(group))
  {
    var p := process[i];
    var gs := groups + [group];
    var W := V + Elems(group);
    assert p in Elems(group);
    GroupsAddWhole(g, groups, group);
    GroupsAddLarge(g, process, i, groups, V, group);
    forall q
      ensures q in W <==> Covered(g, process, i + 1, q)
      ensures q in W <==> InGroups(gs, q)
    {
      CoveredStep(g, process, i, q);
      InGroupsStep(groups, group, q);
    }
  }

  lemma GroupsAddWhole(g: Grid, groups: seq<seq<Pos>>, group: seq<Pos>)
    requires forall k :: 0 <= k < |groups| ==> WholeGroup(g, groups[k])
    requires WholeGroup(g, group)
    ensures forall k :: 0 <= k < |groups + [group]| ==> WholeGroup(g, (groups + [group])[k])
  {
    var gs := groups + [group];
    forall k | 0 <= k < |gs|
      ensures WholeGroup(g, gs[k])
    {
      if k < |groups| {
        assert gs[k] == groups[k];
      }
    }
  }

  /** The first large group and the first large cell advance together. */
  lemma GroupsAddLarge(g: Grid, process: seq<Pos>, i: nat, groups: seq<seq<Pos>>, V: set<Pos>, group: seq<Pos>)
    requires i < |process|
    requires FirstLargeGroup(groups) == FirstLarge(g, process[..i])
    requires FirstLarge(g, process[..i]).None? ==> forall q :: q in V ==> |Component(g, q)| < 4
    requires IsOrdinaryAt(g, process[i])
    requires Elems(group) == Component(g, process[i]) && Distinct(group)
    requires group != [] && group[0] == process[i]
    ensures FirstLargeGroup(groups + [group]) == FirstLarge(g, process[..i + 1])
    ensures FirstLarge(g, process[..i + 1]).None? ==>
      forall q :: q in V + Elems(group) ==> |Component(g, q)| < 4
  {
    var p := process[i];
    var gs := groups + [group];
    assert process[..i + 1][..i] == process[..i] && process[..i + 1][i] == p;
    assert gs[..|groups|] == groups && gs[|groups|] == group;
    GroupSizes(g, p, group);
    DistinctCard(group);
  }

  /** The swiped-tile test on the collected groups is ClickedQualifies. */
  lemma ClickedFromGroups(g: Grid, process: seq<Pos>, groups: seq<seq<Pos>>, c: Pos)
    requires forall k :: 0 <= k < |groups| ==> WholeGroup(g, groups[k])
    requires forall q :: InGroups(groups, q) <==> Covered(g, process, |process|, q)
    ensures (exists k :: 0 <= k < |groups| && |groups[k]| >= 4 && c in groups[k] && IsOrdinaryAt(g, c))
      <==> ClickedQualifies(g, process, c)
  {
    if ClickedQualifies(g, process, c) {
      var j :| 0 <= j < |process| && c in Component(g, process[j]);
      assert Covered(g, process, |process|, c);
      var k :| 0 <= k < |groups| && c in groups[k];
      GroupSizes(g, groups[k][0], groups[k]);
    }
    if k :| 0 <= k < |groups| && |groups[k]| >= 4 && c in groups[k] && IsOrdinaryAt(g, c) {
      GroupSizes(g, groups[k][0], groups[k]);
      assert InGroups(groups, c);
      var j :| 0 <= j < |process| && c in Component(g, process[j]);
    }
  }

  /**
   * The activation queue and destroy set between steps: queued cells are
   * distinct special tiles not yet destroyed, destroyed cells are occupied,
   * and both lie inside every activation-closed set holding the round's
   * cells P.
   */
  ghost predicate ActState(g: Grid, P: set<Pos>, D: set<Pos>, Q: seq<Pos>)
  {
    && Distinct(Q)
    && (forall q :: q in Q ==> IsSpecialAt(g, q) && q !in D)
    && (forall q :: q in D ==> Occupied(g, q))
    && (forall S :: P <= S && ActivationClosed(g, S) ==> D + Elems(Q) <= S)
  }

  /** Taking the head of the queue into the destroy set keeps the state. */
  lemma ActStateActivate(g: Grid, P: set<Pos>, D: set<Pos>, Q: seq<Pos>, a: Pos)
    requires ActState(g, P, D, [a] + Q)
    ensures ActState(g, P, D + {a}, Q) && IsSpecialAt(g, a) && a !in D
  {
    assert a in [a] + Q;
    forall i, j | 0 <= i < j < |Q|
      ensures Q[i] != Q[j]
    {
      assert ([a] + Q)[i + 1] == Q[i] && ([a] + Q)[j + 1] == Q[j];
    }
    forall q | q in Q
      ensures q != a
    {
      var k :| 0 <= k < |Q| && Q[k] == q;
      assert ([a] + Q)[k + 1] == q && ([a] + Q)[0] == a;
    }
    assert (D + {a}) + Elems(Q) == D + Elems([a] + Q);
  }

  /** Queueing a special tile from the line of a destroyed special tile keeps the state. */
  lemma ActStateEnqueue(g: Grid, P: set<Pos>, D: set<Pos>, Q: seq<Pos>, a: Pos, c: Pos)
    requires ActState(g, P, D, Q) && a in D && IsSpecialAt(g, a) && c in LineOf(g, At(g, a))
    requires c !in D && c !in Q && IsSpecialAt(g, c)
    ensures ActState(g, P, D, Q + [c])
  {
    DistinctAppend(Q, [c]);
    assert Elems(Q + [c]) == Elems(Q) + {c};
  }

  /** Destroying an ordinary tile from the line of a destroyed special tile keeps the state. */
  lemma ActStateDestroy(g: Grid, P: set<Pos>, D: set<Pos>, Q: seq<Pos>, a: Pos, c: Pos)
    requires ActState(g, P, D, Q) && a in D && IsSpecialAt(g, a) && c in LineOf(g, At(g, a))
    requires !IsSpecialAt(g, c)
    ensures ActState(g, P, D + {c}, Q)
  {
  }

  /** Occupied cells are cells of the board. */
  lemma OccupiedCells(g: Grid, D: set<Pos>)
    requires forall q :: q in D ==> Occupied(g, q)
    ensures D <= CellsOf(g)
  {
    forall q | q in D
      ensures q in CellsOf(g)
    {
      CellsOfMember(g, q);
    }
  }

  /** Every member of a flood-fill group has that group as its own, so all share one size. */
  lemma GroupSizes(g: Grid, s: Pos, group: seq<Pos>)
    requires Elems(group) == Component(g, s) && Distinct(group)
    ensures forall p :: p in group ==> |Component(g, p)| == |group|
  {
    DistinctCard(group);
    forall p | p in group
      ensures |Component(g, p)| == |group|
    {
      ComponentShared(g, s, p);
    }
  }

  /**
   * Once every ordinary cell is marked, the marked cells whose group has
   * three or more members are exactly the match cells.
   */
  lemma MatchCellsFromMarks(g: Grid, V: set<Pos>, M: set<Pos>)
    requires forall p :: IsOrdinaryAt(g, p) ==> p in V
    requires forall p :: p in V ==> IsOrdinaryAt(g, p)
    requires forall p :: p in M <==> p in V && |Component(g, p)| >= 3
    ensures M == MatchCells(g)
  {
    forall p
      ensures p in M <==> p in MatchCells(g)
    {
      CellsOfMember(g, p);
      if |Component(g, p)| >= 3 {
        assert Component(g, p) != {};
      }
    }
  }

  /**
   * The flood fill's bookkeeping: the marked cells are the earlier marking
   * plus the processed and queued cells, none repeated, all in the group C
   * and none marked before.
   */
  ghost predicate BfsInv(g: Grid, C: set<Pos>, V0: set<Pos>, V: set<Pos>, group: seq<Pos>, queue: seq<Pos>)
  {
    && V <= CellsOf(g)
    && V == V0 + Elems(group) + Elems(queue)
    && Distinct(group + queue)
    && (forall p :: p in group + queue ==> p in C && p !in V0)
  }

  lemma BfsStart(g: Grid, V0: set<Pos>, s: Pos)
    requires VisitedClosed(g, V0) && s !in V0 && IsOrdinaryAt(g, s)
    requires forall p :: p in V0 ==> InBounds(g, p)
    ensures BfsInv(g, Component(g, s), V0, V0 + {s}, [], [s])
    ensures s in Component(g, s)
  {
    SinglePath(g, s);
    CellsOfMember(g, s);
    forall p | p in V0
      ensures p in CellsOf(g)
    {
      CellsOfMember(g, p);
    }
    assert [] + [s] == [s];
  }

  lemma BfsFinish(g: Grid, V0: set<Pos>, V: set<Pos>, group: seq<Pos>, s: Pos)
    requires VisitedClosed(g, V0) && s !in V0 && IsOrdinaryAt(g, s)
    requires BfsInv(g, Component(g, s), V0, V, group, []) && group != [] && group[0] == s
    requires forall p, d :: p in group && 0 <= d < 4 ==> NeighborMarked(g, p, d, TypeAt(g, s), V)
    ensures Elems(group) == Component(g, s) && Distinct(group) && Elems(group) !! V0
    ensures V == V0 + Elems(group) && VisitedClosed(g, V)
  {
    assert group + [] == group;
    assert V == V0 + Elems(group);
    FloodFillComplete(g, V0, Elems(group), s);
  }

  lemma BfsDequeue(g: Grid, C: set<Pos>, V0: set<Pos>, V: set<Pos>, group: seq<Pos>, queue: seq<Pos>)
    requires BfsInv(g, C, V0, V, group, queue) && queue != []
    ensures BfsInv(g, C, V0, V, group + [queue[0]], queue[1..])
    ensures queue[0] in C
  {
    assert (group + [queue[0]]) + queue[1..] == group + queue;
    assert queue[0] in group + queue;
  }

  lemma BfsEnqueue(g: Grid, C: set<Pos>, V0: set<Pos>, V: set<Pos>, group: seq<Pos>, queue: seq<Pos>, n: Pos)
    requires BfsInv(g, C, V0, V, group, queue)
    requires n !in V && n in CellsOf(g) && n in C
    ensures BfsInv(g, C, V0, V + {n}, group, queue + [n])
  {
    DistinctAppend(group + queue, [n]);
    assert group + (queue + [n]) == (group + queue) + [n];
  }
}
