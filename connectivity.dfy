/**
 * What the flood fill of GridManager.FindConnectedGroup computes: the set of
 * cells 4-connected to a start cell through ordinary tiles of the start's
 * type, and the cells that FindAllMatches reports (members of such groups of
 * three or more).
 */
module Connectivity {
  import opened Tiles
  import opened Grids
  import opened Collections

  /** A walk through neighbouring cells that all hold ordinary tiles of type t. */
  ghost predicate IsPath(g: Grid, t: int, path: seq<Pos>)
  {
    && |path| > 0
    && (forall i :: 0 <= i < |path| ==> Matchable(g, path[i], t))
    && (forall i :: 0 <= i < |path| - 1 ==> Adjacent(path[i], path[i + 1]))
  }

  ghost predicate Connected(g: Grid, t: int, a: Pos, b: Pos)
  {
    exists path :: IsPath(g, t, path) && path[0] == a && path[|path| - 1] == b
  }

  /** The type of an occupied cell. */
  function TypeAt(g: Grid, p: Pos): int
    requires Occupied(g, p)
  {
    At(g, p).value.typeIndex
  }

  /**
   * The flood-fill group of s: empty for an empty or special cell, otherwise
   * every cell connected to s through ordinary tiles of s's type.
   */
  ghost function Component(g: Grid, s: Pos): set<Pos>
  {
    if IsOrdinaryAt(g, s) then
      set p | p in CellsOf(g) && Connected(g, TypeAt(g, s), s, p)
    else {}
  }

  /** The cells FindAllMatches must report: members of groups of size three or more. */
  ghost function MatchCells(g: Grid): set<Pos>
  {
    set p | p in CellsOf(g) && |Component(g, p)| >= 3
  }

  /** Every matched cell holds an ordinary tile. */
  lemma MatchCellsOrdinary(g: Grid)
    ensures forall p :: p in MatchCells(g) ==> IsOrdinaryAt(g, p)
  {
  }

  /** S is closed under stepping from a type-t ordinary cell of S to a type-t ordinary neighbour. */
  ghost predicate ClosedFor(g: Grid, t: int, S: set<Pos>)
  {
    forall p, d :: p in S && 0 <= d < 4 && Matchable(g, p, t) && Matchable(g, Step(p, d), t) ==>
      Step(p, d) in S
  }

  /**
   * The state a `visited` array may be in between flood fills: only ordinary
   * cells are marked, and every marked cell's same-type neighbours are marked.
   */
  ghost predicate VisitedClosed(g: Grid, V: set<Pos>)
  {
    && (forall p :: p in V ==> IsOrdinaryAt(g, p))
    && (forall t :: ClosedFor(g, t, V))
  }

  lemma SinglePath(g: Grid, s: Pos)
    requires IsOrdinaryAt(g, s)
    ensures IsPath(g, TypeAt(g, s), [s])
    ensures s in Component(g, s)
  {
    CellsOfMember(g, s);
  }

  /** A path extended by a matching neighbour is a path. */
  lemma PathExtend(g: Grid, t: int, path: seq<Pos>, q: Pos)
    requires IsPath(g, t, path)
    requires Matchable(g, q, t) && Adjacent(path[|path| - 1], q)
    ensures IsPath(g, t, path + [q])
  {
  }

  lemma PathReverse(g: Grid, t: int, path: seq<Pos>) returns (rev: seq<Pos>)
    requires IsPath(g, t, path)
    ensures IsPath(g, t, rev) && rev[0] == path[|path| - 1] && rev[|rev| - 1] == path[0]
  {
    rev := seq(|path|, i requires 0 <= i < |path| => path[|path| - 1 - i]);
    forall i | 0 <= i < |rev| - 1
      ensures Adjacent(rev[i], rev[i + 1])
    {
      assert Adjacent(path[|path| - 2 - i], path[|path| - 1 - i]);
    }
  }

  lemma PathJoin(g: Grid, t: int, p1: seq<Pos>, p2: seq<Pos>) returns (p: seq<Pos>)
    requires IsPath(g, t, p1) && IsPath(g, t, p2) && p1[|p1| - 1] == p2[0]
    ensures IsPath(g, t, p) && p[0] == p1[0] && p[|p| - 1] == p2[|p2| - 1]
  {
    p := p1 + p2[1..];
    forall i | 0 <= i < |p| - 1
      ensures Adjacent(p[i], p[i + 1])
    {
      if i < |p1| - 1 {
        assert p[i] == p1[i] && p[i + 1] == p1[i + 1];
      } else {
        assert p[i] == p2[i - |p1| + 1] && p[i + 1] == p2[i - |p1| + 2];
      }
    }
  }

  lemma ConnectedSymmetric(g: Grid, t: int, a: Pos, b: Pos)
    requires Connected(g, t, a, b)
    ensures Connected(g, t, b, a)
  {
    var path :| IsPath(g, t, path) && path[0] == a && path[|path| - 1] == b;
    var rev := PathReverse(g, t, path);
  }

  lemma ConnectedTransitive(g: Grid, t: int, a: Pos, b: Pos, c: Pos)
    requires Connected(g, t, a, b) && Connected(g, t, b, c)
    ensures Connected(g, t, a, c)
  {
    var p1 :| IsPath(g, t, p1) && p1[0] == a && p1[|p1| - 1] == b;
    var p2 :| IsPath(g, t, p2) && p2[0] == b && p2[|p2| - 1] == c;
    var p := PathJoin(g, t, p1, p2);
  }

  /** A set closed under type-t steps that holds a path's first cell holds its last. */
  lemma {:induction false} ClosedReach(g: Grid, t: int, S: set<Pos>, path: seq<Pos>)
    requires ClosedFor(g, t, S) && IsPath(g, t, path) && path[0] in S
    ensures path[|path| - 1] in S
    decreases |path|
  {
    if |path| > 1 {
      var init := path[..|path| - 1];
      assert IsPath(g, t, init);
      ClosedReach(g, t, S, init);
      var prev, last := path[|path| - 2], path[|path| - 1];
      assert Adjacent(prev, last);
      var d := DirTo(prev, last);
      assert Matchable(g, prev, t) && Matchable(g, Step(prev, d), t);
    }
  }

  /** A closed set containing s contains the whole group of s. */
  lemma ClosedContainsComponent(g: Grid, S: set<Pos>, s: Pos)
    requires IsOrdinaryAt(g, s) && s in S && ClosedFor(g, TypeAt(g, s), S)
    ensures Component(g, s) <= S
  {
    forall p | p in Component(g, s)
      ensures p in S
    {
      var path :| IsPath(g, TypeAt(g, s), path) && path[0] == s && path[|path| - 1] == p;
      ClosedReach(g, TypeAt(g, s), S, path);
    }
  }

  /** Cells of one group all have that same group. */
  lemma ComponentShared(g: Grid, s: Pos, p: Pos)
    requires p in Component(g, s)
    ensures Component(g, p) == Component(g, s)
  {
    var t := TypeAt(g, s);
    assert Connected(g, t, s, p);
    var path :| IsPath(g, t, path) && path[0] == s && path[|path| - 1] == p;
    assert Matchable(g, p, t);
    assert TypeAt(g, p) == t;
    ConnectedSymmetric(g, t, s, p);
    forall q | q in Component(g, p)
      ensures q in Component(g, s)
    {
      ConnectedTransitive(g, t, s, p, q);
    }
    forall q | q in Component(g, s)
      ensures q in Component(g, p)
    {
      ConnectedTransitive(g, t, p, s, q);
    }
  }

  /** A marked cell's whole group is marked. */
  lemma VisitedHoldsComponent(g: Grid, V: set<Pos>, p: Pos)
    requires VisitedClosed(g, V) && p in V
    ensures Component(g, p) <= V
  {
    assert ClosedFor(g, TypeAt(g, p), V);
    ClosedContainsComponent(g, V, p);
  }

  /** Every member of a group is an ordinary tile of the start's type. */
  lemma ComponentMembers(g: Grid, s: Pos, p: Pos)
    requires p in Component(g, s)
    ensures IsOrdinaryAt(g, s) && Matchable(g, p, TypeAt(g, s)) && InBounds(g, p)
  {
    var path :| IsPath(g, TypeAt(g, s), path) && path[0] == s && path[|path| - 1] == p;
  }

  /** Groups depend only on occupancy, type and special kind, not on the coordinates tiles report. */
  lemma SameKindsComponents(g: Grid, r: Grid)
    requires SameKinds(g, r)
    ensures forall s :: Component(g, s) == Component(r, s)
    ensures MatchCells(g) == MatchCells(r)
  {
    assert forall p, t :: Matchable(g, p, t) <==> Matchable(r, p, t);
    assert forall t, path :: IsPath(g, t, path) <==> IsPath(r, t, path);
    forall p
      ensures p in CellsOf(g) <==> p in CellsOf(r)
    {
      CellsOfMember(g, p);
      CellsOfMember(r, p);
    }
    assert CellsOf(g) == CellsOf(r);
    forall s
      ensures Component(g, s) == Component(r, s)
    {
      if IsOrdinaryAt(g, s) {
        assert forall p :: Connected(g, TypeAt(g, s), s, p) <==> Connected(r, TypeAt(r, s), s, p);
      }
    }
  }

  /** Turning one cell into a special tile never enlarges a group, so it cannot create a match. */
  lemma PlaceSpecialShrinks(g: Grid, p: Pos, tile: Tile)
    requires InBounds(g, p) && !tile.IsOrdinary()
    ensures forall q :: Component(Put(g, p, Some(tile)), q) <= Component(g, q)
    ensures MatchCells(Put(g, p, Some(tile))) <= MatchCells(g)
  {
    var r := Put(g, p, Some(tile));
    assert forall c, t :: Matchable(r, c, t) ==> Matchable(g, c, t);
    assert forall t, path :: IsPath(r, t, path) ==> IsPath(g, t, path);
    forall c
      ensures c in CellsOf(g) <==> c in CellsOf(r)
    {
      CellsOfMember(g, c);
      CellsOfMember(r, c);
    }
    assert CellsOf(g) == CellsOf(r);
    forall q
      ensures Component(r, q) <= Component(g, q)
    {
      if IsOrdinaryAt(r, q) {
        assert forall c :: Connected(r, TypeAt(r, q), q, c) ==> Connected(g, TypeAt(g, q), q, c);
      }
    }
    forall q | q in MatchCells(r)
      ensures q in MatchCells(g)
    {
      SubsetCard(Component(r, q), Component(g, q));
    }
  }

  /** The last cell of a type-matching path from an ordinary cell s lies in the group of s. */
  lemma PathInComponent(g: Grid, s: Pos, path: seq<Pos>)
    requires IsOrdinaryAt(g, s) && IsPath(g, TypeAt(g, s), path) && path[0] == s
    ensures path[|path| - 1] in Component(g, s)
  {
    CellsOfMember(g, path[|path| - 1]);
  }
  /** The neighbour of c in direction d is in V if it is an ordinary tile of type t. */
  ghost predicate NeighborMarked(g: Grid, c: Pos, d: int, t: int, V: set<Pos>)
  {
    Matchable(g, Step(c, d), t) ==> Step(c, d) in V
  }

  lemma NeighborMarkedGrows(g: Grid, c: Pos, d: int, t: int, V: set<Pos>, W: set<Pos>)
    requires NeighborMarked(g, c, d, t, V) && V <= W
    ensures NeighborMarked(g, c, d, t, W)
  {
  }

  /** Stepping from a member of a group to a neighbour of the group's type stays in the group. */
  lemma ComponentStep(g: Grid, s: Pos, c: Pos, n: Pos)
    requires c in Component(g, s) && Adjacent(c, n) && Matchable(g, n, TypeAt(g, s))
    ensures n in Component(g, s)
  {
    var path :| IsPath(g, TypeAt(g, s), path) && path[0] == s && path[|path| - 1] == c;
    PathExtend(g, TypeAt(g, s), path, n);
    PathInComponent(g, s, path + [n]);
  }

  /** Every same-type neighbour of a group member is in the group. */
  lemma NeighborsInComponent(g: Grid, s: Pos, c: Pos)
    requires IsOrdinaryAt(g, s) && c in Component(g, s)
    ensures forall d :: 0 <= d < 4 ==> NeighborMarked(g, c, d, TypeAt(g, s), Component(g, s))
  {
    forall d | 0 <= d < 4
      ensures NeighborMarked(g, c, d, TypeAt(g, s), Component(g, s))
    {
      if Matchable(g, Step(c, d), TypeAt(g, s)) {
        StepBack(c, d);
        ComponentStep(g, s, c, Step(c, d));
      }
    }
  }

  /** The group of an unmarked cell shares no cell with a closed marking. */
  lemma ComponentAvoidsVisited(g: Grid, V: set<Pos>, s: Pos)
    requires VisitedClosed(g, V) && s !in V
    ensures Component(g, s) !! V
  {
    forall p | p in Component(g, s) && p in V
      ensures false
    {
      ComponentMembers(g, s, p);
      VisitedHoldsComponent(g, V, p);
      ComponentShared(g, s, p);
      SinglePath(g, s);
    }
  }

  /**
   * What a finished flood fill from s establishes: a set G of group members,
   * outside the earlier marking V, holding s, whose every same-type neighbour
   * is marked, is the whole group, and the marking grown by G stays closed.
   */
  lemma FloodFillComplete(g: Grid, V: set<Pos>, G: set<Pos>, s: Pos)
    requires VisitedClosed(g, V) && s !in V && IsOrdinaryAt(g, s)
    requires s in G && G <= Component(g, s)
    requires forall p, d :: p in G && 0 <= d < 4 ==> NeighborMarked(g, p, d, TypeAt(g, s), V + G)
    ensures G == Component(g, s)
    ensures VisitedClosed(g, V + G)
  {
    var t := TypeAt(g, s);
    assert ClosedFor(g, t, V);
    forall p, d | p in V + G && 0 <= d < 4 && Matchable(g, p, t) && Matchable(g, Step(p, d), t)
      ensures Step(p, d) in V + G
    {
      if p in G {
        assert NeighborMarked(g, p, d, t, V + G);
      }
    }
    ClosedContainsComponent(g, V + G, s);
    ComponentAvoidsVisited(g, V, s);
    forall p | p in G
      ensures Matchable(g, p, t)
    {
      ComponentMembers(g, s, p);
    }
    forall u
      ensures ClosedFor(g, u, V + G)
    {
      assert ClosedFor(g, u, V);
    }
  }
}
