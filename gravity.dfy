/**
 * The three stages of GridManager.ClearAndRefill as values: emptying the
 * destroyed cells, letting each column's tiles fall to the bottom, and
 * filling the remaining holes with fresh ordinary tiles.
 */
module Gravity {
  import opened Tiles
  import opened Grids
  import opened Runs

  /** The destroyed cells of g emptied; every other cell as it was. */
  function Cleared(g: Grid, S: set<Pos>): (r: Grid)
    ensures SameShape(r, g)
    ensures forall q :: InBounds(g, q) ==> At(r, q) == if q in S then None else At(g, q)
  {
    seq(|g|, x requires 0 <= x < |g| =>
      seq(|g[x]|, y requires 0 <= y < |g[x]| => if Pos(x, y) in S then None else g[x][y]))
  }

  /** Emptying cells keeps every remaining tile's coordinate and type. */
  lemma ClearedKeepsInvariants(g: Grid, S: set<Pos>)
    requires Coherent(g) && TypesInRange(g)
    ensures Coherent(Cleared(g, S)) && TypesInRange(Cleared(g, S))
  {
  }

  /** The cells of S that hold a tile: the ones removal actually clears. */
  function OccupiedIn(g: Grid, S: set<Pos>): (c: set<Pos>)
    ensures c <= S && forall q :: q in c <==> q in S && Occupied(g, q)
  {
    set q | q in S && Occupied(g, q)
  }

  /** The tiles of a column from the bottom up, skipping empty cells. */
  function Survivors(col: seq<Option<Tile>>): (s: seq<Tile>)
    ensures |s| <= |col|
  {
    if col == [] then []
    else Survivors(col[..|col| - 1]) + (if col[|col| - 1].Some? then [col[|col| - 1].value] else [])
  }

  /**
   * Column x after compaction: its surviving tiles, in their bottom-to-top
   * order, in rows 0..k-1, each reporting its new row; the rows above empty.
   */
  function Packed(col: seq<Option<Tile>>, x: int): (r: seq<Option<Tile>>)
    ensures |r| == |col|
  {
    var s := Survivors(col);
    seq(|col|, j requires 0 <= j < |col| => if j < |s| then Some(s[j].MovedTo(x, j)) else None)
  }

  /** The whole board after compaction. */
  function Compacted(g: Grid): (r: Grid)
    ensures SameShape(r, g)
    ensures forall x :: 0 <= x < |g| ==> r[x] == Packed(g[x], x)
  {
    seq(|g|, x requires 0 <= x < |g| => Packed(g[x], x))
  }

  /** No tile sits above an empty cell in its column. */
  predicate Settled(col: seq<Option<Tile>>)
  {
    forall i, j :: 0 <= i < j < |col| && col[j].Some? ==> col[i].Some?
  }

  /** Every tile of a column reports column x and its own row. */
  predicate ColumnCoherent(col: seq<Option<Tile>>, x: int)
  {
    forall j :: 0 <= j < |col| && col[j].Some? ==> col[j].value.x == x && col[j].value.y == j
  }

  lemma SurvivorsAppend(col: seq<Option<Tile>>, c: Option<Tile>)
    ensures Survivors(col + [c]) == Survivors(col) + (if c.Some? then [c.value] else [])
  {
    assert (col + [c])[..|col|] == col;
  }

  /** A column that is settled keeps exactly its occupied prefix. */
  lemma {:induction false} SurvivorsOfSettled(col: seq<Option<Tile>>, n: nat)
    requires n <= |col| && Settled(col)
    ensures var s := Survivors(col[..n]);
      && (forall j :: 0 <= j < |s| ==> col[j] == Some(s[j]))
      && (forall j :: 0 <= j < n ==> (col[j].Some? <==> j < |s|))
  {
    if n > 0 {
      SurvivorsOfSettled(col, n - 1);
      assert col[..n] == col[..n - 1] + [col[n - 1]];
      SurvivorsAppend(col[..n - 1], col[n - 1]);
    }
  }

  /**
   * Compaction keeps the surviving tiles and their order: only the rows
   * they report change.
   */
  lemma PackedKeepsOrder(col: seq<Option<Tile>>, x: int)
    ensures var s := Survivors(col);
      Survivors(Packed(col, x)) == seq(|s|, j requires 0 <= j < |s| => s[j].MovedTo(x, j))
  {
    var r := Packed(col, x);
    var s := Survivors(col);
    assert Settled(r);
    SurvivorsOfSettled(r, |r|);
    assert r[..|r|] == r;
    var t := Survivors(r);
    if |t| < |r| {
      assert r[|t|].None?;
    }
    if |s| < |r| {
      assert r[|s|].None?;
    }
    assert |t| == |s|;
  }

  /** After compaction no tile floats above a hole, and every tile reports its cell. */
  lemma PackedSettled(col: seq<Option<Tile>>, x: int)
    ensures Settled(Packed(col, x)) && ColumnCoherent(Packed(col, x), x)
  {
  }

  /** Compacting a compacted column changes nothing. */
  lemma PackedTwice(col: seq<Option<Tile>>, x: int)
    ensures Packed(Packed(col, x), x) == Packed(col, x)
  {
    PackedKeepsOrder(col, x);
  }

  /** A column with no holes below its tiles, whose tiles report their cells, does not move. */
  lemma PackedFixesSettled(col: seq<Option<Tile>>, x: int)
    requires Settled(col) && ColumnCoherent(col, x)
    ensures Packed(col, x) == col
  {
    SurvivorsOfSettled(col, |col|);
    assert col[..|col|] == col;
    var s := Survivors(col);
    forall j | 0 <= j < |col|
      ensures Packed(col, x)[j] == col[j]
    {
    }
  }

  /** Number of occupied cells of a column. */
  lemma SurvivorsCount(col: seq<Option<Tile>>, x: int)
    ensures |Survivors(Packed(col, x))| == |Survivors(col)|
  {
    PackedKeepsOrder(col, x);
  }

  /** The board after compaction keeps tile coordinates coherent. */
  lemma CompactedCoherent(g: Grid)
    ensures Coherent(Compacted(g))
  {
  }

  /** Compaction keeps every column's tile types, so types stay in range. */
  lemma CompactedTypesInRange(g: Grid)
    requires TypesInRange(g)
    ensures TypesInRange(Compacted(g))
  {
    forall x | 0 <= x < |g|
      ensures forall t :: t in Survivors(g[x]) ==> 0 <= t.typeIndex < ActiveTypes
    {
      SurvivorsTypes(g[x]);
    }
  }

  lemma {:induction false} SurvivorsTypes(col: seq<Option<Tile>>)
    requires forall j :: 0 <= j < |col| && col[j].Some? ==> 0 <= col[j].value.typeIndex < ActiveTypes
    ensures forall t :: t in Survivors(col) ==> 0 <= t.typeIndex < ActiveTypes
  {
    if col != [] {
      SurvivorsTypes(col[..|col| - 1]);
    }
  }

  /**
   * r is g with every empty cell filled by a new ordinary tile of an active
   * type that does not repeat the two tiles to its left or the two below it
   * in r; occupied cells are untouched.
   */
  ghost predicate RefillOf(g: Grid, r: Grid)
  {
    && SameShape(r, g)
    && (forall q :: InBounds(g, q) && Occupied(g, q) ==> At(r, q) == At(g, q))
    && (forall q :: InBounds(g, q) && !Occupied(g, q) ==>
          && At(r, q).Some?
          && At(r, q).value == Tile(At(r, q).value.typeIndex, NoSpecial, q.x, q.y)
          && 0 <= At(r, q).value.typeIndex < ActiveTypes
          && !CompletesRun(r, q.x, q.y, At(r, q).value.typeIndex))
  }

  /** A refilled board is full, and it stays coherent and in range. */
  lemma RefillIsFull(g: Grid, r: Grid)
    requires RefillOf(g, r) && Coherent(g) && TypesInRange(g)
    ensures IsFull(r) && Coherent(r) && TypesInRange(r)
  {
    forall x, y | 0 <= x < |r| && 0 <= y < |r[x]|
      ensures r[x][y].Some? && r[x][y].value.x == x && r[x][y].value.y == y
      ensures 0 <= r[x][y].value.typeIndex < ActiveTypes
    {
      assert InBounds(g, Pos(x, y));
    }
  }
}
