/**
 * What ShuffleBoardCoroutine keeps of the old board: the (type, kind) data of
 * its special tiles, read in column-major order, and the list of all cells
 * that the Fisher-Yates pass permutes.
 */
module Bags {
  import opened Tiles
  import opened Grids
  import opened Collections

  /** GridManager.PreservedGemData: the type and kind of one saved special tile. */
  datatype PreservedGemData = PreservedGemData(typeIndex: int, specialType: SpecialGemType)

  /** The saved data of the special tiles at the listed cells, in list order. */
  function SpecialsAt(g: Grid, cells: seq<Pos>): (r: seq<PreservedGemData>)
    ensures |r| <= |cells|
    ensures forall d :: d in r ==> d.specialType != NoSpecial
  {
    if cells == [] then []
    else
      var p := cells[|cells| - 1];
      SpecialsAt(g, cells[..|cells| - 1]) +
      (if IsSpecialAt(g, p) then [PreservedGemData(At(g, p).value.typeIndex, At(g, p).value.special)]
       else [])
  }

  lemma {:induction false} SpecialsAtConcat(g: Grid, u: seq<Pos>, v: seq<Pos>)
    ensures SpecialsAt(g, u + v) == SpecialsAt(g, u) + SpecialsAt(g, v)
    decreases |v|
  {
    if v == [] {
      assert u + v == u;
    } else {
      var init := v[..|v| - 1];
      assert (u + v)[..|u + v| - 1] == u + init;
      assert (u + v)[|u + v| - 1] == v[|v| - 1];
      SpecialsAtConcat(g, u, init);
    }
  }

  /** Removing the same element from two equal multisets leaves equal multisets. */
  lemma MultisetRemoveLast<T>(init: seq<T>, last: T, u: seq<T>, v: seq<T>)
    requires multiset(init + [last]) == multiset(u + [last] + v)
    ensures multiset(init) == multiset(u + v)
  {
    var m := multiset{last};
    assert multiset(init + [last]) == multiset(init) + m;
    assert multiset(u + [last] + v) == multiset(u) + m + multiset(v);
    assert multiset(u + v) == multiset(u) + multiset(v);
    forall z
      ensures multiset(init)[z] == multiset(u + v)[z]
    {
      assert (multiset(init) + m)[z] == (multiset(u) + m + multiset(v))[z];
    }
  }

  /** Reading the same cells in another order yields the same multiset of saved data. */
  lemma {:induction false} SpecialsAtPermutation(g: Grid, a: seq<Pos>, b: seq<Pos>)
    requires multiset(a) == multiset(b)
    ensures multiset(SpecialsAt(g, a)) == multiset(SpecialsAt(g, b))
    decreases |a|
  {
    if a != [] {
      var last := a[|a| - 1];
      var init := a[..|a| - 1];
      assert a == init + [last];
      assert last in multiset(b);
      var i :| 0 <= i < |b| && b[i] == last;
      var rest := b[..i] + b[i + 1..];
      assert b == b[..i] + [last] + b[i + 1..];
      MultisetRemoveLast(init, last, b[..i], b[i + 1..]);
      SpecialsAtPermutation(g, init, rest);
      SpecialsAtConcat(g, init, [last]);
      SpecialsAtConcat(g, b[..i], [last]);
      SpecialsAtConcat(g, b[..i] + [last], b[i + 1..]);
      SpecialsAtConcat(g, b[..i], b[i + 1..]);
    } else {
      assert b == [];
    }
  }

  /** The cells of column x, bottom to top. */
  function ColumnCells(x: int, h: nat): (c: seq<Pos>)
    ensures |c| == h
    ensures forall j :: 0 <= j < h ==> c[j] == Pos(x, j)
  {
    seq(h, j requires 0 <= j < h => Pos(x, j))
  }

  /** allPositions before shuffling: every cell, column by column, each column bottom to top. */
  function AllPositions(w: nat, h: nat): (c: seq<Pos>)
  {
    if w == 0 then [] else AllPositions(w - 1, h) + ColumnCells(w - 1, h)
  }

  /** allPositions lists each cell of the w-by-h board exactly once. */
  lemma {:induction false} AllPositionsSpec(w: nat, h: nat)
    ensures |AllPositions(w, h)| == w * h
    ensures Distinct(AllPositions(w, h))
    ensures forall p :: p in AllPositions(w, h) <==> 0 <= p.x < w && 0 <= p.y < h
  {
    if w > 0 {
      AllPositionsSpec(w - 1, h);
      var prev, col := AllPositions(w - 1, h), ColumnCells(w - 1, h);
      assert |prev + col| == (w - 1) * h + h;
      forall p: Pos
        ensures p in prev + col <==> 0 <= p.x < w && 0 <= p.y < h
      {
        if p.x == w - 1 && 0 <= p.y < h {
          assert col[p.y] == p;
        }
      }
      forall i, j | 0 <= i < j < |prev + col|
        ensures (prev + col)[i] != (prev + col)[j]
      {
        if j >= |prev| && i < |prev| {
          assert (prev + col)[i] in prev;
        }
      }
    }
  }
}
