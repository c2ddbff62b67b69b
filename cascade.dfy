/**
 * The choice ProcessMatches makes in each cascade round: which tile, if any,
 * turns into a line tile instead of being destroyed.
 */
module Cascade {
  import opened Tiles
  import opened Grids
  import opened Connectivity

  /** An ordinary tile whose group has four or more members. */
  ghost predicate IsLarge(g: Grid, p: Pos)
  {
    IsOrdinaryAt(g, p) && |Component(g, p)| >= 4
  }

  /** The first cell of ps, in list order, that is large. */
  ghost function FirstLarge(g: Grid, ps: seq<Pos>): (r: Option<Pos>)
  {
    if ps == [] then None
    else
      var r := FirstLarge(g, ps[..|ps| - 1]);
      if r.Some? then r
      else if IsLarge(g, ps[|ps| - 1]) then Some(ps[|ps| - 1])
      else None
  }

  /** There is no first large cell exactly when no cell is large. */
  lemma {:induction false} FirstLargeNone(g: Grid, ps: seq<Pos>)
    ensures FirstLarge(g, ps).None? <==> forall j :: 0 <= j < |ps| ==> !IsLarge(g, ps[j])
  {
    if ps != [] {
      var init := ps[..|ps| - 1];
      FirstLargeNone(g, init);
      assert forall j :: 0 <= j < |init| ==> ps[j] == init[j];
    }
  }

  /** The first large cell is large, and no cell before it is. */
  lemma {:induction false} FirstLargeFirst(g: Grid, ps: seq<Pos>)
    ensures FirstLarge(g, ps).Some? ==>
      exists k :: (0 <= k < |ps| && ps[k] == FirstLarge(g, ps).value &&
        IsLarge(g, ps[k]) && forall j :: 0 <= j < k ==> !IsLarge(g, ps[j]))
  {
    if ps != [] && FirstLarge(g, ps).Some? {
      var init := ps[..|ps| - 1];
      assert forall j :: 0 <= j < |init| ==> ps[j] == init[j];
      if FirstLarge(g, init).Some? {
        FirstLargeFirst(g, init);
        var k :| 0 <= k < |init| && init[k] == FirstLarge(g, init).value &&
          IsLarge(g, init[k]) && forall j :: 0 <= j < k ==> !IsLarge(g, init[j]);
        assert ps[k] == init[k];
      } else {
        FirstLargeNone(g, init);
        var k := |ps| - 1;
        assert ps[k] == FirstLarge(g, ps).value && IsLarge(g, ps[k]);
      }
    }
  }

  /**
   * The swiped tile takes precedence in the first round: it is ordinary and
   * lies in the group, of four or more, of one of the round's cells.
   */
  ghost predicate ClickedQualifies(g: Grid, process: seq<Pos>, c: Pos)
  {
    && IsLarge(g, c)
    && exists j :: 0 <= j < |process| && c in Component(g, process[j])
  }

  /**
   * The tile a round transforms: the swiped tile when it qualifies in the
   * first round, otherwise the first of the round's cells whose group has
   * four or more members.
   */
  ghost function TransformChoice(g: Grid, process: seq<Pos>, first: bool, clicked: Option<Pos>): Option<Pos>
  {
    if first && clicked.Some? && ClickedQualifies(g, process, clicked.value) then clicked
    else FirstLarge(g, process)
  }

  /** The transformed tile is always an ordinary tile in a group of four or more. */
  lemma TransformChoiceIsLarge(g: Grid, process: seq<Pos>, first: bool, clicked: Option<Pos>)
    ensures var r := TransformChoice(g, process, first, clicked);
      r.Some? ==> IsLarge(g, r.value)
    ensures TransformChoice(g, process, first, clicked).None? ==>
      forall j :: 0 <= j < |process| ==> !IsLarge(g, process[j])
  {
    FirstLargeNone(g, process);
    FirstLargeFirst(g, process);
  }

  /** The grid with a newly created tile written into its cell, if there is one. */
  function Placed(g: Grid, t: Option<Tile>): (r: Grid)
    requires t.Some? ==> InBounds(g, t.value.At())
    ensures SameShape(r, g)
  {
    if t.None? then g else Put(g, t.value.At(), t)
  }
}
