/**
 * The tile record of the board (Gem.cs): the three tile kinds, the value a
 * board cell holds, and the Gem object whose fields Initialize and MoveTo
 * assign in place.
 */
module Tiles {

  /** The conventional optional value; `None` stands for a null tile reference. */
  datatype Option<T> = None | Some(value: T)

  /** Gem.SpecialGemType. `NoSpecial` is the enum's `None` (an ordinary tile). */
  datatype SpecialGemType = NoSpecial | HorizontalLine | VerticalLine

  /** A logical grid coordinate. */
  datatype Pos = Pos(x: int, y: int)

  /**
   * The logical part of a Gem: its type, its special kind and the grid
   * coordinate it reports. The board stores these records by value, one per
   * occupied cell.
   */
  datatype Tile = Tile(typeIndex: int, special: SpecialGemType, x: int, y: int)
  {
    predicate IsOrdinary() { special == NoSpecial }

    function At(): Pos { Pos(x, y) }

    /** The record after MoveTo(newX, newY): only the coordinate changes. */
    function MovedTo(newX: int, newY: int): (t: Tile)
      ensures t.typeIndex == typeIndex && t.special == special
      ensures t.x == newX && t.y == newY
    {
      this.(x := newX, y := newY)
    }
  }

  /**
   * A tile object. `isMoving` is the flag the animation clears once the tile
   * has reached the world position of its logical coordinate.
   */
  class Gem {
    var typeIndex: int
    var x: int
    var y: int
    var specialType: SpecialGemType
    var isMoving: bool

    /** The logical record of this object. */
    function Record(): Tile
      reads this
    {
      Tile(typeIndex, specialType, x, y)
    }

    /** A freshly instantiated gem is ordinary and at rest. */
    constructor ()
      ensures specialType == NoSpecial && !isMoving
      ensures typeIndex == 0 && x == 0 && y == 0
    {
      typeIndex, x, y := 0, 0, 0;
      specialType := NoSpecial;
      isMoving := false;
    }

    /** Sets type and coordinate; the special kind (fixed by the prefab) is kept. */
    method Initialize(t: int, newX: int, newY: int)
      modifies this
      ensures Record() == Tile(t, old(specialType), newX, newY)
      ensures !isMoving
    {
      typeIndex := t;
      x := newX;
      y := newY;
      isMoving := false;
    }

    /** Retargets the tile to a new coordinate and starts its movement. */
    method MoveTo(newX: int, newY: int)
      modifies this
      ensures Record() == old(Record()).MovedTo(newX, newY)
      ensures isMoving
    {
      x := newX;
      y := newY;
      isMoving := true;
    }

    method IsMoving() returns (moving: bool)
      ensures moving == isMoving
    {
      moving := isMoving;
    }
  }
}
