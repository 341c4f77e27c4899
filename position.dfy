/**
 * A point on a planet's grid. The source declares it as a class, but only its
 * structural `==` is ever used, so it is a value here.
 */
module Positions {

  datatype Position = Position(x: int, y: int) {

    /** The source's `==` on positions: both coordinates match. It agrees
        with value equality, so it is reflexive, symmetric and tells apart
        any two positions that differ in a coordinate. */
    function Equals(other: Position): (same: bool)
      ensures same <==> this == other
    {
      x == other.x && y == other.y
    }
  }
}
