/**
 * The concrete behaviour the rover's own checks expect, on a 100 by 100
 * planet called Mars, stated as lemmas.
 */
module Scenarios {
  import opened Positions
  import opened Planets
  import opened Rovers

  const Mars := Planet("Mars", 100, 100)

  /** A rover created at (0, 0) records (0, 0) as its landing place. */
  lemma CreatedRoverKeepsStartingPoint()
    ensures MarsRoverAt((0, 0)).landingPlace.Equals(Position(0, 0))
  {
  }

  /** Landing that rover on Mars puts it on Mars, at the origin. */
  lemma LandedRoverIsOnMars()
    ensures MarsRoverAt((0, 0)).Land(Mars).planet.Equals(Mars)
    ensures MarsRoverAt((0, 0)).Land(Mars).position == Position(0, 0)
  {
  }

  /** One past the far corner of Mars is the origin. */
  lemma MarsFarCornerWrapsToOrigin()
    ensures Mars.Locate(Position(Mars.sizeX, Mars.sizeY)).Equals(Position(0, 0))
  {
    LocateFarCorner(Mars);
  }

  /** Just before the origin of Mars is its far corner cell. */
  lemma MarsMinusOneWrapsToFarCorner()
    ensures Mars.Locate(Position(-1, -1)).Equals(Position(Mars.sizeX - 1, Mars.sizeY - 1))
  {
    LocateMinusOne(Mars);
  }

  /** Positions with the same coordinates are equal; others are not. */
  lemma PositionEqualityExamples()
    ensures Position(10, 100).Equals(Position(10, 100))
    ensures !Position(10, 100).Equals(Position(0, 0))
  {
  }

  /** Nothing stops a planet from having a negative size, and on one the
      located position is not a cell of the grid. */
  lemma NegativeSizeLocatesOutsideGrid()
    ensures Planet("Inverted", -3, -3).Locate(Position(-1, -1)) == Position(-4, -4)
  {
  }
}
