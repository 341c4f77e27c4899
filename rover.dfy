/**
 * Rovers before and after landing. A rover is built with the place it will
 * land at; landing it on a planet yields a landed rover that sits on the cell
 * the planet locates for that place. Both rover kinds are classes in the
 * source, but their fields are only ever set by their initialisers, so they
 * are values here.
 */
module Rovers {
  import opened Positions
  import opened Planets

  datatype LandedMarsRover = LandedMarsRover(planet: Planet, position: Position)

  datatype MarsRover = MarsRover(landingPlace: Position) {

    /**
     * Lands the rover on `planet`. The landed rover is on that planet, at the
     * cell `Locate` finds for the landing place: a position that differs from
     * the landing place by whole turns around the planet on each axis and,
     * on a planet of positive size, is the componentwise Euclidean remainder
     * of the landing place, a cell of the planet.
     */
    function Land(planet: Planet): (landed: LandedMarsRover)
      requires planet.Locatable()
      ensures landed.planet == planet
      ensures landed.position == planet.Locate(landingPlace)
      ensures planet.HasPositiveSize() ==> planet.Contains(landed.position)
      ensures planet.HasPositiveSize() ==>
        landed.position == Position(landingPlace.x % planet.sizeX, landingPlace.y % planet.sizeY)
    {
      var landed := LandedMarsRover(planet, planet.Locate(landingPlace));
      if planet.HasPositiveSize() then
        LocateIsEuclideanRemainder(planet, landingPlace);
        landed
      else
        landed
    }
  }

  /** The source's initialiser from an `(x, y)` pair: the landing place holds
      exactly the given coordinates, so the pair can be read back from it. */
  function MarsRoverAt(startingPoint: (int, int)): (rover: MarsRover)
    ensures (rover.landingPlace.x, rover.landingPlace.y) == startingPoint
  {
    MarsRover(Position(startingPoint.0, startingPoint.1))
  }

  /** A rover whose landing place is already a cell of the planet lands
      exactly there. */
  lemma LandInsideGridKeepsPlace(rover: MarsRover, planet: Planet)
    requires planet.HasPositiveSize() && planet.Contains(rover.landingPlace)
    ensures rover.Land(planet).position == rover.landingPlace
  {
    LocateIdentity(planet, rover.landingPlace);
  }

  /** Landing places that differ by whole turns around the planet give the
      same landed rover. */
  lemma LandPeriodic(x: int, y: int, i: int, j: int, planet: Planet)
    requires planet.HasPositiveSize()
    ensures MarsRoverAt((x + i * planet.sizeX, y + j * planet.sizeY)).Land(planet)
         == MarsRoverAt((x, y)).Land(planet)
  {
    LocatePeriodic(planet, Position(x, y), i, j);
  }
}
