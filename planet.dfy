/**
 * A planet: a named toroidal grid of `sizeX` by `sizeY` cells. Moving past
 * one edge comes back in at the opposite one, so every integer position
 * names a cell, and `Locate` finds it.
 */
module Planets {
  import opened Remainder
  import opened Positions

  /**
   * Maps a coordinate onto one axis of the grid: Swift's truncating remainder,
   * lifted by `max` when it is negative. Swift traps on `% 0`, hence `max != 0`.
   * For every non-zero `max` the result differs from `coord` by a multiple of
   * `max`; for a positive `max` it lies in [0, max).
   */
  function Wrap(coord: int, max: int): (wrapped: int)
    requires max != 0
    ensures max > 0 ==> 0 <= wrapped < max
    ensures (coord - wrapped) % Abs(max) == 0
  {
    var remainder := TruncRem(coord, max);
    if remainder >= 0 then
      remainder
    else
      var n := Abs(max);
      var q := (coord - remainder) / n;
      assert coord - remainder == q * n;
      if max > 0 then
        assert coord - (max + remainder) == (q - 1) * n;
        MultipleHasZeroRemainder(q - 1, n);
        max + remainder
      else
        assert coord - (max + remainder) == (q + 1) * n;
        MultipleHasZeroRemainder(q + 1, n);
        max + remainder
  }

  /** On a positive size, the wrapped coordinate is the Euclidean remainder:
      the correction step turns Swift's truncating `%` into mathematical modulo. */
  lemma WrapIsEuclideanRemainder(coord: int, max: int)
    requires max > 0
    ensures Wrap(coord, max) == coord % max
  {
    var w := Wrap(coord, max);
    var q := (coord - w) / max;
    assert coord - w == q * max;
    EuclideanUnique(coord, max, q, w);
  }

  /**
   * The toroidal meaning of wrapping, independent of any remainder operator:
   * step a whole turn forward or back along the axis until the coordinate is
   * one of the `max` cells.
   */
  function Canonical(coord: int, max: int): (cell: int)
    requires max > 0
    ensures 0 <= cell < max
    decreases if coord < 0 then max - coord else coord
  {
    if coord < 0 then Canonical(coord + max, max)
    else if coord >= max then Canonical(coord - max, max)
    else coord
  }

  /** Stepping `k` whole turns, in either direction, reaches the same cell. */
  lemma {:induction false} CanonicalPeriodic(coord: int, k: int, max: int)
    requires max > 0
    ensures Canonical(coord + k * max, max) == Canonical(coord, max)
    decreases if k < 0 then -k else k
  {
    if k > 0 {
      CanonicalPeriodic(coord, k - 1, max);
      var before := coord + (k - 1) * max;
      assert coord + k * max == before + max;
      assert Canonical(before + max, max) == Canonical(before, max);
    } else if k < 0 {
      CanonicalPeriodic(coord, k + 1, max);
      var after := coord + (k + 1) * max;
      assert coord + k * max == after - max;
      assert Canonical(after - max, max) == Canonical(after, max);
    }
  }

  /** The stepping definition agrees with Euclidean remainder. */
  lemma {:induction false} CanonicalIsEuclideanRemainder(coord: int, max: int)
    requires max > 0
    ensures Canonical(coord, max) == coord % max
    decreases if coord < 0 then max - coord else coord
  {
    if coord < 0 {
      CanonicalIsEuclideanRemainder(coord + max, max);
      RemainderShift(coord, 1, max);
    } else if coord >= max {
      CanonicalIsEuclideanRemainder(coord - max, max);
      RemainderShift(coord - max, 1, max);
    } else {
      EuclideanUnique(coord, max, 0, coord);
    }
  }

  /** Swift's wrap computes the toroidal cell: the one reached by whole turns. */
  lemma WrapIsCanonical(coord: int, max: int)
    requires max > 0
    ensures Wrap(coord, max) == Canonical(coord, max)
  {
    WrapIsEuclideanRemainder(coord, max);
    CanonicalIsEuclideanRemainder(coord, max);
  }

  /** Adding any number of whole turns around the axis does not change the cell. */
  lemma WrapPeriodic(coord: int, k: int, max: int)
    requires max > 0
    ensures Wrap(coord + k * max, max) == Wrap(coord, max)
  {
    WrapIsCanonical(coord, max);
    WrapIsCanonical(coord + k * max, max);
    CanonicalPeriodic(coord, k, max);
  }

  /** Two coordinates land in the same cell exactly when they differ by a
      multiple of the size. */
  lemma WrapSameIffCongruent(a: int, b: int, max: int)
    requires max > 0
    ensures Wrap(a, max) == Wrap(b, max) <==> (a - b) % max == 0
  {
    WrapIsEuclideanRemainder(a, max);
    WrapIsEuclideanRemainder(b, max);
    if a % max == b % max {
      SameRemainderDifference(a, b, max);
    }
    if (a - b) % max == 0 {
      var q := (a - b) / max;
      assert a - b == q * max;
      RemainderShift(b, q, max);
    }
  }

  /** A coordinate already on the axis is left where it is. */
  lemma WrapIdentity(coord: int, max: int)
    requires 0 <= coord < max
    ensures Wrap(coord, max) == coord
  {
    WrapIsEuclideanRemainder(coord, max);
    EuclideanUnique(coord, max, 0, coord);
  }

  /** Wrapping twice is wrapping once. */
  lemma WrapIdempotent(coord: int, max: int)
    requires max > 0
    ensures Wrap(Wrap(coord, max), max) == Wrap(coord, max)
  {
    WrapIdentity(Wrap(coord, max), max);
  }

  datatype Planet = Planet(name: string, sizeX: int, sizeY: int) {

    /** Whether `Locate` can be applied: Swift's `%` traps on a zero size. */
    predicate Locatable() {
      sizeX != 0 && sizeY != 0
    }

    /** Whether the planet is a proper grid with at least one cell. */
    predicate HasPositiveSize() {
      sizeX > 0 && sizeY > 0
    }

    /** Whether `p` is one of the planet's cells. */
    predicate Contains(p: Position) {
      0 <= p.x < sizeX && 0 <= p.y < sizeY
    }

    /**
     * The cell that `position` denotes: each axis wrapped on its own. The
     * result differs from the input by a multiple of the size on each axis,
     * and on a planet of positive size it is one of the planet's cells.
     */
    function Locate(position: Position): (located: Position)
      requires Locatable()
      ensures HasPositiveSize() ==> Contains(located)
      ensures (position.x - located.x) % Abs(sizeX) == 0
      ensures (position.y - located.y) % Abs(sizeY) == 0
    {
      Position(Wrap(position.x, sizeX), Wrap(position.y, sizeY))
    }

    /** The source's `==` on planets: name and both sizes match. */
    function Equals(other: Planet): (same: bool)
      ensures same <==> this == other
    {
      name == other.name && sizeX == other.sizeX && sizeY == other.sizeY
    }
  }

  /** On a planet of positive size, `Locate` is the componentwise Euclidean remainder. */
  lemma LocateIsEuclideanRemainder(planet: Planet, p: Position)
    requires planet.HasPositiveSize()
    ensures planet.Locate(p) == Position(p.x % planet.sizeX, p.y % planet.sizeY)
  {
    WrapIsEuclideanRemainder(p.x, planet.sizeX);
    WrapIsEuclideanRemainder(p.y, planet.sizeY);
  }

  /** A position that is already a cell of the planet is located at itself. */
  lemma LocateIdentity(planet: Planet, p: Position)
    requires planet.HasPositiveSize() && planet.Contains(p)
    ensures planet.Locate(p) == p
  {
    WrapIdentity(p.x, planet.sizeX);
    WrapIdentity(p.y, planet.sizeY);
  }

  /** Locating a located position changes nothing. */
  lemma LocateIdempotent(planet: Planet, p: Position)
    requires planet.HasPositiveSize()
    ensures planet.Locate(planet.Locate(p)) == planet.Locate(p)
  {
    LocateIdentity(planet, planet.Locate(p));
  }

  /** Going `i` times around the planet east-west and `j` times north-south
      ends in the same cell. */
  lemma LocatePeriodic(planet: Planet, p: Position, i: int, j: int)
    requires planet.HasPositiveSize()
    ensures planet.Locate(Position(p.x + i * planet.sizeX, p.y + j * planet.sizeY)) == planet.Locate(p)
  {
    WrapPeriodic(p.x, i, planet.sizeX);
    WrapPeriodic(p.y, j, planet.sizeY);
  }

  /** Two positions denote the same cell exactly when they differ by a
      multiple of the size on each axis. */
  lemma LocateSameIffCongruent(planet: Planet, p: Position, q: Position)
    requires planet.HasPositiveSize()
    ensures planet.Locate(p) == planet.Locate(q)
        <==> (p.x - q.x) % planet.sizeX == 0 && (p.y - q.y) % planet.sizeY == 0
  {
    WrapSameIffCongruent(p.x, q.x, planet.sizeX);
    WrapSameIffCongruent(p.y, q.y, planet.sizeY);
  }

  /** The position one past the far corner wraps to the origin. */
  lemma LocateFarCorner(planet: Planet)
    requires planet.HasPositiveSize()
    ensures planet.Locate(Position(planet.sizeX, planet.sizeY)) == Position(0, 0)
  {
    LocatePeriodic(planet, Position(0, 0), 1, 1);
    LocateIdentity(planet, Position(0, 0));
  }

  /** The position just before the origin wraps to the far corner cell. */
  lemma LocateMinusOne(planet: Planet)
    requires planet.HasPositiveSize()
    ensures planet.Locate(Position(-1, -1)) == Position(planet.sizeX - 1, planet.sizeY - 1)
  {
    var corner := Position(planet.sizeX - 1, planet.sizeY - 1);
    LocateIdentity(planet, corner);
    LocatePeriodic(planet, Position(-1, -1), 1, 1);
  }
}
