# Mars rover kata: toroidal grid and landing

A Dafny model of the Swift Mars rover kata in `rover.swift`. A planet is a
named grid of `sizeX` by `sizeY` cells whose edges wrap around, so every integer
position names a cell; `Planet.locate` finds it by wrapping each axis on its
own. A `MarsRover` is created with the place it will land at, and `land(planet)`
gives a `LandedMarsRover` that sits on the planet at the located cell.
Positions and planets compare structurally.

Files and modules:

- `remainder.dfy` (`Remainder`): Swift's truncating `%` on `Int`, written out
  (`TruncRem`), and facts about Dafny's Euclidean `/` and `%` used in proofs.
- `position.dfy` (`Positions`): the `Position` value and its `==`.
- `planet.dfy` (`Planets`): the per-axis `Wrap` (nested inside `locate` in the
  source), `Planet`, `Locate`, planet `==`, and the grid properties: range,
  agreement with Euclidean modulo and with a whole-turn stepping definition
  (`Canonical`), periodicity, identity on cells,
  idempotence, and "same cell iff congruent".
- `rover.dfy` (`Rovers`): `MarsRover`, its initialiser from a pair, `Land`, and
  `LandedMarsRover`.
- `scenarios.dfy` (`Scenarios`): the source's own checks on Mars (100 by 100)
  as lemmas.

`Locate` requires both sizes to be non-zero: on unbounded integers, that is
exactly when Swift's `%` does not trap (fixed-width overflow is under
"Left out"). The source has no other check on sizes. A negative size is
accepted and gives positions outside the grid
(`Scenarios.NegativeSizeLocatesOutsideGrid`). The range, identity,
idempotence and periodicity results therefore require positive sizes.
Constructing a planet never fails: there is no dimension check or error for
non-positive sizes in the code, and none in the model.

## Model

| member | source | states |
|---|---|---|
| `Remainder.TruncRem` | rover.swift:51 | Swift's `coord % max`: smaller than `max` in magnitude, never of the opposite sign to `coord`, and differing from `coord` by a multiple of `max`. |
| `Remainder.TruncRemOfNegative` | rover.swift:51-56 | For a negative dividend the truncating remainder is the Euclidean one minus `abs(max)`, or 0 on an exact multiple. This is the negative case that `wrap` corrects. |
| `Planets.Wrap` | rover.swift:50-57 | Needs `max != 0`, the trap condition. The result differs from `coord` by a multiple of `max`, and lies in `[0, max)` when `max > 0`. |
| `Planets.WrapIsEuclideanRemainder` | rover.swift:50-57 | For `max > 0`, the truncating remainder plus the correction equals mathematical (Euclidean) `coord mod max`. |
| `Planets.Canonical` | rover.swift:50-57 | Reference meaning of wrapping on a torus, with no remainder operator: step whole turns of `max` until inside. The result always lies in `[0, max)`. |
| `Planets.CanonicalPeriodic` | rover.swift:50-57 | Stepping `k` whole turns, for any integer `k`, reaches the same cell (proved by induction on `k`). |
| `Planets.CanonicalIsEuclideanRemainder` | rover.swift:50-57 | The stepping definition equals Euclidean `coord mod max` (proved by induction along the steps). |
| `Planets.WrapIsCanonical` | rover.swift:50-57 | For `max > 0`, Swift's truncating remainder plus the correction gives exactly the cell that whole-turn stepping reaches. |
| `Planets.WrapPeriodic` | rover.swift:51-56 | Adding `k * max` to the coordinate, for any integer `k`, does not change the result. |
| `Planets.WrapSameIffCongruent` | rover.swift:50-57 | Two coordinates wrap to the same value exactly when their difference is a multiple of `max` (both directions). |
| `Planets.WrapIdentity` | rover.swift:51-53 | A coordinate already in `[0, max)` is returned unchanged. |
| `Planets.WrapIdempotent` | rover.swift:50-57 | Wrapping a wrapped coordinate changes nothing. |
| `Planets.Planet.Locate` | rover.swift:46-62 | Needs both sizes non-zero. On each axis the located position differs from the input by a multiple of that size. On a planet of positive size it is a cell of the grid. |
| `Planets.LocateIsEuclideanRemainder` | rover.swift:59-61 | On a planet of positive size, `locate(p)` is `(p.x mod sizeX, p.y mod sizeY)` with mathematical modulo. |
| `Planets.LocateIdentity` | rover.swift:51-53 | A position already inside the grid is located at itself. |
| `Planets.LocateIdempotent` | rover.swift:46-62 | `locate(locate(p)) == locate(p)`. |
| `Planets.LocatePeriodic` | rover.swift:46-62 | Moving the input by `i * sizeX` and `j * sizeY`, for any integers `i` and `j`, gives the same cell. |
| `Planets.LocateSameIffCongruent` | rover.swift:46-62 | Two positions locate to the same cell exactly when they differ by a multiple of the size on each axis. |
| `Planets.LocateFarCorner` | rover.swift:99-100 | On every planet of positive size, `locate((sizeX, sizeY)) == (0, 0)`. |
| `Planets.LocateMinusOne` | rover.swift:105-106 | On every planet of positive size, `locate((-1, -1)) == (sizeX - 1, sizeY - 1)`. |
| `Positions.Position.Equals` | rover.swift:37-39 | Position `==` holds exactly when both coordinates match, so it coincides with value equality. |
| `Planets.Planet.Equals` | rover.swift:65-67 | Planet `==` holds exactly when name, `sizeX` and `sizeY` all match, so it coincides with value equality. Names are compared character by character (see "Left out"). |
| `Rovers.MarsRoverAt` | rover.swift:5-8 | The landing place holds exactly the given `(x, y)`, and the pair can be read back from it. |
| `Rovers.MarsRover.Land` | rover.swift:10-25 | The landed rover's planet is the given planet and its position is `planet.locate(landingPlace)`. On a planet of positive size, that position is a cell: the componentwise Euclidean remainder of the landing place. |
| `Rovers.LandInsideGridKeepsPlace` | rover.swift:10-12 | A rover whose landing place is already a cell lands exactly there. |
| `Rovers.LandPeriodic` | rover.swift:5-12 | Starting points that differ by whole turns around the planet give the same landed rover. |
| `Scenarios.CreatedRoverKeepsStartingPoint` | rover.swift:79-83 | A rover created at `(0, 0)` has landing place `Position(0, 0)`. |
| `Scenarios.LandedRoverIsOnMars` | rover.swift:86-91 | Landing that rover on Mars gives a rover whose planet equals Mars, at `(0, 0)`. |
| `Scenarios.MarsFarCornerWrapsToOrigin` | rover.swift:97-101 | `mars.locate((100, 100)) == (0, 0)`. |
| `Scenarios.MarsMinusOneWrapsToFarCorner` | rover.swift:103-107 | `mars.locate((-1, -1)) == (99, 99)`. |
| `Scenarios.PositionEqualityExamples` | rover.swift:110-117 | `(10, 100) == (10, 100)` and `(10, 100) != (0, 0)`. |
| `Scenarios.NegativeSizeLocatesOutsideGrid` | rover.swift:41-57 | A planet of size `-3` by `-3` is accepted, and `(-1, -1)` is located at `(-4, -4)`, outside any grid. |

## Left out

- `Planets.Planet.Equals`: compares names as sequences of code points. Swift's `String ==` compares by Unicode canonical equivalence, so `"Caf\u{E9}"` and `"Cafe\u{301}"` are equal in Swift and different here. The model has no Unicode normalisation.
- Fixed-width `Int`: coordinates and sizes are unbounded integers. Swift's overflow traps are not modelled: `Int.min % -1` in `%`, and `max + remainder` (rover.swift:55) when a negative size is near `Int.min`.
- The unused `x`/`y` locals in `locate` (rover.swift:47-48): they do not affect the result. Their only effect is the trap on a zero size, and `Locatable()` already excludes that.
- Reference identity: `Position`, `MarsRover` and `LandedMarsRover` are classes in the source. Their fields are set only by their initialisers, and only structural `==` is used. They are modelled as values, so "landing leaves the unlanded rover unchanged" holds by construction.
- `LandedMarsRover.init` (rover.swift:21-24) is the datatype constructor `LandedMarsRover(planet, position)` and has no member of its own.
- The test runner, the top-level calls and the final `println` (rover.swift:69-122): these are I/O and glue. The assertions in them are the `Scenarios` lemmas.
- Facing, turning and the `f`/`b` command loop: the source has none of them, so they are not modelled.
- A size check or error on planet construction: the source has none. A zero size traps in `%` and is a precondition here. A negative size is accepted, as in the source.
