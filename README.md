# Game of Life core, modelled in Dafny

This project models the core of the `game_of_life` package
(`game_of_life/model.py`). It covers Conway's Game of Life on a finite grid
with hard edges, and the seed patterns that can be placed on a screen.

- `errors.dfy` (module `Errors`): the exceptions of the package as values.
  - `OutOfBoundError` becomes `OutOfBound(x, y)`.
  - The two `ValueError`s of `World.__init__` become `InvalidWidth` and `InvalidHeight`.
  - The `ValueError` of `Pattern.as_screen_coordinate` becomes `PatternTooLarge(minWidth, minHeight)`.
  - A call that can raise returns a `Result<T>` or an `Outcome`.
- `rules.dfy` (module `Rules`): the pure part of the world, as functions of a snapshot
  `(width, height, alives)`.
  - the `check_boundary` test;
  - `_calc_neighbors`, with the candidates in the source's order;
  - the live-neighbour count;
  - `_calc_aliveness`, with the source's branches;
  - the full-grid B3/S23 generation `FullGeneration`, the independent reference for `advance`.
- `world.dfy` (module `Worlds`): `World` is a class.
  - Its size is fixed at construction.
  - Its live set is a `set<Cell>` field, updated in place by `SetAlive`, `SetDead`,
    `ToggleAliveness` and `Advance`.
  - `Advance` keeps the source's two loops: over the live cells, in an unspecified
    order, and over their neighbours. It is proved to produce exactly `FullGeneration`
    of the previous live set.
  - `Flip` is the state change that `ToggleAliveness` makes; `FlipTwice` states that
    toggling the same cell twice restores the live set.
- `scenarios.dfy` (module `Scenarios`): general facts and the concrete scenarios
  of the test suite, as lemmas.
  - General facts: sparse worlds die out; in a three-cell world, a cell lives exactly
    when every other live cell is adjacent to it; a cell with four or more live
    neighbours dies.
  - Concrete scenarios: solitude, a single neighbour, overpopulation, the L-shape
    that becomes a block (in the middle and in two corners).
- `patterns.dfy` (module `Patterns`): the `Pattern` value, `as_screen_coordinate`,
  the built-in catalogue `Patterns`, and the placement properties: round trip,
  bounds, monotonicity and the minimal reported size.

Coordinates are unbounded integers, as in Python. `int(width / 2)` is modelled
as truncation towards zero (`TruncHalf`). For the positive sizes that placement
accepts, this is `width / 2`.

## Model

| member | source | states |
|---|---|---|
| Rules.CheckBoundary | game_of_life/model.py:9-17 | Succeeds exactly when 0 <= x < width and 0 <= y < height; otherwise fails with OutOfBound(x, y) |
| Rules.KeepInBounds | game_of_life/model.py:69-71 | A cell is kept exactly when it is a candidate and in bounds; a duplicate-free candidate list gives a duplicate-free result, no longer than the candidates |
| Rules.KeepInBoundsAppend | game_of_life/model.py:69-71 | Filtering distributes over concatenation: filtering a + b gives the filtered a followed by the filtered b, so kept candidates stay in their original order |
| Rules.Neighbors | game_of_life/model.py:60-71 | A cell is listed exactly when it is in bounds and Moore-adjacent to (x, y); (x, y) itself is never listed; no duplicates; at most 8 |
| Rules.NeighborsLength | game_of_life/model.py:60-71 | The number of neighbours is the number of the eight Moore offsets that stay on the grid |
| Rules.NeighborCounts | game_of_life/model.py:60-71 | On a grid of at least 2 x 2: 8 neighbours for an interior cell, 5 on a side, 3 in a corner |
| Rules.NeighborsSymmetric | game_of_life/model.py:60-71 | For two in-bounds cells, a is a neighbour of b exactly when b is a neighbour of a |
| Rules.CountAlive | game_of_life/model.py:75-76 | The live count is at most the number of neighbours; a positive count has a live witness |
| Rules.CountAliveIsCardinality | game_of_life/model.py:75-76 | For a duplicate-free list, the count is the size of the set of its live members |
| Rules.LiveNeighbors | game_of_life/model.py:74-76 | The value `alive_nbrs_count`: at most the number of neighbours, hence at most 8; LiveNeighborsCountsAdjacentLiveCells gives its exact value |
| Rules.LiveNeighborsCountsAdjacentLiveCells | game_of_life/model.py:73-76 | The live-neighbour count equals the number of live, in-bounds cells adjacent to (x, y) |
| Rules.CalcAliveness | game_of_life/model.py:73-89 | Fails with OutOfBound exactly for an off-grid cell; otherwise a live cell lives on with 2 or 3 live neighbours and a dead cell is born with exactly 3 (B3/S23) |
| Rules.FullGenerationMember | game_of_life/model.py:73-89 | A cell is in the next full-grid generation exactly when it is in bounds and B3/S23 holds for its state and live-neighbour count |
| Rules.CandidateGeneration | game_of_life/model.py:92-97 | The set `next_alives` that the loops of `advance` build from the cells of `from`: every member lives on; CandidateMember characterises membership and AdvanceIsExact gives its value |
| Rules.AdvanceIsExact | game_of_life/model.py:91-99 | Checking only the neighbours of live cells gives the same set as checking every cell of the grid |
| Rules.CandidateMember | game_of_life/model.py:93-97 | A cell is collected exactly when it neighbours some cell of the scanned set and lives on |
| Rules.BornNextToLife | game_of_life/model.py:91-99 | Every cell of the next generation is a neighbour of some currently live cell, so the scan over live cells misses none |
| Worlds.World.Create | game_of_life/model.py:22-29 | Width <= 0 gives InvalidWidth, checked first; otherwise height <= 0 gives InvalidHeight; otherwise a fresh valid world of that size with no live cells |
| Worlds.World.constructor | game_of_life/model.py:22-29 | For positive sizes: a valid world of that size with no live cells |
| Worlds.World.Size | game_of_life/model.py:32-34 | Returns the construction-time (width, height); both are positive |
| Worlds.World.Alives | game_of_life/model.py:36-38 | Returns every live cell exactly once and nothing else; its length is the number of live cells |
| Worlds.World.IsAlive | game_of_life/model.py:49-51 | In bounds: whether (x, y) is live; out of bounds: OutOfBound(x, y) |
| Worlds.World.SetAlive | game_of_life/model.py:40-42 | In bounds: adds (x, y) and nothing else; out of bounds: OutOfBound and the live set is unchanged; keeps every live cell on the grid |
| Worlds.World.SetDead | game_of_life/model.py:44-47 | In bounds: removes (x, y), silently when it is already dead, and nothing else; out of bounds: OutOfBound and the live set is unchanged |
| Worlds.World.ToggleAliveness | game_of_life/model.py:53-58 | In bounds: flips (x, y) and no other cell; out of bounds: OutOfBound and the live set is unchanged |
| Worlds.World.Advance | game_of_life/model.py:91-99 | The new live set is exactly the full-grid B3/S23 generation of the old one; every live cell stays on the grid |
| Worlds.Flip | game_of_life/model.py:53-58 | The toggled cell changes state; every other cell keeps it |
| Worlds.FlipTwice | game_of_life/model.py:53-58 | Toggling the same cell twice restores the live set |
| Scenarios.SparseWorldDiesOut | tests/test_world.py:342-360 | A world with at most two live cells has an empty next generation |
| Scenarios.NextGenerationMember | game_of_life/model.py:73-89 | Next-generation membership in terms of the set of live adjacent cells |
| Scenarios.AroundIsAllOthers | game_of_life/model.py:73-76 | The live cells adjacent to c are all the other live cells exactly when each of them is adjacent to c |
| Scenarios.ThreeCellWorld | game_of_life/model.py:73-99 | With three live cells on the grid, a cell is in the next generation exactly when it is in bounds and every other live cell is adjacent to it |
| Scenarios.ThreeCellNext | game_of_life/model.py:91-99 | The next generation of a three-cell world is the set of in-bounds cells adjacent to every other live cell |
| Scenarios.LoneCellDies | tests/test_world.py:342-349 | A single live cell on a 10 x 10 grid leaves no live cell |
| Scenarios.AdjacentPairDies | tests/test_world.py:351-360 | Two adjacent live cells both die and no cell is born |
| Scenarios.LShapeBecomesBlock | tests/test_world.py:375-395 | The L-shape (5,5), (6,5), (5,6) survives and (6,6) is born |
| Scenarios.CornerLBecomesBlock | tests/test_world.py:397-408 | In the (0,0) corner of any grid of at least 2 x 2, the L-shape becomes a block |
| Scenarios.FarCornerLBecomesBlock | tests/test_model.py:427-443 | In the (9,9) corner of a 10 x 10 grid, the L-shape becomes a block |
| Scenarios.CrowdedCellDies | game_of_life/model.py:83-84 | A cell with four or more live neighbours is not in the next generation |
| Scenarios.CrowdedCellsDie | tests/test_world.py:362-373 | In the five-cell cluster, (5,5) and (6,5) die of overpopulation |
| Patterns.Pattern | game_of_life/model.py:102-117 | A pattern is its name and its offsets, in the order given; AsScreenCoordinate and PlacementRoundTrip describe how it is placed |
| Patterns.Catalogue | game_of_life/model.py:136-142 | The four built-in patterns with the source's names and offsets, in menu order; CatalogueFits states that each places on any screen of at least 5 x 5 and that the names are distinct |
| Patterns.MaxAbs | game_of_life/model.py:123-124 | The result bounds the absolute value of every element and is attained by one of them |
| Patterns.FitsIffBox | game_of_life/model.py:123-126 | A pattern fits exactly when 1 + 2 * max abs(dx) <= width and 1 + 2 * max abs(dy) <= height |
| Patterns.AsScreenCoordinate | game_of_life/model.py:119-133 | Empty pattern: an empty placement. Otherwise it succeeds exactly when every offset fits, and on failure reports PatternTooLarge with a size that exceeds the screen. On success each offset (dx, dy) maps, in order, to (dx + width/2, -dy + height/2), which is on the grid |
| Patterns.Place | game_of_life/model.py:130-131 | For a fitting list: same length, each offset mapped in order to its centred, y-flipped screen cell, which is in bounds |
| Patterns.ToScreenInBounds | game_of_life/model.py:130-131 | A fitting offset lands inside the screen |
| Patterns.PlacementRoundTrip | game_of_life/model.py:130-131 | Mapping every placed cell back recovers the pattern's offsets, in order |
| Patterns.PlacementMonotone | game_of_life/model.py:123-128 | A pattern that fits a screen fits every larger screen |
| Patterns.ReportedSizeIsMinimal | game_of_life/model.py:123-128 | The size reported on failure is accepted, and a screen one column narrower or one row lower is refused |
| Patterns.CatalogueFits | game_of_life/model.py:136-142 | Every built-in pattern places successfully on any screen of at least 5 x 5; the names are distinct |
| Patterns.GliderOnScreen | tests/test_model.py:31-44 | The Glider on an 11 x 33 screen lands on (6,16), (5,15), (4,17), (5,17), (6,17), in order |
| Patterns.EmptyPatternPlacesNothing | tests/test_model.py:46-51 | An empty pattern places nothing, whatever the screen size |
| Patterns.TooLargeForScreen | tests/test_model.py:53-61 | Offsets (10,5), (-8,-10) are refused on 20 x 20 with the reported size 21 x 21, and accepted on 21 x 21 |

## Left out

- The views, the GUI, the presenter, the command line, the entry point and the packaging (`view.py`, `gui.py`, `presenter.py`, `cli.py`, `__main__.py`, `setup.py`) are not part of this model.
- `tests/test_world.py` imports `game_of_life.world`, which is not part of this model. Its scenarios are stated against the world model of `game_of_life/model.py`.
- `Pattern.__repr__` and the text of the exception messages are not modelled. An error carries only its kind and its data: the coordinates, or the minimum size.
- `World._corners` is computed by the constructor but never read; it is not modelled.
- Worlds.World.Alives: the tuple's order follows Python's set iteration, which is unspecified. The model picks cells in an arbitrary order and promises only the contents, no duplicates and the length.
- Worlds.World.Advance: the iteration order of the live set is unspecified here as in Python. The result does not depend on it, and the contract states this.
- Patterns.AsScreenCoordinate: `int(width / 2)` goes through a float in Python and can lose precision for sizes beyond 2^53. The model uses exact integer halving.
- Worlds.World.constructor: requires positive sizes. `Worlds.World.Create` models the `ValueError` paths of `__init__` as `InvalidWidth` and `InvalidHeight`.
- Python's dynamic typing is not modelled: coordinates and sizes are always integers, and the pattern offsets are pairs.
