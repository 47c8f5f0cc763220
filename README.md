# Game of Life engine, modelled in Dafny

This project models the simulation engine of a small Python implementation of
Conway's Game of Life (`gol.py`). It covers three parts:

- the grid, built from a seed list as a dense row-major list of cells;
- the neighbour count of one cell, found by scanning every cell of the grid;
- the generation update, which rewrites the cells' alive flags in place.

The engine's snapshot helpers are modelled too: flattening the flags to 0/1
and reshaping them into a matrix.

Modules, one per class of the source:

- `Cells` (`cells.dfy`): the `Cell` value (`x`, `y`, `alive`) and the distance
  test of `get_neighbours`. The float test `int(sqrt(d2)) == 1 or
  sqrt(d2) == sqrt(2)` becomes `FloorSqrt(d2) == 1 || d2 == 2`, where `d2` is
  the squared distance and `FloorSqrt` is the integer square root. It is proved
  equal to `1 <= d2 < 4`, to `d2 in {1, 2}`, and to "one of the eight offsets
  around the cell". `GetNeighbours` is the counting loop. `NeighbourCount` is
  its specification, and `AdjacentAliveCount` is an independent reference count
  by offsets.
- `Grids` (`grids.dfy`): the `Grid` class, with `cells: seq<Cell>` as the
  mutable list.
  - `InitializeCells` is the nested row/column loop with its inner scan of the
    seeds. Its result is tied to `Positions(w, h)`, the row-major layout.
  - `GetAliveCells` is the filtering loop.
  - `UpdateCells` is the in-place index loop. It is specified by
    `Stage(cells, k)`, the list after the first `k` visits.
  - `Python range(n)` with `n <= 0` does nothing, so a non-positive size gives
    an empty grid (`Dim`).
- `Games` (`games.dfy`):
  - The `Game` class: its constructor, and `GetGrid` over the pure `Snapshot`
    (`to_bits` mapped over the flags, then `reshape`).
  - `GenerateInitialStates`, with the random numbers passed in as a parameter.

The update is sequential: cell `i` is visited in index order, and its neighbour
count is taken against the list as it is at that moment. So cells below `i`
already hold their new state, and cells from `i` on still hold their old one.
Conway's rule is normally described as simultaneous. The code does not work
that way, and the model follows the code (`Grids.SequentialUpdate`). Nothing
here claims that blinkers oscillate or that blocks are stable, because the code
does not guarantee it.

Randomness is a parameter. `draws` is the sequence of pairs that
`np.random.randint` would return, each assumed in range. A draw from a
non-positive bound is numpy's `ValueError`, modelled as `Err(NonPositiveHigh)`.

## Model

| member | source | states |
|---|---|---|
| `Cells.SquaredDistance` | gol.py:69-71 | the squared Euclidean distance of two points; it is 0 exactly when the points coincide |
| `Cells.FloorSqrt` | gol.py:78 | the integer square root: the r with r*r <= n < (r+1)*(r+1); `int(sqrt(d2)) == 1` agrees with `FloorSqrt(d2) == 1` on every d2, though the two roots can differ for very large n |
| `Cells.NeighbourDistanceIff` | gol.py:78 | the adjacency test holds exactly when 1 <= d2 < 4 |
| `Cells.NeighbourOffsets` | gol.py:69-78 | for integer coordinates the test holds exactly at the eight offsets {-1,0,1}^2 without (0,0), i.e. exactly when d2 is 1 or 2 |
| `Cells.IsNeighbourDistance` | gol.py:78 | the distance half of the test, `int(distance) == 1 or distance == sqrt(2)`, on the squared distance: `FloorSqrt(d2) == 1 || d2 == 2` (definition; its meaning is proved by `NeighbourDistanceIff` and `NeighbourOffsets`) |
| `Cells.Counts` | gol.py:78-79 | the whole condition of the loop body: at neighbour distance and `cell.alive` (definition) |
| `Cells.NeighbourCount` | gol.py:73-80 | the number the loop returns: the cells of the list, in order, that `Counts` accepts (definition; bounds and the offset characterisation are the lemmas below) |
| `Cells.SelfNeverCounts` | gol.py:76-79 | a cell never counts itself (distance 0), alive or dead |
| `Cells.GetNeighbours` | gol.py:73-80 | the loop returns the number of cells of the list that are alive and at neighbour distance, in list order |
| `Cells.NeighbourCountIsAdjacentCount` | gol.py:73-80 | that count equals the number of alive cells at one of the eight offsets |
| `Cells.NeighbourCountAtMostLength` | gol.py:73-80 | the count is at most the number of cells scanned |
| `Cells.NoAliveNoNeighbours` | gol.py:76-79 | with no alive cell in the list the count is 0 |
| `Cells.NeighbourCountAtMostEight` | gol.py:73-80 | when no two cells share a position, the count is between 0 and 8 |
| `Grids.Grid.constructor` | gol.py:12-18 | stores sizes and seeds; the cells are laid out row-major over range(y_size) by range(x_size) and alive exactly when their position is a seed |
| `Grids.Grid.InitializeCells` | gol.py:20-30 | appends, after the existing cells, one cell per position of `Positions`, each alive exactly when some seed equals `[column, row]` |
| `Grids.Grid.AddCell` | gol.py:32-34 | appends exactly the given cell |
| `Grids.PositionsLength` | gol.py:22-23 | a w by h grid has exactly w*h cells |
| `Grids.PositionsAt` | gol.py:22-29 | the cell at index row*w + column has x == column and y == row |
| `Grids.PositionsInRange` | gol.py:22-29 | every cell lies within 0 <= x < w, 0 <= y < h |
| `Grids.PositionsDistinct` | gol.py:22-29 | no two cells share a position |
| `Grids.LayoutFacts` | gol.py:20-30 | a laid-out grid has w*h cells with distinct positions, all in range |
| `Grids.SeededCellAt` | gol.py:20-30 | after initialisation the cell at index row*w + column is at (column, row) and is alive exactly when `[column, row]` is a seed |
| `Grids.SeedingIgnoresDuplicatesAndOutOfRange` | gol.py:24-28 | two seed lists with the same in-range positions, repeated or not, with any out-of-range extras, give the same cells |
| `Grids.DuplicateSeedCollapses` | gol.py:24-28 | on every grid at least 2 by 2, seeds [0,0], [0,0], [1,1] give exactly two alive cells |
| `Grids.AliveCells` | gol.py:36-42 | the list `get_alive_cells` builds: the alive cells in storage order (definition; characterised by `AliveCellsSelection` and `AliveCellsMembers`) |
| `Grids.Grid.GetAliveCells` | gol.py:36-42 | returns the alive cells of the grid in storage order and changes nothing |
| `Grids.AliveCellsSelection` | gol.py:36-42 | the returned list is at most as long as the grid, its k-th element is the cell at the k-th alive index, those indices ascend, and an index is among them exactly when its cell is alive |
| `Grids.AliveCellsMembers` | gol.py:36-42 | every returned cell is alive and in the grid, and every alive cell of the grid is returned |
| `Grids.Rule` | gol.py:49-56 | the branch structure of the update is B3/S23: the new flag is true exactly when the count is 3, or the cell is alive and the count is 2 |
| `Grids.Visit` | gol.py:47-56 | one pass of the loop body: cell i gets the rule's flag for the count taken against the current list; the number of cells and every position are kept |
| `Grids.Stage` | gol.py:46-56 | any number of visits keeps the number of cells and every position |
| `Grids.Step` | gol.py:46-56 | all visits in index order: the state `update_cells` leaves; the number of cells and every position are kept |
| `Grids.Grid.UpdateCells` | gol.py:44-56 | the grid after the call is the list after all visits in index order; the number of cells, every position and the row-major layout are kept, only alive flags change |
| `Grids.SequentialUpdate` | gol.py:46-56 | cell k's new flag is the rule on its old flag and on the count taken at visit k, against a list whose cells below k hold their new states and whose cells from k on hold their old ones |
| `Grids.UpdateRuleCases` | gol.py:49-56 | alive with fewer than 2 dies, alive with more than 3 dies, alive with 2 or 3 stays alive, dead with exactly 3 is born, any other dead cell stays dead |
| `Grids.VisitCountAtMostEight` | gol.py:46-48 | on a grid built by `initialize_cells` the count taken at each visit is at most 8 |
| `Grids.AllDeadIsFixed` | gol.py:46-56 | a grid with no alive cells is unchanged by the update |
| `Games.GenerateInitialStates` | gol.py:91-97 | returns the first `num` draws in order, or nothing when `num <= 0`; fails exactly when `num > 0` and a size is not positive; every returned pair is in range |
| `Games.Game.constructor` | gol.py:86-89 | the seeds are the first `live_cells` draws and the grid is built from them with the given sizes |
| `Games.ToBits` | gol.py:99-104 | the result is 0 or 1, and 1 exactly for a true flag |
| `Games.Bits` | gol.py:109-110 | `to_bits` applied to every cell's flag: one entry per cell, entry k the bit of cell k |
| `Games.Reshape` | gol.py:112 | numpy's `reshape((rows, cols))` of a list of rows*cols entries: rows lists of cols entries each (entries placed by `ReshapeAt`) |
| `Games.Snapshot` | gol.py:108-112 | the flags mapped to bits and reshaped to rows lists of cols entries |
| `Games.ReshapeAt` | gol.py:112 | entry [i][j] of the reshaped list is flat entry i*cols + j |
| `Games.SnapshotAt` | gol.py:108-112 | snapshot entry [r][c] is `to_bits` of the cell stored at index r*cols + c: 1 if it is alive, 0 if not |
| `Games.SnapshotEntries` | gol.py:108-112 | every entry [r][c] of a rows-by-cols snapshot is `to_bits` of the cell stored at index r*cols + c |
| `Games.Game.GetGrid` | gol.py:106-113 | reads `self.grid` (the `grid` argument is unused) and returns x_size rows of y_size entries, entry [r][c] being `to_bits` of the cell stored at index r*y_size + c; changes nothing |
| `Games.GetGridMisplacesNonSquare` | gol.py:112 | on a 3-wide, 2-high grid `get_grid` returns 3 rows, and its entry [1][0] is the cell at (2, 0), while the grid's row 1, column 0 is the cell at (0, 1) |
| `Games.Game.GetGridByRows` | gol.py:112 | reshaped to (y_size, x_size), the bit of every cell sits at [y][x] |
| `Games.SnapshotByRows` | gol.py:112 | the same property stated on a laid-out list of cells |

## Left out

- Console and animation drivers: `clear`, `run_game`, `run_game_with_limit`, `animate`, `animate_num_of_cells` and `start_game` (gol.py:115-175). These are I/O, prompts and infinite loops; the global `game`, `cell_history`, `fig` and axes go with them.
- `np.random.randint` (gol.py:95) is foreign and nondeterministic. The model takes the draws as the parameter `draws`, with each pair in range.
- Floating point: `np.sqrt` and float equality (gol.py:71, 78) are replaced by the exact integer test. Rounding of `sqrt` for huge squared distances does not change the result, because any such distance is at least 2.
- `Cells.SquaredDistance`: returns the square of what `compute_distance` returns; the root is never taken.
- Object identity: Python `Cell`s are shared objects, so the list `get_alive_cells` returns aliases the grid's cells. The model stores cells as values in `Grid.cells` and returns copies. The grid owns its cells exclusively, so no observable result of the modelled operations changes.
- Seeds are pairs `(column, row)`. A Python seed of another shape (a tuple, a list of another length) never equals `[column, row]` and is ignored; that case is not represented.
- The unused `Cell.num_neighbours` field (gol.py:67) is not modelled.
- `Games.Game.constructor`: requires that no draw fails, i.e. positive sizes whenever `live_cells > 0`. The failure itself, numpy's `ValueError`, is modelled by `Games.GenerateInitialStates`.
- `Games.Game.GetGrid`: requires non-negative sizes. For a negative size, numpy's `reshape` infers the dimension or raises an error; that is not modelled.
- An alive-count operation and a step operation on `Game` are not in the source (the drivers call `len(game.grid.get_alive_cells())` and `game.grid.update_cells()` directly), so there are none here.
- Validation errors for non-positive sizes or negative counts are not implemented by the code and are not modelled. Negative sizes give an empty grid, as `range` does.

## Findings

| source | as written | input that shows it | evidently intended | confidence | as-written member | corrected member |
|---|---|---|---|---|---|---|
| gol.py:112 | `reshape((x_size, y_size))` of a row-major list whose rows have x_size cells | a grid 3 wide and 2 high: the matrix has 3 rows, and entry [1][0] is the cell at (2, 0), so cells (2, 0) and (0, 1) are shown side by side | `reshape((y_size, x_size))`: one matrix row per grid row, cell (x, y) at [y][x] | medium, not executed | `Games.GetGridMisplacesNonSquare` | `Games.Game.GetGridByRows` |

`Games.Game.GetGrid` keeps the behaviour as written. `Games.Game.GetGridByRows`
is the corrected snapshot, and `Games.SnapshotByRows` proves its placement.
For square grids the two agree.
