# Game of Life engine, modelled in Dafny

This project models the simulation engine of a Conway's Game of Life program
written for a micro:bit (`src/game.rs`). The grid is a fixed 100 x 100 array of
cells, each `Dead` or `Alive`. The engine has four parts:

- A grid store whose `new()` starts with every cell dead.
- A seed loader, `from_grid`. It copies a 5 x 5 byte matrix into the grid: nonzero bytes
  become `Alive` and zero bytes `Dead`.
- A viewport reader, `display`. It reads the same 5 x 5 window back as bytes, 1 for `Alive`
  and 0 for `Dead`.
- An evolution step, `transform`, applied by `evolve`. It builds a fresh grid by the
  B3/S23 rule. Each count is taken over the in-grid neighbours, so edges are clipped, not
  wrapped, and every count reads the old grid.

Files:

- `game.dfy`, module `GameOfLife`, holds the engine. A value-level
  specification comes first: `Board` is a grid as `seq<seq<Cell>>`. Then come
  `EmptyBoard`, `Seeded`, `Viewport`, `Neighbors`, `LiveCount`, `Rule` and `Step`.
  The class `Game` holds the grid as an `array2<Cell>`, like the source's
  `[[Cell; 100]; 100]`. Each of its methods is proved against the value-level
  specification: `FromGrid`, `Display`, `Evolve` and `Transform`. `Cells()` is the
  grid's value.
- `properties.dfy`, module `GameOfLifeProperties`, holds the properties:
  - The seed/window round trip.
  - Only the window is written.
  - The shape of the neighbourhood: corners 3, edges 5, interior 8.
  - The per-cell rule, and that each step is local.
  - The empty grid is a fixed point, and a lone cell dies.

Two points where the code differs from what its comments suggest. The model
follows the code in both.

- The window is not centred. `get_display_coords` adds `SIM_WIDTH / 2` = 50
  to both coordinates (src/game.rs:66-67, 73-74), so the window is rows and
  columns 50..54. A centred window would start at (100 - 5) / 2 = 47. The
  model uses offset 50 (`DisplayOffset`). The round trip still holds because
  the seed loader and the viewport reader share the mapping.
- The doc comment of `neighbors` (src/game.rs:110) speaks of bounds `0..=SIM_WIDTH`.
  The code checks `0 <= x < SIM_WIDTH` (src/game.rs:119), and `Candidate` models that check.

How the count is specified: `Neighbors` lists the neighbour coordinates in the
order the source's nested iterators yield them. `LiveCount` filters that list on
the grid and counts, as `.filter(...).count()` does. `Step` counts instead the set
`LiveNeighborSet`: the live cells in the grid that are at most one row and one
column away, other than the cell itself. The lemma `LiveCountNeighbors` proves
that the two counts are equal.

## Model

| member | source | states |
|---|---|---|
| `GameOfLife.EmptyBoard` | src/game.rs:20-24 | the initial grid is a full 100 x 100 grid with every cell dead |
| `GameOfLife.Game.constructor` | src/game.rs:19-24 | a new game's grid is a fresh 100 x 100 array whose every cell is dead |
| `GameOfLife.ByteToCell` | src/game.rs:32-36 | a nonzero seed byte becomes Alive, a zero byte Dead |
| `GameOfLife.CellToByte` | src/game.rs:52-55 | a cell shown in the window is always the byte 0 or 1 |
| `GameOfLife.DisplayCoords` | src/game.rs:64-76 | window position (row, col) maps to grid cell (row + 50, col + 50); for positions inside the 5 x 5 window the result lies in the grid and in rows and columns 50..54 |
| `GameOfLife.Game.DisplayCell` | src/game.rs:65-69 | reads the cell that window position (row, col) maps to |
| `GameOfLife.Game.SetDisplayCell` | src/game.rs:72-76 | writes exactly the cell that window position (row, col) maps to; every other cell keeps its value |
| `GameOfLife.Game.FromGrid` | src/game.rs:27-43 | the new game's grid equals `Seeded(seed)`: each window cell is alive exactly when its seed byte is nonzero, and every other cell is dead |
| `GameOfLife.Game.Display` | src/game.rs:46-62 | the returned 5 x 5 matrix holds, for each window position, the byte of the grid cell it maps to; it changes nothing |
| `GameOfLife.Candidate` | src/game.rs:114-125 | an offset yields at most its own shifted coordinates, and only when they are in the grid and not the cell itself |
| `GameOfLife.CandidateRow` | src/game.rs:114-126 | the inner iterator for row offset di yields only in-grid coordinates of row i + di, at most one column away, other than the cell itself |
| `GameOfLife.Neighbors` | src/game.rs:112-128 | every yielded coordinate is in the grid (0 <= x, y < 100), differs from (i, j), and is at most one row and one column away |
| `GameOfLife.NeighborsComplete` | src/game.rs:112-128 | every in-grid cell at most one row and one column from (i, j), other than (i, j), is yielded |
| `GameOfLife.NeighborsDistinct` | src/game.rs:112-128 | no coordinate is yielded twice |
| `GameOfLife.LiveCount` | src/game.rs:90-92 | the filtered count of live cells never exceeds the number of coordinates counted |
| `GameOfLife.LiveCountDistinct` | src/game.rs:90-92 | over coordinates without repetition, the filtered count is the number of distinct live coordinates |
| `GameOfLife.LiveCountNeighbors` | src/game.rs:90-92 | filtering the neighbour iterator on the grid and counting gives the number of live in-grid cells adjacent to (i, j) |
| `GameOfLife.Rule` | src/game.rs:94-98 | the next cell is alive exactly when the cell is alive with 2 or 3 live neighbours, or dead with exactly 3 |
| `GameOfLife.Game.CountAlive` | src/game.rs:90-92 | the loop's count equals `LiveCount` of the current grid over the given coordinates |
| `GameOfLife.Game.NextCellOf` | src/game.rs:90-98 | the computed cell is the rule applied to the old cell and its live-neighbour count |
| `GameOfLife.Game.FillRow` | src/game.rs:89-101 | row i of the output holds the next generation; no other output row changes and the game itself is only read |
| `GameOfLife.Game.Transform` | src/game.rs:85-105 | returns a fresh game whose grid is `Step` of this game's grid; this game is not modified, so every count reads the old grid |
| `GameOfLife.Game.Evolve` | src/game.rs:81-83 | the game's grid is replaced by a fresh array holding `Step` of the prior grid |
| `GameOfLifeProperties.SeedViewRoundTrip` | src/game.rs:27-62 | the window of a seeded grid is the seed with each nonzero byte replaced by 1 |
| `GameOfLifeProperties.SeedViewRoundTripExact` | src/game.rs:27-62 | for a seed of 0s and 1s, the window of the seeded grid equals the seed |
| `GameOfLifeProperties.DisplayAfterFromGrid` | src/game.rs:27-62 | calling `FromGrid` and then `Display` returns the normalized seed, and the seed itself when it holds only 0s and 1s |
| `GameOfLifeProperties.SeededCells` | src/game.rs:28-40 | outside rows and columns 50..54 a seeded grid is dead, as in a new game; inside, a cell is alive exactly when its seed byte is nonzero |
| `GameOfLifeProperties.ViewportBits` | src/game.rs:46-62 | every window byte is 0 or 1, and it is 1 exactly when the corresponding cell is alive |
| `GameOfLifeProperties.NeighborsExactly` | src/game.rs:112-128 | a coordinate is yielded if and only if it is in the grid, is not (i, j), and is at most one row and one column away |
| `GameOfLifeProperties.NeighborCount` | src/game.rs:112-128 | a cell has (in-grid rows among i-1..i+1) x (in-grid columns among j-1..j+1) - 1 neighbours |
| `GameOfLifeProperties.NeighborCountByPosition` | src/game.rs:112-128 | corner cells have 3 neighbours, other edge cells 5, interior cells 8 |
| `GameOfLifeProperties.CornerNeighbors` | src/game.rs:112-128 | the neighbours of (0, 0) are exactly (0, 1), (1, 0), (1, 1), in that order |
| `GameOfLifeProperties.StepCell` | src/game.rs:85-105 | after a step a cell is alive exactly when it was alive with 2 or 3 live neighbours, or dead with exactly 3, counting the neighbour iterator filtered on the old grid |
| `GameOfLifeProperties.StepLocal` | src/game.rs:86-104 | a cell's next state depends only on the old states of its 3 x 3 block, so no cell's new value affects another cell's count |
| `GameOfLifeProperties.IsolatedCellDies` | src/game.rs:94-98 | a cell with no live neighbour is dead after a step |
| `GameOfLifeProperties.EmptyIsFixedPoint` | src/game.rs:85-105 | one step leaves the all-dead grid all dead |
| `GameOfLifeProperties.EmptyStaysEmpty` | src/game.rs:81-83 | any number of steps leaves the all-dead grid all dead, and its window all zeros |
| `GameOfLifeProperties.LoneCellDies` | src/game.rs:94-98 | a grid with one live cell, corners included, becomes all dead after one step |
| `GameOfLifeProperties.EmptyGameStaysBlank` | src/game.rs:20-24 | a new game run through `Evolve` any number of times displays all zeros |

## Left out

- `src/main.rs` is not part of this model. It does the board bring-up, the LED rendering with its 250 ms delay, the button reads and the auto-play toggle, all over hardware libraries. It only calls `from_grid`, `display` and `evolve`.
- Integer casts: the `isize`/`usize` casts are modelled as plain `int`. Every index the engine computes lies in 0..99, so no cast changes a value.
- Iterator laziness: `neighbors` returns a lazy iterator. The model lists the same coordinates as a sequence, in the same order.
- Borrows: the `&mut Cell` that `get_display_coords_mut` returns is modelled as a direct array write (`SetDisplayCell`).
- Seed shape: a seed of the wrong shape cannot occur, because the `[[u8; 5]; 5]` type rules it out. The model states the shape as a precondition (`IsPattern`), and there is no error path to model.
- Loop structure: in `Transform`, the inner loop over columns is the method `FillRow`, and the count and rule for one cell are the method `NextCellOf`. The computation is the same as the source's nested loops. The split keeps each proof small.
- The counting loop: `count()` consumes the filtered neighbour iterator. The model writes that consumption as the loop in `CountAlive`, over the neighbour sequence.
- Pattern-level behaviour: still lifes, oscillators (the block, the blinker) and long-run behaviour are not proved. The code does not promise them.
