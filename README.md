# Conway's Game of Life, modelled in Dafny

`GameOfLife.py` runs Conway's Game of Life on a fixed 200 x 200 board of integer cells, where 1 is a
live cell and 0 a dead one. The board is seeded from a list of live coordinates. Then, for the
requested number of generations, the whole board is replaced by its next generation, and the
generation number is printed with the row-major list of live cells.

The next generation is built on a fresh all-dead board. Each cell counts its live neighbours on
the old board, inside the 3 x 3 window around it clipped to the board's edges. A live cell survives
with 2 or 3 neighbours and dies otherwise. A dead cell is born with exactly 3.

The model has six modules:

- `Board` (`board.dfy`): a board as a value (`Grid`, rows of `int`). `Snapshot` views an `array2`
  board as such a value.
- `NeighborCounter` (`neighbors.dfy`): the counting loop as a method on an `array2`. It is proved
  equal to the specification `NeighborCount`, the sum of the eight surrounding cells with
  positions off the board read as dead.
- `RuleEngine` (`rules.dfy`): the rule as `NextCell`, one generation as the function `Step`, and
  `apply_rules` as a method that fills a fresh array and is proved to produce `Step` of the old
  board.
- `Simulator` (`simulator.dfy`): seeding, the live-cell lists, and the driver loop. The driver
  returns its reports as `(generation, live cells)` records instead of printing them.
- `Extinction` (`extinction.dfy`): once no cell is alive, every later generation is dead too.
- `Scenarios` (`scenarios.dfy`): the 2 x 2 block and the two example seeds at the end of
  `GameOfLife.py`, worked through the model.

The board size is a pair of parameters `rows`, `cols` (both positive) instead of the constant 200.

Working the second example seed through the model shows that it is not a still life. The seed is
the 3 x 2 rectangle in rows 5 to 7, columns 5 and 6. Its two middle cells have 5 live neighbours
each and die. Cells (6, 4) and (6, 7) have 3 and are born. Generation 1 is therefore the beehive
[[5, 5], [5, 6], [6, 4], [6, 7], [7, 5], [7, 6]], and every later generation repeats it
(`Scenarios.RectangleBecomesBeehive` states that the step changes the seed's board, and
`Scenarios.RectangleReports` gives every report).

## Model

| member | source | states |
|---|---|---|
| Board.Snapshot | GameOfLife.py:40 | Reads a board stored as a two-dimensional array as rows of cells: as many rows as the array, every row as long as the array is wide, and each cell the value stored at that position. |
| NeighborCounter.Window | GameOfLife.py:25-26 | The clipped loop range around index i on an axis of length n: it contains i, stays within [0, n), starts at i - 1 unless that is off the board (then 0), and ends after i + 1 unless that is off the board (then n). |
| NeighborCounter.Around | GameOfLife.py:25-27 | The eight positions around (i, j) that the window visits besides (i, j) itself, all distinct. |
| NeighborCounter.SumCellsBounds | GameOfLife.py:27 | On a board of 0s and 1s, adding up the values at k positions gives a number between 0 and k. |
| NeighborCounter.NeighborCount | GameOfLife.py:24-28 | The reference neighbour count, the eight surrounding values added up with positions off the board read as 0. On a board of 0s and 1s it lies between 0 and 8. |
| NeighborCounter.NeighborCountTerms | GameOfLife.py:24-28 | The neighbour count is the sum of the eight surrounding cells, each position off the board counting 0. |
| NeighborCounter.ClippedWindowIsNeighborCount | GameOfLife.py:24-28 | The sum the nested loops take over the clipped window, skipping (i, j) itself, equals the padded eight-neighbour count: clipping at the edges is the same as dead cells beyond them. |
| NeighborCounter.ClippedRow | GameOfLife.py:26-27 | Along one row, the inner loop's clipped column range adds up to the three padded positions j - 1, j, j + 1 (without (i, j) itself): the columns clipping leaves out are off the board. |
| NeighborCounter.OffBoardRow | GameOfLife.py:25-27 | A row that the outer loop's clipped range leaves out, because it is off the board, would add 0. |
| NeighborCounter.CountLiveNeighbors | GameOfLife.py:12-28 | The counting loop returns exactly the neighbour count of (i, j) on the current board. Every array access it makes is within bounds, so it never wraps around an edge. |
| NeighborCounter.LiveTallyIsSize | GameOfLife.py:24-28 | Over distinct positions, counting the live ones one at a time gives the size of the set of live positions. |
| NeighborCounter.SumIsTally | GameOfLife.py:27 | On a board of 0s and 1s, adding up cell values counts the live cells. |
| NeighborCounter.NeighborCountIsLiveCount | GameOfLife.py:12-28 | On a board of 0s and 1s, the neighbour count is the number of live cells among the eight neighbours. |
| NeighborCounter.NeighborCountBounds | GameOfLife.py:24-28 | On a board of 0s and 1s, the count is between 0 and 8. It is at most 5 on an edge and at most 3 in a corner. |
| RuleEngine.NextCell | GameOfLife.py:44-51 | The next value is 0 or 1. A live cell is 1 next exactly when it has 2 or 3 neighbours. Any other cell is 1 next exactly when it has 3. |
| RuleEngine.Step | GameOfLife.py:40-52 | The next generation has the same number of rows and columns, and every cell is 0 or 1. |
| RuleEngine.StepRules | GameOfLife.py:44-51 | The rule table cell by cell: underpopulation (< 2) and overpopulation (> 3) kill a live cell, 2 or 3 keep it, and a non-live cell becomes live exactly on 3. |
| RuleEngine.StepAt | GameOfLife.py:43-51 | Each cell of the next generation is the rule applied to that cell and its count on the old board. |
| RuleEngine.ApplyRules | GameOfLife.py:30-52 | Returns a fresh board of the same size whose contents are the next generation of the old board, which is left unchanged: the update is simultaneous. |
| RuleEngine.UpdateCell | GameOfLife.py:43-51 | Writes the rule's value for (i, j) into the new board. A dead cell that is not born keeps the 0 it was created with. No other cell changes. |
| RuleEngine.StepOfEmpty | GameOfLife.py:40-52 | A board with no live cell has a next generation with no live cell. |
| RuleEngine.NoLiveCellIsEmpty | GameOfLife.py:44-51 | A board of 0s and 1s with no cell equal to 1 is all 0. |
| Simulator.Seeded | GameOfLife.py:54-56 | The seeded board has rows x cols cells, and every cell is 0 or 1. |
| Simulator.SeedBoard | GameOfLife.py:54-56 | Returns a fresh rows x cols board in which a cell is 1 exactly when its coordinate is listed, and 0 exactly when it is not. |
| Simulator.SeedingIgnoresOrderAndDuplicates | GameOfLife.py:55-56 | Two seed lists with the same coordinates, in any order and with any repetitions, seed the same board. |
| Simulator.LiveFrom | GameOfLife.py:60 | Lists exactly the live cells at or after (i, j) in row-major order, in strictly increasing row-major order. |
| Simulator.LiveCells | GameOfLife.py:60 | Lists exactly the live cells of the board, in strictly increasing row-major order, so without repeats. |
| Simulator.Evolve | GameOfLife.py:58-59 | After n generations the board keeps its size, and after at least one every cell is 0 or 1. |
| Simulator.Reports | GameOfLife.py:58-61 | n reports, the k-th (from 0) numbered k + 1 and listing the live cells after k + 1 generations. |
| Simulator.Run | GameOfLife.py:54-61 | Seeds the board, then produces one report per generation: exactly the reports of the seeded board. A count of 0 or below gives no report, as `range` of such a count is empty. |
| Extinction.DeadBoardStaysDead | GameOfLife.py:40-52 | A board of 0s and 1s that reports no live cell steps to one that reports no live cell. |
| Extinction.EmptyHasNoLiveCells | GameOfLife.py:60 | An all-dead board reports the empty list. |
| Extinction.ExtinctFrom | GameOfLife.py:58-60 | Once a generation has no live cell, no later generation has one. |
| Extinction.ExtinctionIsPermanent | GameOfLife.py:58-61 | Once a report is empty, every later report is empty too. |
| Simulator.RowMajorUnique | GameOfLife.py:60 | Two strictly row-major lists with the same cells are the same list, so a report's list is determined by the set of live cells. |
| Scenarios.FixedPointForever | GameOfLife.py:58-59 | A board the step leaves unchanged stays the same for every number of generations. |
| Scenarios.StillLifeReports | GameOfLife.py:58-61 | Every report of a still life lists its live cells. |
| Scenarios.SeededCell | GameOfLife.py:54-56 | A position of a seeded board is 1 exactly when it is on the board and listed. Otherwise it is 0. |
| Scenarios.Block | GameOfLife.py:55-56 | The 2 x 2 block as a seed list in strictly row-major order, containing exactly the four block cells. |
| Scenarios.BlockCellValue | GameOfLife.py:54-56 | A position of the block's board is 1 exactly inside the block. |
| Scenarios.BlockCellStill | GameOfLife.py:40-52 | Each cell of the block's board keeps its value after one step. |
| Scenarios.BlockIsStill | GameOfLife.py:30-52 | A 2 x 2 block anywhere on the board, even against an edge or a corner, is a fixed point of the step. |
| Scenarios.BlockLiveCells | GameOfLife.py:60 | The block's board reports exactly the block's four cells in row-major order. |
| Scenarios.BlockReports | GameOfLife.py:54-61 | Seeded with a block, every report lists exactly the block's four cells in row-major order. |
| Scenarios.LoneCellValue | GameOfLife.py:54-56 | A position of the single-cell board is 1 exactly at that cell. |
| Scenarios.LoneCellStep | GameOfLife.py:43-51 | After one step every cell of the single-cell board is dead. |
| Scenarios.LoneCellExtinct | GameOfLife.py:58-60 | Generation 1 of the single-cell board has no live cell. |
| Scenarios.LoneCellDies | GameOfLife.py:63-64 | A lone live cell, such as the seed [[1, 1]], dies in generation 1, and every report is empty. |
| Scenarios.Beehive | GameOfLife.py:60 | The beehive's six cells in strictly row-major order. |
| Scenarios.RectangleValue | GameOfLife.py:54-56 | A position of the rectangle seed's board is 1 exactly inside rows 5 to 7, columns 5 and 6. |
| Scenarios.BeehiveValue | GameOfLife.py:54-56 | A position of the beehive's board is 1 exactly on one of the beehive's six cells. |
| Scenarios.RectangleCount | GameOfLife.py:24-28 | On the rectangle's board, each neighbour count is the count among the rectangle's cells. |
| Scenarios.BeehiveCount | GameOfLife.py:24-28 | On the beehive's board, each neighbour count is the count among the beehive's cells. |
| Scenarios.RectangleRule | GameOfLife.py:44-51 | Applying the rule to every position of the rectangle gives the beehive. |
| Scenarios.BeehiveRule | GameOfLife.py:44-51 | Applying the rule to every position of the beehive gives the beehive. |
| Scenarios.RectangleCellStep | GameOfLife.py:40-52 | Each cell of the rectangle board's next generation is the beehive's cell. |
| Scenarios.BeehiveCellStill | GameOfLife.py:40-52 | Each cell of the beehive's board keeps its value after one step. |
| Scenarios.RectangleBecomesBeehive | GameOfLife.py:66-67 | One step turns the second example seed into the beehive, and the beehive is a fixed point. The step changes the seed's board, so the seed is not a still life. |
| Scenarios.EvolveFromFirst | GameOfLife.py:58-59 | n + 1 generations are n generations started from generation 1. |
| Scenarios.RectangleEvolves | GameOfLife.py:58-59 | Every generation from 1 on of the second example seed is the beehive. |
| Scenarios.BeehiveLiveCells | GameOfLife.py:60 | The beehive's board reports exactly the beehive's six cells in row-major order. |
| Scenarios.RectangleReports | GameOfLife.py:66-67 | With the second example seed, every report is the beehive [[5, 5], [5, 6], [6, 4], [6, 7], [7, 5], [7, 6]]. Every report lists (6, 4), which is not a seed cell, and omits (6, 5), which is. |

## Left out

- Printing: `Run` returns the reports as records. The text `print` writes for each generation (GameOfLife.py:61) is not modelled.
- Board size: the fixed 200 x 200 board is modelled by the parameters `rows` and `cols`. The example seeds are stated for any board of at least 8 x 8.
- Simulator.SeedBoard, Simulator.Run: seeds must lie on the board (a precondition of both; `Run` passes its seeds to `SeedBoard`). Python would wrap a negative index around to the far edge and raise `IndexError` on one that is too large. Neither is modelled.
- Python lists: boards are `array2<int>` of fixed shape. Cells are unbounded `int`. Nothing in the source grows a row or stores anything but 0 and 1, so no width matters.
- RuleEngine.UpdateCell: a separate method holding the body of the inner loop of `apply_rules`. The source writes that body inline.
- Scenario run length: the example calls use 100 generations. The scenario lemmas state every report for any generation count n, which covers 100.
