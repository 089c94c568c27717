# Game of Life: a verified model of the cell grid

This project models the simulation core of a small Game of Life program,
`game_of_life.py`. A `Cell` knows its position, its live flag and the list
of neighbour positions it computes once, when it is built. A `Grid` owns
the list of cells of an `x_cells` by `y_cells` board, laid out row by row.
It seeds the cells at random and computes each new generation with
Conway's rule B3/S23: a live cell with two or three live neighbours
survives, a dead cell with exactly three is born, and every other cell is
dead next. The board does not wrap around at its borders.

The model has three modules.

- `Geometry` (`geometry.dfy`) holds the eight boundary tests of a cell and
  the neighbour list they produce, in the source's order: right, left,
  lower left, lower right, upper, lower, upper left, upper right. It proves
  that, for a cell on the board, the list holds exactly the on-board
  positions of the Moore neighbourhood. The list never holds the cell
  itself and holds no position twice. On a board at least 2 by 2 it has 3,
  5 or 8 entries for a corner, edge or interior cell.
- `Generation` (`generation.dfy`) is the value model. A generation is a
  sequence of `CellState` values (position, live flag, neighbour list).
  `AliveNeighbourCount` is the count the source makes by scanning the whole
  list. `NextCell` is the rule table as the source writes it, and `Next` is
  one step, with every count taken over the old generation. The lemmas
  relate the scan to the live cells of the Moore neighbourhood, looked up
  by position on a row-major board. From that, the step is Conway's rule.
- `GameOfLife` (`game_of_life.dfy`) holds the objects. `Cell` is a class
  whose live flag is changed in place; its position and neighbour list are
  `const`, fixed when it is built. `Grid` is a class whose cell list is a
  `seq<Cell>` field. `CountAliveNeighbours`, `NextCellObject`, `UpdateGrid`
  and `Advance` are proved against the value model through `Snapshot`,
  which reads a list of cells as a generation. The other methods are tied
  to the fields they set, to `NeighbourList`, or to the row-major layout
  (`RowMajorCells`).

The source's update builds a new list and never writes to the old cells.
A dead cell that is not born is not copied: the same object is put in the
new list. `UpdateGrid` has no `modifies` clause, so the verifier checks
that the old cells keep their state. Its postcondition also states the
sharing exactly: entry i of the new list is the old cell at index i when
that cell is dead and not born (`KeptAsIs`), and otherwise an object that
is not in the old list.

## Model

| member | source | states |
|---|---|---|
| `Geometry.HasLeftNeighbour` | game_of_life.py:55-59 | for a cell on the board, true exactly when the position one column to the left is on the board |
| `Geometry.HasRightNeighbour` | game_of_life.py:61-65 | for a cell on the board, true exactly when the position one column to the right is on the board |
| `Geometry.HasUpperNeighbour` | game_of_life.py:67-71 | for a cell on the board, true exactly when the position one row up is on the board |
| `Geometry.HasLowerNeighbour` | game_of_life.py:73-77 | for a cell on the board, true exactly when the position one row down is on the board |
| `Geometry.HasUpperLeftNeighbour` | game_of_life.py:79-83 | for a cell on the board, true exactly when the diagonal position up and to the left is on the board |
| `Geometry.HasUpperRightNeighbour` | game_of_life.py:85-89 | for a cell on the board, true exactly when the diagonal position up and to the right is on the board |
| `Geometry.HasLowerLeftNeighbour` | game_of_life.py:91-95 | for a cell on the board, true exactly when the diagonal position down and to the left is on the board |
| `Geometry.HasLowerRightNeighbour` | game_of_life.py:97-101 | for a cell on the board, true exactly when the diagonal position down and to the right is on the board |
| `Geometry.NeighbourListInOrder` | game_of_life.py:103-122 | the neighbour list is what the eight tests admit, appended in the source's order |
| `Geometry.NeighbourListExact` | game_of_life.py:103-122 | for a cell on the board, a position is in its neighbour list exactly when it is one of the eight around the cell and lies on the board |
| `Geometry.SelfNotNeighbour` | game_of_life.py:103-122 | a cell's neighbour list never holds the cell's own position, wherever the cell is |
| `Geometry.NeighbourListDistinct` | game_of_life.py:103-122 | the neighbour list holds no position twice and has at most eight entries |
| `Geometry.NeighbourCount` | game_of_life.py:103-122 | for a cell on the board, the list length is the size of its 3 by 3 block clipped to the board, less one |
| `Geometry.NeighbourCountByPosition` | game_of_life.py:103-122 | on a board of at least 2 by 2, a corner cell has 3 neighbours, an edge cell 5 and an interior cell 8 |
| `GameOfLife.Cell.IsCellAlive` | game_of_life.py:42-43 | a plain read of the live flag: the flag of the cell's state |
| `GameOfLife.Cell.GetCoords` | game_of_life.py:52-53 | a plain read of the position: the position of the cell's state |
| `GameOfLife.Cell.GetCoordsOfNeighbours` | game_of_life.py:103-122 | the eight tests run one after the other build exactly the neighbour list |
| `GameOfLife.Cell.constructor` | game_of_life.py:11-17 | a new cell is dead, sits at the given position and stores the neighbour list of that position |
| `GameOfLife.Cell.ChangeToAlive` | game_of_life.py:45-46 | the cell is alive afterwards; only its live flag may change |
| `GameOfLife.Cell.ChangeToDead` | game_of_life.py:48-49 | the cell is dead afterwards; only its live flag may change |
| `GameOfLife.Cell.CountAliveNeighbours` | game_of_life.py:124-130 | the loop returns the number of entries of the grid that are alive and whose position is in the cell's neighbour list |
| `Generation.AliveNeighbourCount` | game_of_life.py:124-130 | the scan never counts more than the number of entries it scans |
| `Generation.AliveNeighbourCountIsEntries` | game_of_life.py:124-130 | the scan counts exactly the set of indices whose entry is alive and listed |
| `Generation.AliveNeighbourCountIsPositions` | game_of_life.py:124-130 | when no position occurs twice, the scan counts exactly the listed positions that hold a live cell |
| `Generation.AliveNeighbourCountAtMost` | game_of_life.py:124-130 | when no position occurs twice, the count is at most the length of the neighbour list |
| `Generation.CountIsLiveMooreNeighbours` | game_of_life.py:124-130 | on a row-major board, the scan counts exactly the live on-board Moore neighbours, each looked up by its index |
| `Generation.NewCell` | game_of_life.py:11-17 | a cell as built is dead and sits at the given position |
| `Generation.NextCell` | game_of_life.py:173-191 | the rule table keeps the position and gives a live cell exactly on birth (3 live neighbours) or survival (alive with 2 or 3); the result is either rebuilt with a fresh neighbour list or, for a dead cell that is not born, the cell itself |
| `Generation.NextPrefixAt` | game_of_life.py:168-193 | entry i of the list built so far is entry i of the old generation after the rule, counted over the whole old generation |
| `Generation.Next` | game_of_life.py:168-193 | one step keeps the length and every position, and entry i is alive exactly when B3/S23 holds for entry i's count over the old generation |
| `Generation.NextFollowsLifeRule` | game_of_life.py:168-193 | on a row-major board, entry i lives next exactly when it is born or survives given the live cells around its position in the old generation |
| `Generation.RowMajorIndex` | game_of_life.py:148-153 | position (x, y) of the board has index y * x_cells + x, which lies below x_cells * y_cells and maps back to (x, y) |
| `Generation.CoordAtInBounds` | game_of_life.py:148-153 | every index below x_cells * y_cells maps to a position on the board |
| `Generation.RowMajorCoversBoard` | game_of_life.py:148-153 | in a row-major generation, every board position (x, y) is held at index y * x_cells + x |
| `Generation.RowMajorOnBoardOnce` | game_of_life.py:148-153 | in a row-major generation, every entry lies on the board and no position occurs twice |
| `Generation.NextKeepsRowMajor` | game_of_life.py:168-193 | one step keeps a row-major generation row-major, with the same positions and neighbour lists |
| `GameOfLife.Grid.CreateListOfCells` | game_of_life.py:148-153 | the nested loops build x_cells * y_cells new, dead, separate cells, with the cell at index y * x_cells + x at (x, y) |
| `GameOfLife.Grid.RandomizeDeadAndAlive` | game_of_life.py:156-161 | with separate cells, cell i ends alive exactly when its draw is 0 |
| `GameOfLife.Grid.constructor` | game_of_life.py:133-138 | a new grid covers the board row by row with separate cells, and cell i is alive exactly when its draw is 0 |
| `GameOfLife.Grid.GetCellCount` | game_of_life.py:164-165 | on a valid grid the count is x_cells * y_cells |
| `GameOfLife.Grid.UpdateGrid` | game_of_life.py:168-193 | the new list read as a generation is `Next` of the current one; entry i is the old cell i exactly when that cell is dead and not born, and otherwise an object not in the old list; the new list has no duplicate objects when the old list has none |
| `GameOfLife.Grid.NextCellObject` | game_of_life.py:170-191 | one pass of the update loop yields the cell whose state is the rule applied to the old cell and its count over the old generation; it is the old cell itself when that cell is dead and not born, and otherwise a new object, in neither the old list nor the cells built so far |
| `GameOfLife.Grid.Advance` | game_of_life.py:234 | replacing the cell list by the updated one keeps the grid valid and moves it one step of `Next` |

## Left out

- Drawing is not modelled: `draw`, `draw_alive`, `draw_dead`, `draw_grid_lines`, `draw_cells`, and the window, colour, clock and frame-rate fields. It only reads the cells.
- `dim_length` is not modelled. It is the pixel size of a cell and plays no part in the cell logic.
- `simulate` is reduced to the swap at line 234 (`GameOfLife.Grid.Advance`). Its event loop, window updates and frame timing are I/O.
- `random.randint(0, 1)` becomes the caller-supplied sequence `draws`, one value per cell. A draw of 0 makes the cell alive and any other value makes it dead, as in the source. The 50/50 distribution is not modelled.
- `print_alive_and_dead_cells` is output only and is not modelled.
- The module-level constants and the two script lines at the end of the file are not modelled. They build a 25 by 25 grid and start the loop.
- Board sizes are `nat`. The source takes any integer, but a negative size only gives an empty board there.
- The eight boundary tests are functions of the position and the board size. The source has them as methods of `Cell`, but they read only fields that never change. Their contracts speak only of cells on the board, which is where every cell the grid builds sits.
- The body of the update loop (lines 170-191) is the method `GameOfLife.Grid.NextCellObject`, called once per pass. It follows the source's branches and calls in order.
- The update does not build a wholly new collection of cells. The rule fixes the state of every cell, but the source puts the old object back for a dead cell that is not born. The model follows the source, and `UpdateGrid` states exactly which entries are shared.
