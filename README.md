# Minesweeper grid engine in Dafny

This project models the grid engine of a browser Minesweeper game. It covers two
JavaScript classes. `Cell` (Cell.js) holds the state of one grid position: its
coordinates, its bomb bit, a suspicious mark, a neighbour value and a hidden flag.
`Game` (Game.js) does four things:

- it builds a `COLS × ROWS` grid of cells row by row and lists the bomb cells in a
  second array that aliases them;
- it adds one to the value of every non-bomb cell around each bomb;
- it looks a cell up by coordinates, with a bounds check;
- it reveals cells with a first-in-first-out flood fill that expands from non-bomb
  cells whose value equals a target value.

The files are:

- `cell.dfy` (module `Cells`): `Cell` as a class. The fields the source never
  reassigns (`X`, `Y`, the bomb bit) are `const`. The three fields its setters
  overwrite are `var`. A JavaScript `undefined` value is `Option.None`.
- `grid.dfy` (module `Grid`): pure facts about the layout. These cover row-major
  indexing (`Index`, `CellCount`), the 8-neighbourhood (`Adjacent`), the bomb list as
  a filter of the cell list (`Bombs`) and neighbour bomb counts (`NeighbourBombs`).
- `game.dfy` (module `Games`): `Game` as a class whose `cells` and `bombs` are
  sequences of `Cell` references, as in the source. It also holds the two
  constants of Game.js: `CellRadius` (`CELL_RADIUS = 1`, Game.js:5), the reach of
  the value loop, and `FfNeighbourOffsets`, the flood fill's step table as written
  (Game.js:7-16). Constants are not members, so the table below states them through
  `Games.OffsetsMissWest`, `Games.OffsetIndex` and `Games.ContributionBounds`. The
  module also holds the ghost bookkeeping used to prove the flood fill.

`Game.Valid()` is the invariant the constructor establishes:

- the grid has `CellCount(Cols, Rows)` cells (`Cols * Rows` for a positive width and a non-negative height);
- the cell at index `j` lies inside a row, and its row-major index is `j`;
- `bombs` is the sub-sequence of bomb cells.

The random bomb test `Math.random() <= bombChance` becomes a bomb pattern passed to
the constructor. Entry `k` of the pattern is the outcome of the `k`-th draw, in
row-major order.

The loops are kept as loops. Each nested loop is split so that every method holds
one level:

- `PopulateGrid` → `PushRow` → `NewRow` (Game.js:66-74);
- `CalculateCellValues` → `IncrementAround` → `BumpNeighbour` (Game.js:78-91);
- `FloodFill` → `Drain` → `Visit` → `PushNeighbours` (Game.js:100-118).

The flood fill is specified on the hidden flags of the cells, taken by index
(`HiddenOf`). `FloodResult(was, now, ex, s)` states what the fill promises. `was`
and `now` are the flags before and after, `ex` marks the cells the fill expands
from, and `s` is the start index (-1 when the start is outside the grid). Every
newly revealed cell must be reached from the start by a chain of newly revealed
expanding cells, each pushing the next (`FloodReachable`). So `FloodResult`
determines `now` from `was`, `ex` and `s` (`FloodUnique`).

## Model

| member | source | states |
|---|---|---|
| Cells.Cell.constructor | Cell.js:11-18 | stores x, y, bomb bit, value and hidden flag as given; a new cell is never suspicious |
| Cells.Cell.IsBomb | Cell.js:20-22 | returns the bomb bit given at construction; the bit is a `const`, so no method of the cell changes it |
| Cells.Cell.SetSuspicious | Cell.js:27-29 | afterwards `IsSuspicious()` returns the argument; hidden flag and value unchanged |
| Cells.Cell.IsSuspicious | Cell.js:31-33 | returns the suspicious mark as last set, false for a new cell |
| Cells.Cell.SetHidden | Cell.js:38-40 | afterwards `IsHidden()` returns the argument; suspicious mark and value unchanged |
| Cells.Cell.IsHidden | Cell.js:42-44 | returns the hidden flag as last set, or as given at construction |
| Cells.Cell.SetValue | Cell.js:49-51 | afterwards `GetValue()` returns the argument; suspicious mark and hidden flag unchanged |
| Cells.Cell.GetValue | Cell.js:53-55 | an absent value reads as 0, a stored value reads as itself |
| Grid.CellCountProduct | Game.js:66-67 | the nested loops create `rows * cols` cells for a positive width and a non-negative height |
| Grid.IndexProduct | Game.js:167 | the row-major index `CellCount(cols, y) + x` is the source's `y * COLS + x` |
| Grid.IndexInjective | Game.js:167 | two in-row positions with the same row-major index are the same position |
| Grid.IndexBound | Game.js:166-167 | an in-row position lies inside the grid exactly when its row is below `rows` |
| Grid.IndexDivMod | Game.js:66-69 | the column and row of a position are the remainder and quotient of its index by the width |
| Grid.RowMajorAppendRow | Game.js:67-71 | appending row `y`, left to right, after the first `y` rows keeps every cell at its own row-major index |
| Grid.RowMajorPlaced | Game.js:66-71 | in a row-major layout every cell sits at the index of its own position |
| Grid.BombsConcat | Game.js:71-72 | the bomb list of a concatenation is the concatenation of the bomb lists |
| Grid.BombsMembership | Game.js:71-72 | a cell is in the bomb list exactly when it is in the cell list and is a bomb |
| Grid.BombsOrdered | Game.js:71-72 | cells in strictly increasing row-major order give bombs in strictly increasing row-major order |
| Grid.BombsNeighbourCount | Game.js:78-86 | counting adjacent bombs over the bomb list equals counting them over all cells |
| Grid.CountTrueClear | Game.js:108-110 | revealing one hidden cell lowers the number of hidden cells by exactly one |
| Games.OffsetsMissWest | Game.js:7-16 | the step table holds the steps to exactly the neighbours other than west, and lists south `(0, 1)` twice |
| Games.OffsetIndex | Game.js:7-16 | every step to a neighbour other than west has an entry in the step table |
| Games.ContributionBounds | Game.js:81-82 | the step walk over offsets from `-CELL_RADIUS` to `CELL_RADIUS`, with `CELL_RADIUS` = 1, starts with nothing counted, ends with every adjacent position counted, and hands each row over to the next |
| Games.ContributionStep | Game.js:82-88 | one step of the walk adds exactly the non-bomb cell at that offset, and nothing for offset `(0, 0)` |
| Games.Game.constructor | Game.js:41-57 | the grid is valid; cell `j` is a bomb exactly when the pattern says so; every cell is hidden and not suspicious; a bomb cell's value is 0; any other cell's value is its number of adjacent bombs |
| Games.Game.PopulateGrid | Game.js:62-75 | creates one fresh cell per position in row-major order; bomb bits follow the pattern; cells are hidden, unmarked and of value 0; `bombs` lists the bomb cells |
| Games.Game.PushRow | Game.js:66-74 | one outer round appends row `y` to the grid and its bomb cells to the bomb list, keeping the earlier cells |
| Games.Game.NewRow | Game.js:67-73 | creates the cells of row `y` with `X` = column, bomb bits from the pattern, and the bomb cells among them |
| Games.Game.CalculateCellValues | Game.js:77-92 | every non-bomb cell gains its number of adjacent bombs; bomb cells, and cells with no adjacent bomb, keep their stored value; hidden flags and marks are unchanged |
| Games.Game.IncrementAround | Game.js:81-90 | for one bomb, every adjacent non-bomb cell gains one; every other cell keeps its stored value |
| Games.Game.BumpNeighbour | Game.js:83-88 | the cell at the offset gains one, unless the offset is `(0, 0)`, the position is outside the grid, or that cell is a bomb; no other cell changes |
| Games.Game.GetCell | Game.js:165-169 | returns nothing exactly when `x < 0`, `x >= COLS`, `y < 0` or `y >= ROWS`, and otherwise the cell at row-major index `y * COLS + x` |
| Games.Game.GetCellPosition | Game.js:165-169 | a cell found by the lookup is a grid cell whose coordinates are the ones asked for |
| Games.Game.GetCellIndex | Game.js:165-169 | an in-bounds lookup returns the cell at index `y * COLS + x` |
| Games.Game.CellAt | Game.js:66-71 | cell `j` lies inside the grid, and the lookup at its own coordinates returns it |
| Games.Game.OccupiedBy | Game.js:165-169 | the cells at a position are exactly the one the lookup returns there |
| Games.Game.CellsAtOwnPosition | Game.js:66-71 | every cell lies inside the grid, and the lookup at its own coordinates returns it |
| Games.Game.CellCoordinates | Game.js:66-71 | cell `j` has `X = j % COLS` and `Y = j / COLS` |
| Games.Game.BombList | Game.js:71-72 | `bombs` holds exactly the grid's bomb cells, in strictly increasing row-major order, so each of them once |
| Games.Game.SameCell | Game.js:66-71 | no cell object occurs at two indices of the grid |
| Games.Game.PositionIndex | Game.js:166-167 | -1 exactly outside the grid, and otherwise the row-major index of the position |
| Games.Game.Step | Game.js:114-115 | the lookup at an entry of the step table from a cell: nothing exactly when that position is outside the grid, and otherwise the cell at its index |
| Games.Game.StepAdjacent | Game.js:113-116 | every cell the fill steps to from a cell lies around that cell |
| Games.Game.StepCovers | Game.js:113-116 | some entry of the step table leads to every grid cell around a cell except the one directly west |
| Games.Game.NeighboursCover | Game.js:113-117 | every in-grid position an entry of the step table leads to is among the cells pushed |
| Games.Game.NeighboursInGrid | Game.js:113-117 | every cell pushed is a grid cell |
| Games.Game.NeighboursPushed | Game.js:113-117 | every cell pushed is at a position an entry of the step table leads to |
| Games.Game.PushNeighbours | Game.js:113-117 | appends to the queue the in-grid cells the step table leads to, in table order |
| Games.Game.FillStart | Game.js:100-104 | a queue holding just the start, or nothing when the start is outside the grid, satisfies the fill invariant, with every rank 0 |
| Games.Game.FillSkip | Game.js:107-108 | dropping a cell that is already revealed keeps the fill invariant |
| Games.Game.FillReveal | Game.js:110-111 | revealing a popped cell that does not expand keeps the fill invariant |
| Games.Game.FillExpand | Game.js:110-117 | revealing an expanding cell and queueing its steps keeps the fill invariant; queued cells that are still hidden take that cell as parent, one rank above it |
| Games.Game.FillAdopt | Game.js:113-117 | after an expansion every revealed cell, and every queued hidden cell, other than the start still comes from a revealed expanding cell of lower rank |
| Games.Game.FillClosure | Game.js:113-117 | after an expansion every step of a revealed expanding cell is revealed or queued |
| Games.Game.FillDone | Game.js:106-118 | an empty queue under the fill invariant means the flags are a finished flood fill; the ranks order every newly revealed cell after the cell that pushed it |
| Games.Game.ChainTo | Game.js:106-118 | following lower-ranked parents from a newly revealed cell gives a chain of steps from the start that ends at that cell |
| Games.Game.FloodReachable | Game.js:106-118 | in a finished fill every newly revealed cell is reached from the start by a chain of newly revealed expanding cells, each pushing the next |
| Games.Game.PathRevealed | Game.js:113-117 | any finished fill of the same flags reveals every cell of such a chain |
| Games.Game.FloodUnique | Game.js:99-119 | two finished fills of the same flags, expanding cells and start agree on every flag, so the fill's outcome is determined |
| Games.Game.FloodAdjacency | Game.js:106-118 | a finished fill reveals every cell around a newly revealed expanding cell except its west neighbour, and every newly revealed cell other than the start lies around a newly revealed expanding cell |
| Games.Game.PushedAdjacent | Game.js:113-116 | every cell the fill pushes from a cell lies around that cell |
| Games.Game.Visit | Game.js:107-117 | one round of the loop keeps the fill invariant and either lowers the number of hidden cells or keeps it and shortens the queue |
| Games.Game.Drain | Game.js:106-118 | the loop empties the queue under the fill invariant, so it terminates |
| Games.Game.FloodFill | Game.js:99-119 | no cell becomes hidden; the start, when inside the grid, ends revealed (a bomb too); every newly revealed cell is reached from the start by a chain of newly revealed expanding cells, each pushing the next; every step of such a cell is revealed; nothing changes when the start is outside the grid or already revealed; only hidden flags change |

## Left out

- `Game.draw` and `GameDrawStyle` (Game.js:18-32, Game.js:129-158) are not modelled. They draw on a canvas through a foreign library.
- AnimatedCell.js and script.js are not part of this model. They hold animation timing and the browser start-up, and no game logic.
- `Math.random()` and the floating-point `bombChance` test (Game.js:68) are replaced by the bomb pattern given to the constructor.
- `UMath.Vec2` is modelled as an `(int, int)` tuple.
- JavaScript numbers are modelled as unbounded integers. Non-integer dimensions and precision loss beyond 2^53 are not modelled. A non-positive width or height gives an empty grid, as the source's loops do.
- `Games.Game.constructor` requires the pattern to have one entry per cell. The source draws one random number per cell, so every input has such a pattern.
- `Games.Game.FloodFill` states its result on the hidden flags taken by index, before and after. `Valid()` rules out a cell occurring at two indices.
- The flood fill's ghost state is used only in the proof. This covers the parent index and rank of each revealed cell, the flags as they stand and the start index.
- The code differs from the game's design description, and the model follows the code:
  - Game.js has no win or loss state, no lost flag, no flag toggle and no set of flagged cells;
  - revealing a cell leaves its suspicious mark as it is;
  - the constructor accepts any dimensions, with no check;
  - the fill expands from non-bomb cells whose value equals `targetValue`, which is a parameter rather than fixed at 0;
  - the step table lists `(0, 1)` twice and lacks `(-1, 0)` (Game.js:9, Game.js:15). The model keeps this table as written, so the fill never steps directly west. `Games.OffsetsMissWest` and `Games.Game.FloodAdjacency` state the consequence.
