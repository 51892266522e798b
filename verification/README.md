# Minesweeper field, modelled in Dafny

This project models the playfield of a console Minesweeper game: the `Cell` record, the
`MineField` grid and the `MineFieldIterator` that walks it. The model follows the Kotlin
code as written, defects included. Cells and fields are immutable values, and every
mutation becomes a function or method that returns the updated value.

Several behaviours of the code differ from what its comments suggest, and the model
keeps each one:

- **`adjacentCells` never advances its `index`.** Every lookup lands in slot 0, so the
  result is `getCell(x + 1, y + 1)` followed by seven fresh free cells at (0, 0). The
  adjacent count of a free cell is therefore 1 or 0, read off its down-right diagonal
  neighbour alone.
- **`reveal` walks only the diagonal.** It recurses on the result of `adjacentCells`.
  From (x, y) it continues to (x + 1, y + 1) while cells are free with count 0, and the
  seven calls on (0, 0) fall outside the field and change nothing. No "already visible"
  guard is needed for termination, and there is none: visible cells are revealed again.
- **The iterator walks 0-based positions but calls the 1-based `getCell`.**
  - It stops before (size - 1, size - 1) and so yields `size * size - 1` cells.
  - Positions on row 0 or column 0 give fresh free cells, which are not stored.
  - The stored cells it reaches are exactly those at [1, size - 1] x [1, size - 1],
    except (size - 1, size - 1).
  - `calculateAdjacent` writes into the fresh cells are lost. The last row and column
    keep their counts.
- **`renew(x, y)` skips the excluded cell with `continue`** before assigning it. The
  cell therefore keeps whatever mine it had. The cell count is lowered by one for it
  but the mine count is not, so the other cells receive
  min(minesAtStart, sizeX * sizeY - 1) mines.
- **The `isMarked` setter stores `false` on a visible cell**, whatever is assigned.
  `reveal` sets `isVisible` without touching the mark.
- **The win check.**
  - The second win condition ("every cell is a mine or visible") never holds on a field
    of more than one cell. The first cell the iterator yields is a fresh hidden free
    cell.
  - The game is won exactly when every stored cell the iterator reaches is marked just
    when it is a mine.
  - A 1 x 1 field yields nothing, so it wins at once. A 2 x 2 field yields only fresh
    cells, so it wins at once as well.
- **The grid is allocated as `sizeX` rows of `sizeY` cells but read as
  `grid[y - 1][x - 1]`.** Only square fields are read within bounds, so `Valid` asks for
  `sizeX == sizeY`.

`isAdd` compares (mines left) / (cells left) with a random number from [0, 1). The model
replaces each drawn number with an oracle bit `bits[k]` for the k-th decision.
`IsAddForced` shows that the forced cases agree with the real comparison:
- at least as many mines left as cells: always place;
- no mines left: never place.

`IsAddBothWays` shows that both outcomes are possible otherwise. `Placement.Renew`
states the mine of every decided cell as `IsAdd` applied to three things:
- the mines still to place when the sweep reached the cell;
- the cells still to decide;
- the draw numbered by the decisions made before it.

Equal bits therefore give equal placements.

Modules, in dependency order: `Cells` (cells.dfy), `Fields` (fields.dfy), `Iteration`
(iteration.dfy), `Placement` (placement.dfy), `Adjacency` (adjacency.dfy), `Revealing`
(reveal.dfy), `Winning` (win.dfy), `Construction` (construction.dfy).

`reveal` has a reference definition, `Revealing.Uncovered`. It makes every cell on the
diagonal chain from (x, y) visible: each free in-range cell up to and including the
first with a non-zero count. The recursive method `Revealing.Reveal` is proved to
produce exactly that field.

## Model

| member | source | states |
|---|---|---|
| Cells.SetMarked | Minesweeper/task/src/minesweeper/Cell.kt:14-17 | a visible cell ends unmarked whatever is assigned; a hidden cell stores the assigned value; nothing but the mark changes |
| Cells.ChangeMark | Minesweeper/task/src/minesweeper/Cell.kt:39-41 | a visible cell ends unmarked; a hidden cell's mark flips; nothing else changes |
| Cells.ChangeMarkTwice | Minesweeper/task/src/minesweeper/Cell.kt:39-41 | toggling a hidden cell twice restores it |
| Cells.SetAdjacentMines | Minesweeper/task/src/minesweeper/Cell.kt:18-24 | a mine stores -1; a free cell stores the value when it is in 0..8 and 0 otherwise, so always a value in 0..8; nothing but the count changes |
| Cells.SetAdjacentMinesTwice | Minesweeper/task/src/minesweeper/Cell.kt:18-24 | assigning the same count twice equals assigning it once |
| Cells.Decimal | Minesweeper/task/src/minesweeper/Cell.kt:33 | the printed count is a non-empty string of decimal digits, one digit exactly below 10 |
| Cells.DecimalRoundTrip | Minesweeper/task/src/minesweeper/Cell.kt:33 | reading the printed count back as decimal digits gives the count |
| Cells.Glyph | Minesweeper/task/src/minesweeper/Cell.kt:29-37 | a marked hidden cell prints `*` whatever else holds; a visible mine prints `X`; a visible free cell prints its count, `/` for 0, `.` for a stale negative count; a hidden unmarked cell prints `.` unless hidden cells are shown |
| Cells.GlyphOfCount | Minesweeper/task/src/minesweeper/Cell.kt:33 | a visible free cell with a count from 1 to 8 prints that single digit |
| Fields.GetCell | Minesweeper/task/src/minesweeper/MineField.kt:93-97 | the answer carries the asked coordinates; in range it is the stored cell; outside it is a free, hidden, unmarked cell with count 0 |
| Fields.SetCell | Minesweeper/task/src/minesweeper/MineField.kt:102-104 | the new cell is stored under its own coordinates; every other position reads as before; size and mine count are kept |
| Iteration.AdvanceStepsIndex | Minesweeper/task/src/minesweeper/MineFieldIterator.kt:13-29 | `HasNext` models `hasNext` and `Advance` models the move `next` makes; `next` keeps the position inside the square and moves it exactly one step forward in row-major order |
| Iteration.WalkIndices | Minesweeper/task/src/minesweeper/MineFieldIterator.kt:13-29 | the t-th position yielded from (x, y) lies in the square, t row-major steps after (x, y) |
| Iteration.WalkMembers | Minesweeper/task/src/minesweeper/MineFieldIterator.kt:13-29 | a walk from (x, y) yields exactly the positions from (x, y) on, in row-major order, except the last corner |
| Iteration.WalkLength | Minesweeper/task/src/minesweeper/MineFieldIterator.kt:13-29 | a walk from (x, y) yields one position per row-major step left before the last corner |
| Iteration.PositionsShape | Minesweeper/task/src/minesweeper/MineFieldIterator.kt:7-29 | an iteration yields size * size - 1 positions; it starts at (0, 0) and visits them in strictly increasing row-major order; a position is yielded iff it lies in the 0-based square and is not its last corner |
| Iteration.CellsAt | Minesweeper/task/src/minesweeper/MineFieldIterator.kt:21 | one cell per position, each the `getCell` of that position; the field is only read |
| Iteration.IterCellsShape | Minesweeper/task/src/minesweeper/MineFieldIterator.kt:7-29 | an iteration yields Area - 1 cells, none for a 1 x 1 field, and a fresh cell at (0, 0) first otherwise; each yielded cell is a stored cell of [1, size-1]^2 minus the corner, or a fresh free cell of row or column 0; every such stored cell is yielded |
| Placement.ClampMines | Minesweeper/task/src/minesweeper/MineField.kt:26 | a requested count in 0..sizeX*sizeY is kept; any other becomes sizeX*sizeY - 1; the result lies in 0..sizeX*sizeY |
| Placement.IsAddForced | Minesweeper/task/src/minesweeper/MineField.kt:126 | `IsAdd` models `isAdd` with an oracle bit and `IsAddReal` with the drawn number; with at least as many mines left as cells the comparison always places; with none left it never does; the oracle gives the comparison's answer |
| Placement.IsAddBothWays | Minesweeper/task/src/minesweeper/MineField.kt:126 | when 0 < mines < cells, some random number places a mine and another does not |
| Placement.DrawnDecides | Minesweeper/task/src/minesweeper/MineField.kt:51-56 | a cell whose mine is `IsAdd` of the mines left, the cells left and its own draw joins the drawn cells; storing it changes no earlier cell's mines left |
| Placement.SweepCell | Minesweeper/task/src/minesweeper/MineField.kt:47-58 | one inner pass skips the excluded cell without touching it, or decides the cell by `IsAdd(mines, cells, bits[k])` and hides it; the counters stay in step; the mines placed so far equal the mines decided so far; every swept cell holds its drawn decision |
| Placement.SweepRows | Minesweeper/task/src/minesweeper/MineField.kt:45-59 | the inner loop sweeps the rest of a column and keeps the sweep, counter, placement and draw invariants |
| Placement.SweepColumn | Minesweeper/task/src/minesweeper/MineField.kt:44-60 | one pass of the outer loop sweeps a whole column and moves every invariant on to the next column |
| Placement.SweepColumns | Minesweeper/task/src/minesweeper/MineField.kt:44-60 | the outer loop sweeps all remaining columns and keeps the invariants |
| Placement.Renew | Minesweeper/task/src/minesweeper/MineField.kt:36-61 | with no cell excluded exactly `minesAtStart` mines are placed; with (x, y) excluded that cell is left exactly as it was and the other cells hold min(minesAtStart, Area - 1) mines; every other cell ends hidden; marks and adjacent counts are untouched; every cell but (x, y) holds the mine `IsAdd` draws from the mines left before it, the cells left and its numbered bit |
| Adjacency.AdjacentCells | Minesweeper/task/src/minesweeper/MineField.kt:63-70 | eight cells: the cell at (x + 1, y + 1), then seven fresh free cells at (0, 0) |
| Adjacency.CountMines | Minesweeper/task/src/minesweeper/MineField.kt:78-83 | the count lies between 0 and the list length; 0 with no mines; the length with only mines |
| Adjacency.CountsFirst | Minesweeper/task/src/minesweeper/MineField.kt:78-83 | counting the adjacent cells gives 1 or 0 according to the first cell alone |
| Adjacency.RecountStep | Minesweeper/task/src/minesweeper/MineField.kt:77-85 | one loop pass moves the yielded position into the recounted part; a fresh cell's write is lost |
| Adjacency.CalculateAdjacent | Minesweeper/task/src/minesweeper/MineField.kt:75-88 | every stored cell the iterator reaches gets -1 if a mine, else 1 if its diagonal neighbour is a mine, else 0; all other cells, and everything but counts, stay as they were |
| Revealing.OnChainDiagonal | Minesweeper/task/src/minesweeper/MineField.kt:63-70 | every cell a reveal of (x, y) reaches lies on the diagonal down and to the right of (x, y) |
| Revealing.OnChainAgree | Minesweeper/task/src/minesweeper/MineField.kt:111-120 | the cells a reveal reaches depend only on mines and counts, so uncovering cells does not change them |
| Revealing.UncoveredOnlyUncovers | Minesweeper/task/src/minesweeper/MineField.kt:116 | a reveal changes nothing but visibility, and never hides a cell |
| Revealing.UncoveredNothing | Minesweeper/task/src/minesweeper/MineField.kt:111-113 | revealing a mine or a position outside the field uncovers nothing |
| Revealing.Show | Minesweeper/task/src/minesweeper/MineField.kt:116 | showing a cell makes it visible, keeps its mark, and changes no other cell |
| Revealing.UncoveredStop | Minesweeper/task/src/minesweeper/MineField.kt:115-117 | a free cell with a non-zero count is the only cell its reveal uncovers |
| Revealing.UncoveredStep | Minesweeper/task/src/minesweeper/MineField.kt:117-120 | a free cell with count 0 uncovers itself and then what its diagonal neighbour's reveal uncovers |
| Revealing.Reveal | Minesweeper/task/src/minesweeper/MineField.kt:109-124 | the result uncovers exactly the chain from (x, y); the answer is false exactly for an in-range mine; a mine or an outside position leaves the field as it was; a revealed in-range free cell ends visible |
| Revealing.UncoveredTwice | Minesweeper/task/src/minesweeper/MineField.kt:109-124 | revealing the same cell again changes nothing |
| Winning.CheckWinningCondition | Minesweeper/task/src/minesweeper/MineField.kt:163-168 | true exactly when every cell the iterator yields passes the condition |
| Winning.MarksMatchOverIteration | Minesweeper/task/src/minesweeper/MineField.kt:155 | the first condition holds over the iteration iff every stored cell the iterator reaches is marked exactly when it is a mine |
| Winning.UncoveringNeverWins | Minesweeper/task/src/minesweeper/MineField.kt:157 | on a field of more than one cell the second condition fails |
| Winning.CheckWin | Minesweeper/task/src/minesweeper/MineField.kt:153-157 | the game is won iff every stored cell the iterator reaches is marked exactly when it is a mine; a 1 x 1 or 2 x 2 field wins at once |
| Construction.NewField | Minesweeper/task/src/minesweeper/MineField.kt:22-30 | a new field has the clamped mine count and exactly that many mines; every cell is hidden and unmarked; the adjacent counts are those `calculateAdjacent` assigns, and 0 on the cells it does not reach |

## Left out

- Main.kt (the game loop) is not modelled, because it is console I/O. It also calls `f.execute`, which none of the field's files define. Its first-move `renew(col, row)` runs without a following `calculateAdjacent`, so counts after the first move are stale. The model shows the effect of each call on its own.
- Command.kt is not modelled, because it only parses console input into a column, a row and a free/mine keyword.
- `MineField.print` and the printing side of `Cell.print` are not modelled, because they are console output. `Cells.Glyph` models only the choice of text.
- `Math.random()` and the `Double` division in `isAdd` are not modelled, because they are randomness and floating point. An oracle bit per decision replaces them. `Placement.IsAddForced` and `Placement.IsAddBothWays` relate the bit to the real-number comparison, but not to `Double` rounding.
- Kotlin `Int` overflow is not modelled, because the only field the game builds is 9 x 9 (Main.kt:9). All arithmetic is unbounded; `MineField` itself accepts any size.
- Object identity and aliasing are not modelled directly. The setters mutate cells that `getCell` hands out, and the model writes the cell back into the grid instead. A write to a fresh cell from outside the field is dropped, just as the object is dropped in the code.
- Non-square fields are not modelled, because the row-first indexing overruns the allocated arrays there. `Fields.Valid` requires `sizeX == sizeY`.
- Fields smaller than 1 x 1 are not modelled, so `Fields.Valid` requires `sizeX >= 1`. A negative size throws when the grid is allocated (MineField.kt:27). A 0 x 0 field is built, but the iteration in the constructor's `calculateAdjacent` (MineField.kt:29, 77) never ends: `hasNext` compares the position with -1 (MineFieldIterator.kt:14) while `x` only grows, and reaching -1 would take 32-bit wrap-around.
- Fields.SetCell: a cell whose coordinates lie outside the field is not modelled, so `SetCell` requires them in range. `setCell` throws an index exception on such a cell (MineField.kt:103). No file of the program calls `setCell`; the model uses `SetCell` only for cells inside the field.
- A field-level mark toggle is not modelled, because no such operation exists in these files. Only `Cell.changeMark` is modelled.
