# Minesweeper grid — a Dafny model

This project models the grid state machine of a small Python Minesweeper game
and proves properties of it. It covers both revisions of the grid class:

- `MinesweeperGrid` (latest revision, `mocoma_minesweeper_src.py`). It has a
  row-major store of immutable cells, each with a mine flag and one of the
  states HIDDEN, FLAGGED and SHOWN. It also has random mine placement with an
  optional forbidden-coordinate list, one-field cell mutators, the 3x3 mine
  count `n_mines_around`, the recursive reveal `clear_from`, and the terminal
  predicates `is_loss`, `is_win` and `ended`.
- `Minesweeper_Grid` (earlier revision, `minesweeper.py`). It has the same
  store and mutators, but its cells are named tuples with string states.

Modules, one per concern of the source:

| module | file | models |
|---|---|---|
| `Counting` | counting.dfy | counting positions of the cell list (mine total, hidden cells, free cells) |
| `Coords` | coords.dfy | `coords_are_valid`, the row-major index and its inverse, out-of-range failures |
| `CellStore` | store.dfy | the cell list and `get_cell`/`set_cell`, generic in the cell type and shared by both revisions (minesweeper.py:31-35 is the same code) |
| `MinesweeperGrid` | grid.dfy | `Cell`, `__init__`, `put_mine`, `show_cell`, `flag_cell`, `hide_cell`, `get_n_mines` |
| `Adjacency` | adjacency.dfy | `n_mines_around` |
| `FloodFill` | floodfill.dfy | `clear_from` |
| `Terminal` | terminal.dfy | `is_loss`, `is_win`, `ended` |
| `Placement` | placement.dfy | `gen_random` of the latest revision |
| `LegacyGrid` | legacy.dfy | the rest of the earlier-revision class, and its refinement of the latest one |

Each mutator is a pure function. It returns the new grid, or `OutOfBounds`
for coordinates outside the grid. `clear_from` is the pair of mutually
recursive functions `FloodFill.Clear` (reveal, then expand if the count is
zero) and `FloodFill.Visit` (the loop over the four neighbours). They
terminate because the number of hidden cells drops on every recursive call.
`gen_random` is a method. Each random draw, together with the redraws its
guard forces, is one nondeterministic choice (`:|`) of coordinates the guard
accepts. So the proofs cover every outcome the random generator could give.

Modelling decisions, each following the code:

- **Index stride.** The index is `y * width + x`. Both revisions write
  `y * height + x`, which only works for square grids (see Findings).
- **Out-of-range coordinates.** `get_cell`, `set_cell`, the four cell
  mutators and `clear_from` fail with `OutOfBounds` outside
  `0 <= x < width, 0 <= y < height`. The source never checks there. It
  computes a list index and uses it, so an out-of-range pair does one of
  three things in Python:
  - an index past the end raises `IndexError`;
  - a negative index reaches a cell counted from the end of the list;
  - an `x` at or past the width, with an index still inside the list, wraps
    into the next row (on a 3x3 grid `get_cell(3, 0)` is cell (0, 1)).

  `n_mines_around` is different: it is total in both the source and the
  model, because its loops clip the window to the grid.
- **Initial cells.** `__init__` stores the `Cell` class itself rather than
  instances. Every read then sees the class defaults. So a fresh cell is
  `Cell(false, Hidden)` (`MinesweeperGrid.Blank`).
- **Centre cell in `n_mines_around`.** The count includes the centre cell, as
  the loops and the docstring ("itself included") do. The eight-neighbour
  count is `Adjacency.Neighbours8`. The two differ by the centre's mine
  (`Adjacency.NMinesAroundCentre`, `Adjacency.LoneMineCountsItself`).
- **Flagged start cell.** `clear_from` on a flagged or shown start cell shows
  it and still expands, exactly like `show_cell`. Flags on all other cells
  are never touched.
- **4-connected expansion.** The reveal expands to the four orthogonal
  neighbours only, while the count looks at all eight. Every cell it shows
  is joined to the start by a chain of orthogonal steps, each taken from the
  start or a shown cell of count zero (`FloodFill.ClearContained`). Every
  such zero-count cell ends with no hidden neighbour
  (`FloodFill.ClearCloses`).
- **Placement guard.** The redraw guard of the latest `gen_random` means
  "forbidden or already mined". That is the earlier revision's guard
  extended with the forbidden list. The source's `and` version is modelled
  separately (see Findings).
- **`get_n_mines`.** Its body calls `len` on a generator, so in Python it
  raises. It is modelled as the intended mine count
  `MinesweeperGrid.CountMines`.

## Model

| member | source | states |
|---|---|---|
| Coords.Index | mocoma_minesweeper_src.py:332 | valid coordinates address a position inside the `width*height` cell list |
| Coords.IndexInjective | mocoma_minesweeper_src.py:332 | distinct valid coordinates never share a list position |
| Coords.CoordOfIndex | mocoma_minesweeper_src.py:309-332 | decoding the index of valid coordinates gives those coordinates back |
| Coords.IndexCoordOf | mocoma_minesweeper_src.py:309-332 | every list position is the index of valid coordinates, so valid coordinates and positions are in one-to-one correspondence |
| Coords.UpdateFrame | mocoma_minesweeper_src.py:344 | writing one position leaves every other valid coordinate's cell as it was |
| Coords.IndexAsWrittenAliases | mocoma_minesweeper_src.py:332 | with the height as stride, two distinct valid cells of a 3x2 grid share position 2 |
| Coords.IndexAsWrittenOverruns | minesweeper.py:32 | with the height as stride, valid cell (1, 2) of a 2x3 grid lands at position 7 of a 6-cell list |
| Coords.IndexAsWrittenSquare | minesweeper.py:59 | on square grids the height stride agrees with the row-major index |
| CellStore.CoordsAreValid | mocoma_minesweeper_src.py:309-319 | valid coordinates address a position inside the stored cell list |
| MinesweeperGrid.New | mocoma_minesweeper_src.py:278-281 | a new grid has the given dimensions, `width*height` cells, each without a mine and hidden |
| MinesweeperGrid.NewGridCounts | mocoma_minesweeper_src.py:270-281 | a new grid has no mine and no flag, and all `width*height` cells are hidden |
| CellStore.Update | mocoma_minesweeper_src.py:334-344 | storing a cell sets that cell and leaves every other cell and the dimensions unchanged |
| CellStore.GetCell | mocoma_minesweeper_src.py:309-332 | reading fails exactly when the coordinates are not valid |
| CellStore.SetCell | mocoma_minesweeper_src.py:334-344 | fails exactly outside the grid; otherwise reading back gives the stored cell and every other coordinate reads as before |
| MinesweeperGrid.PutMine | mocoma_minesweeper_src.py:346-357 | the target gains a mine and keeps its state; nothing else changes |
| MinesweeperGrid.ShowCell | mocoma_minesweeper_src.py:359-370 | the target becomes shown and keeps its mine; nothing else changes |
| MinesweeperGrid.FlagCell | mocoma_minesweeper_src.py:390-401 | the target becomes flagged and keeps its mine; nothing else changes |
| MinesweeperGrid.HideCell | mocoma_minesweeper_src.py:403-414 | the target becomes hidden and keeps its mine; nothing else changes |
| MinesweeperGrid.MutatorsIdempotent | mocoma_minesweeper_src.py:346-414 | applying any of the four mutators twice gives the same grid as applying it once |
| MinesweeperGrid.CountMines | mocoma_minesweeper_src.py:462-469 | the mine count is at most the number of cells, and zero exactly when no cell has a mine |
| MinesweeperGrid.PutMineCount | mocoma_minesweeper_src.py:346-357 | putting a mine adds one to the count unless the cell already had one, and leaves the hidden count alone |
| MinesweeperGrid.WithVisibilityCount | mocoma_minesweeper_src.py:359-414 | a state change keeps the mine count; the hidden count drops by one when the cell leaves the hidden state, rises by one when it enters it, and otherwise stays |
| Adjacency.WindowClipColumns | mocoma_minesweeper_src.py:455 | clipping the column range to the grid drops only columns without mines |
| Adjacency.WindowClipRows | mocoma_minesweeper_src.py:456 | clipping the row range to the grid drops only rows without mines |
| Adjacency.NMinesAround | mocoma_minesweeper_src.py:444-460 | the count over the clipped window never exceeds 9, the cells of a 3x3 window |
| Adjacency.ClippedWindowCounts | mocoma_minesweeper_src.py:454-460 | the source's two loops over the clipped window add up the eight neighbours' mines and the centre's, cells outside the grid counting nothing |
| Adjacency.NMinesAroundCountsWindow | mocoma_minesweeper_src.py:444-460 | the count equals the mined in-grid cells of the 3x3 window: the eight-neighbour count plus the centre |
| Adjacency.NMinesAroundCentre | mocoma_minesweeper_src.py:444-460 | for a mine-free centre the count is the eight-neighbour count; for a mined centre it is one more |
| Adjacency.LoneMineCountsItself | mocoma_minesweeper_src.py:445 | at the only mined cell of a grid the count is 1 while the eight-neighbour count is 0 |
| Adjacency.ZeroCountClearsWindow | mocoma_minesweeper_src.py:454-460 | a zero count means no cell of the 3x3 window holds a mine |
| Adjacency.NMinesAroundSameMines | mocoma_minesweeper_src.py:457 | the count depends only on the mines, not on cell states |
| Adjacency.NoMinesZeroCount | mocoma_minesweeper_src.py:454-460 | on a mine-free grid every count is zero |
| FloodFill.Neighbour | mocoma_minesweeper_src.py:385 | each of the four visited cells shares a side with (x, y) |
| FloodFill.NeighboursEnumerateOrthogonal | mocoma_minesweeper_src.py:385 | the four visits reach every cell sharing a side with (x, y), and no cell twice |
| FloodFill.Clear | mocoma_minesweeper_src.py:372-388 | terminates with the hidden count as measure; the result is the start shown, then only hidden cells turned shown, never above the count after the first reveal |
| FloodFill.Visit | mocoma_minesweeper_src.py:385-388 | visiting the neighbours only turns hidden cells into shown ones and never raises the hidden count |
| FloodFill.ClearFrom | mocoma_minesweeper_src.py:372-388 | fails exactly outside the grid; otherwise the start is shown with its mine, every other cell is unchanged or went hidden to shown (mines and other flags kept), and a hidden start lowers the hidden count |
| FloodFill.ShowHiddenReveals | mocoma_minesweeper_src.py:381 | showing a hidden cell is a hidden-to-shown step and nothing else |
| FloodFill.OnlyRevealsKeepsCounts | mocoma_minesweeper_src.py:381-388 | a reveal keeps every mine and therefore every mine count |
| FloodFill.ComposeCloses | mocoma_minesweeper_src.py:385-388 | the closure and mine-safety of one neighbour's reveal and of the remaining neighbours' reveals combine into those of both together |
| FloodFill.VisitCloses | mocoma_minesweeper_src.py:383-388 | from a zero-count cell, the visited neighbours end not hidden, every cell revealed is mine-free, and every revealed zero-count cell keeps no hidden neighbour |
| FloodFill.ClearCloses | mocoma_minesweeper_src.py:372-388 | the start and every cell the call reveals, when its count is zero, end with no hidden orthogonal neighbour; the only mined cell the call can reveal is the start |
| FloodFill.NumberedStartShowsOnlyStart | mocoma_minesweeper_src.py:381-383 | a start whose count is not zero is shown and nothing else changes |
| FloodFill.ReachedCarries | mocoma_minesweeper_src.py:383-388 | a chain of expanding cells from one reveal stays a chain in a larger reveal that contains its expanding cells and joins its start |
| FloodFill.ComposeContained | mocoma_minesweeper_src.py:385-388 | a chain from the neighbour's recursion and a chain from the remaining neighbours both become chains from the centre |
| FloodFill.VisitContained | mocoma_minesweeper_src.py:383-388 | every cell the neighbour loop shows is joined to the zero-count centre by a chain of orthogonal steps through zero-count cells it shows |
| FloodFill.ClearContained | mocoma_minesweeper_src.py:372-388 | every cell the call shows is joined to the start by a chain of orthogonal steps, each taken from the start or a shown cell of count zero; a zero-count region cut off from the start stays hidden |
| FloodFill.RowPathStopsAtNumbered | mocoma_minesweeper_src.py:383 | on a one-row grid, no chain from the start passes a numbered cell to its right |
| FloodFill.NumberedCellBlocksRow | mocoma_minesweeper_src.py:372-388 | on a one-row grid every cell beyond a numbered cell right of the start keeps its state |
| FloodFill.ClearRevealsMineFreeGrid | mocoma_minesweeper_src.py:372-388 | on a mine-free, all-hidden grid, clearing from any valid cell shows every cell |
| Terminal.IsLoss | mocoma_minesweeper_src.py:416-423 | lost exactly when some valid coordinates hold a shown mine |
| Terminal.IsWin | mocoma_minesweeper_src.py:425-433 | won exactly when every valid coordinate pair is correctly marked (mined and flagged, or mine-free and not flagged); a won grid is never lost |
| Terminal.Ended | mocoma_minesweeper_src.py:435-442 | ended exactly when the grid is won or lost but not both |
| Terminal.LossAtCoords | mocoma_minesweeper_src.py:416-423 | a shown mine at some list position is a shown mine at some valid coordinates, and back |
| Terminal.WinAtCoords | mocoma_minesweeper_src.py:425-433 | all list positions correctly marked is all valid coordinates correctly marked |
| Terminal.MineFreeUnflaggedWins | mocoma_minesweeper_src.py:425-442 | a grid with no mine and no flag is won, not lost, and has ended |
| Terminal.WinFlagsEveryMine | mocoma_minesweeper_src.py:425-433 | in a won grid the number of flags equals the number of mines |
| Terminal.ShowMineLoses | mocoma_minesweeper_src.py:359-423 | showing a mined cell makes the grid lost and not won |
| Terminal.FlagCellWins | mocoma_minesweeper_src.py:390-433 | flagging a cell wins exactly when it holds a mine and every other cell is already correctly marked |
| Terminal.ClearFromMineLoses | mocoma_minesweeper_src.py:372-423 | clearing from a mined cell loses the game |
| Terminal.ClearFromKeepsLoss | mocoma_minesweeper_src.py:372-423 | clearing never turns a lost grid back into one that is not lost |
| Placement.Redraw | mocoma_minesweeper_src.py:301 | the intended guard accepts a draw exactly when the cell is one of the allowed, mine-free cells that FreeCells counts |
| Placement.RedrawAsWritten | mocoma_minesweeper_src.py:301 | the `and` guard redraws only where the intended one does, and with an empty forbidden list never redraws |
| Placement.FreeCellExists | mocoma_minesweeper_src.py:299-302 | while some allowed cell has no mine, the intended guard accepts some valid coordinates |
| Placement.AllowedCellsNoForbidden | mocoma_minesweeper_src.py:283-307 | with an empty forbidden list every cell is allowed, so the placement demand is `nMines <= width*height` |
| Placement.PlaceCounts | mocoma_minesweeper_src.py:301-305 | a mine placed where the intended guard accepts adds exactly one mine and uses up exactly one free cell |
| Placement.GenRandom | mocoma_minesweeper_src.py:283-307 | with at most as many mines as allowed cells: exactly `nMines` mines, none on a forbidden coordinate, every cell hidden |
| Placement.GenRandomAsWritten | mocoma_minesweeper_src.py:295-307 | with the `and` guard the result has at most `nMines` mines, all cells hidden |
| Placement.AsWrittenGuardMinesForbiddenCell | mocoma_minesweeper_src.py:301 | the `and` guard accepts a forbidden, mine-free coordinate, which then receives a mine |
| Placement.AsWrittenGuardLosesAMine | mocoma_minesweeper_src.py:301 | the `and` guard accepts an already mined coordinate, so two draws of one cell leave one mine |
| LegacyGrid.New | minesweeper.py:9-12 | a new grid has `width*height` cells, all `(False, "hidden")` |
| LegacyGrid.PutBomb | minesweeper.py:37-40 | the target gains a bomb and keeps its state; nothing else changes |
| LegacyGrid.DiscoverCell | minesweeper.py:42-45 | the target's state becomes "shown" with its bomb kept; nothing else changes |
| LegacyGrid.FlagCell | minesweeper.py:47-50 | the target's state becomes "flagged" with its bomb kept; nothing else changes |
| LegacyGrid.HideCell | minesweeper.py:52-55 | the target's state becomes "hidden" with its bomb kept; nothing else changes |
| LegacyGrid.MutatorsIdempotent | minesweeper.py:37-55 | applying any of `put_bomb`, `discover_cell`, `flag_cell`, `hide_cell` twice gives the same grid as applying it once |
| LegacyGrid.CountBombs | minesweeper.py:20-26 | the bomb count is at most the number of cells, and zero exactly when no cell holds a bomb |
| LegacyGrid.PutBombCount | minesweeper.py:37-40 | putting a bomb adds one bomb unless the cell already had one |
| LegacyGrid.Abstract | minesweeper.py:7-12 | maps each string-state cell onto the latest revision's enum cell, position by position |
| LegacyGrid.AbstractUpdate | minesweeper.py:34-35 | storing a cell keeps all states among the three strings and commutes with the mapping to the latest revision |
| LegacyGrid.NewRefines | minesweeper.py:9-12 | a new earlier-revision grid has only known states and maps to a new latest-revision grid |
| LegacyGrid.MutatorsRefine | minesweeper.py:37-55 | the four mutators write only "hidden", "flagged" or "shown", and match `put_mine`, `show_cell`, `flag_cell` and `hide_cell` of the latest revision |
| LegacyGrid.CountBombsRefines | minesweeper.py:37-40 | the bomb count equals the mine count of the mapped grid |
| LegacyGrid.GenRandom | minesweeper.py:14-28 | with `nBombs <= width*height`: exactly `nBombs` bombed cells, every state "hidden" |

## Left out

- `MinesweeperIO`, `PygameIO`, `ConsoleIO` (mocoma_minesweeper_src.py:18-249) and minesweeper_io.py: console and pygame rendering, blocking input loops, asset loading and `sys.exit`. These are I/O with no grid logic.
- `MinesweeperGame` (mocoma_minesweeper_src.py:472-515) is a render/input loop bound to I/O. `do_action` cannot run as written. It uses the undefined name `io_controller`. Its SHOW and FLAG branches call each other's operation. Its quit branch tests SHOW a second time.
- The script at minesweeper.py:58-62 is a console game loop.
- `randint`: each accepted draw is a nondeterministic choice. The model says nothing about the distribution of mines, and nothing about how many redraws happen.
- Python's recursion limit: `clear_from` recurses once per revealed cell and can raise `RecursionError` on large grids. The model's recursion is unbounded.
- The repeated `show_cell(x, y)` at mocoma_minesweeper_src.py:384 is left out. Showing a shown cell changes nothing (`MinesweeperGrid.MutatorsIdempotent`).
- The class-level `_cells = []` default, the unused `threading` import and the mutable default `forbidden_coords=[]` are left out. The model uses one immutable cell list per grid.
- `set_cell` of either revision accepts any object, and the earlier revision accepts any state string. `LegacyGrid.StatesKnown` holds for every grid built by the constructor and the four mutators, not for grids written with arbitrary cells through `SetCell`.
- CellStore.GetCell: returns `OutOfBounds` outside the grid, whereas the source reads `_cells[y * height + x]` unchecked. That raises `IndexError` past the end, counts from the end for a negative index, and wraps an `x` at or past the width into the next row. The model does not reproduce these reads.
- CellStore.SetCell: returns `OutOfBounds` outside the grid, whereas the source writes the same unchecked index and so overwrites a cell at the wrapped or negative position. The model does not reproduce these writes.
- MinesweeperGrid.PutMine: out-of-range coordinates return `OutOfBounds` rather than mining the cell at the wrapped or negative index.
- MinesweeperGrid.ShowCell: out-of-range coordinates return `OutOfBounds` rather than showing the cell at the wrapped or negative index.
- MinesweeperGrid.FlagCell: out-of-range coordinates return `OutOfBounds` rather than flagging the cell at the wrapped or negative index.
- MinesweeperGrid.HideCell: out-of-range coordinates return `OutOfBounds` rather than hiding the cell at the wrapped or negative index.
- LegacyGrid.PutBomb: out-of-range coordinates return `OutOfBounds` rather than mining the cell at the wrapped or negative index.
- LegacyGrid.DiscoverCell: out-of-range coordinates return `OutOfBounds` rather than showing the cell at the wrapped or negative index.
- LegacyGrid.FlagCell: out-of-range coordinates return `OutOfBounds` rather than flagging the cell at the wrapped or negative index.
- LegacyGrid.HideCell: out-of-range coordinates return `OutOfBounds` rather than hiding the cell at the wrapped or negative index.
- FloodFill.ClearFrom: returns `OutOfBounds` for a start outside the grid. The source shows the cell at the wrapped or negative index instead: on a 3x3 grid `clear_from(-1, 0)` shows cell (2, 2). It then counts mines around (-1, 0) over the clipped window and, when that count is zero, floods from the in-grid neighbour (0, 0).
- Placement.GenRandom: requires at most as many mines as allowed cells, and takes the count as a `nat`. On the inputs this excludes, the source does not return. A count above the allowed cells spins forever in the inner redraw loop once every allowed cell is mined (with the corrected guard). A negative count never reaches 0 in `while n_mines:` (mocoma_minesweeper_src.py:299). A zero width or height with a positive count makes `randint(0, -1)` raise ValueError. The model has no error result for these inputs.
- LegacyGrid.GenRandom: requires at most `width*height` bombs, and takes the count as a `nat`. On the inputs this excludes, the source does not return. A larger count spins forever in `while grid.get_cell(x, y).has_bomb` (minesweeper.py:22) once every cell holds a bomb. A negative count never reaches 0 in `while n_bombs:` (minesweeper.py:20). A zero width or height with a positive count makes `randint` raise ValueError.
- Placement.GenRandomAsWritten: promises at most `nMines` mines and no freedom from forbidden cells, because the source's `and` guard gives no more (see Findings). Its requires excludes the inputs on which the source does not return, and the model has no error result for them. If every coordinate is forbidden and `nMines` exceeds `width * height`, the inner loop (mocoma_minesweeper_src.py:301-302) spins forever once every cell is mined. A zero width or height with a positive count makes `randint(0, -1)` raise ValueError. A negative count, which the `nat` parameter excludes, never reaches 0 in `while n_mines:` (mocoma_minesweeper_src.py:299).

## Findings

| source | as written | input that shows it | evidently intended | confidence | as-written member | corrected member |
|---|---|---|---|---|---|---|
| mocoma_minesweeper_src.py:332 | `get_cell`/`set_cell` index with `y * self.height + x` | 3-wide, 2-high grid: cells (0, 1) and (2, 0) both map to position 2, so setting one overwrites the other | `y * self.width + x` | high; not executed | Coords.IndexAsWrittenAliases | Coords.IndexInjective |
| minesweeper.py:32 | `get_cell`/`set_cell` index with `y * self.height + x` | 2-wide, 3-high grid: cell (1, 2) maps to position 7 of a 6-cell list (IndexError) | `y * self.width + x` | high; not executed | Coords.IndexAsWrittenOverruns | Coords.IndexCoordOf |
| mocoma_minesweeper_src.py:301 | redraw while the point is forbidden `and` already mined | 2x1 grid asked for 2 mines, no forbidden list, draws (1, 0) then (1, 0): both accepted, one mine | redraw while forbidden `or` already mined | high; not executed | Placement.AsWrittenGuardLosesAMine | Placement.GenRandom |
| mocoma_minesweeper_src.py:301 | redraw while the point is forbidden `and` already mined | 2x1 grid, forbidden [(0, 0)], draw (0, 0): accepted and mined | redraw while forbidden `or` already mined | high; not executed | Placement.AsWrittenGuardMinesForbiddenCell | Placement.GenRandom |
