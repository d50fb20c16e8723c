# Minesweeper board engine

This is a Dafny model of the board engine of the Minesweeper game in `src/MineSweeperGUI.java`.

The game is played on a 10x10 grid with 10 mines. The engine's state is held in two arrays:
- `fieldHidden` holds, per cell, either the mine sentinel 100 or the number of mines in the 3x3 block around the cell.
- `revealed` marks the uncovered cells.

The window also keeps an "F" flag mark per cell, which a right click toggles. The model keeps it as a third array, `flagged`.

The engine's operations are:
- setting up a field: random mine placement, then an in-place count pass;
- counting the mines adjacent to a cell;
- the recursive flood fill that uncovers the area around a zero cell;
- the win test;
- the state changes of a left click and of a right click.

The model is split into two modules:
- `Field` (`field.dfy`) works on values. It defines the grid constants and cells, and the adjacency count over a set of mine cells (`AdjacentMines`), defined by recursion on rows and columns. It also gives a cardinality reference definition and the facts the engine relies on:
  - a non-mine cell's count is at most 8, so it never equals the sentinel;
  - a count of zero means no mine in the block;
  - `Closed`, the closure property of a flood fill.
- `MineSweeper` (`minesweeper.dfy`) contains the class `MineSweeperGUI`. Its three `array2` fields are updated in place by imperative methods.
  - Each method is specified through ghost set views of the arrays: `MineSet`, `RevealedSet`, `FlagSet` and `Unnumbered`.
  - Two predicates describe the board: `Counted` (every non-mine cell holds its count) and `AllSafeRevealed` (the win condition).

The recursive flood fill terminates by the measure `Unrevealed()`, the set of still-covered cells. The measure shrinks on every recursive call, because each call uncovers a cell before it recurses. The fill's two nested `for` loops become two methods, `RevealNeighbours` (rows) and `RevealRow` (columns), and the loop body becomes a third, `RevealNeighbour`. The four methods are mutually recursive and share that measure, with a second component (0 to 3) for the calls within one level.

## Model

| member | source | states |
|---|---|---|
| Field.RowMines | src/MineSweeperGUI.java:103-107 | the mines in one row of the block number at most the width of the row |
| Field.BlockMines | src/MineSweeperGUI.java:102-108 | the mines in a block of rows number at most the block's area |
| Field.AdjacentMines | src/MineSweeperGUI.java:100-110 | the count of the 3x3 block around a cell is between 0 and 9 |
| Field.AdjacentMinesRows | src/MineSweeperGUI.java:102-108 | the block count is the sum of its three row counts, as the outer loop adds them |
| Field.RowMinesZero | src/MineSweeperGUI.java:103-107 | a row count is 0 if and only if no cell of the row range holds a mine |
| Field.RowMinesGap | src/MineSweeperGUI.java:103-107 | a row with a mine-free column counts at most its width minus one |
| Field.NonMineCountAtMostEight | src/MineSweeperGUI.java:93-94 | the count of a cell that is not a mine is at most 8, so it never equals the sentinel 100 and the count pass never creates a mine |
| Field.AdjacentMinesZero | src/MineSweeperGUI.java:100-110 | a cell's count is 0 if and only if no in-bounds cell of its 3x3 block is a mine |
| Field.ZeroCountNeighboursSafe | src/MineSweeperGUI.java:164-176 | every neighbour of a cell whose count is 0 is mine-free, which is why the cascade never uncovers a mine |
| Field.RowMinesCard | src/MineSweeperGUI.java:103-107 | a row count equals the number of mine cells in that row range |
| Field.BlockMinesCard | src/MineSweeperGUI.java:102-108 | a block count equals the number of mine cells in that block |
| Field.AdjacentMinesIsNeighbourhoodSize | src/MineSweeperGUI.java:100-110 | the recursive count equals the size of the set of mine cells in the clipped 3x3 block (an independent reference definition) |
| Field.ClosedUnion | src/MineSweeperGUI.java:170-176 | the closure property of the fill survives joining the cells uncovered by two calls |
| Field.ClosedStep | src/MineSweeperGUI.java:170-176 | one recursive call that is itself closed keeps the cells uncovered so far in the sweep closed |
| Field.SafeStep | src/MineSweeperGUI.java:170-176 | one recursive call that uncovers no mine keeps the sweep mine-free |
| Field.FlagStep | src/MineSweeperGUI.java:164-176 | one recursive call that replaces the flag mark of each numbered cell it uncovers keeps the whole sweep doing so |
| Field.PlacementStep | src/MineSweeperGUI.java:81-88 | one draw keeps the mines equal to the initial mines plus the cells drawn so far; their number grows by one exactly when the drawn cell held no mine, and otherwise nothing changes |
| Field.DrawnFromPicks | src/MineSweeperGUI.java:81-88 | every drawn cell is one of the picks, and once all picks are drawn every pick is a drawn cell |
| Field.Toggle | src/MineSweeperGUI.java:138-144 | toggling flips the flag of the one cell and leaves every other cell's flag as it was |
| Field.ToggleTwice | src/MineSweeperGUI.java:138-144 | two toggles of the same cell restore the original flags |
| MineSweeper.MineSweeperGUI.constructor | src/MineSweeperGUI.java:18-20 | a new game has fresh arrays, no cell uncovered or flagged, a counted field, and at most 10 mines, all drawn from the picks; fewer than 10 only if every pick became a mine |
| MineSweeper.MineSweeperGUI.SetupField | src/MineSweeperGUI.java:76-98 | the mines afterwards are the initial mines plus the first `used` draws, their number grows by exactly the number placed (at most 10), all draws are used when fewer than 10 are placed, and every non-mine cell ends holding its adjacency count over the final mines |
| MineSweeper.MineSweeperGUI.PlaceMines | src/MineSweeperGUI.java:78-88 | placement never double-counts. The new mines are exactly the cells of the first `used` draws, and the mine count grows by exactly `placed`. Drawing stops at the draw that places the 10th mine, which was not yet a mine, or when the draws run out. Only the sentinel is written: a cell that is not a mine keeps its value |
| MineSweeper.MineSweeperGUI.PlaceMine | src/MineSweeperGUI.java:84-87 | a drawn cell becomes a mine; it is counted as placed exactly when it held no mine before; no other cell changes value |
| MineSweeper.MineSweeperGUI.FillCounts | src/MineSweeperGUI.java:90-97 | the in-place pass keeps the mine set unchanged and leaves every non-mine cell holding its adjacency count over that mine set |
| MineSweeper.MineSweeperGUI.CountAdjacentMines | src/MineSweeperGUI.java:100-110 | the loop's result equals the adjacency count over the current mines, lies in 0..9, and is at most 8 when the cell is not a mine; nothing is modified |
| MineSweeper.MineSweeperGUI.RevealEmptyCells | src/MineSweeperGUI.java:158-177 | the fill only adds uncovered cells, and changes nothing off the grid or on an uncovered cell. Otherwise it uncovers the cell, and a numbered cell alone. On a counted field it uncovers no mine beyond the cell it was called on. Every newly uncovered cell without a positive value has all its neighbours uncovered. The flag marks lost are exactly those of the newly uncovered numbered cells, whose buttons now show the number |
| MineSweeper.MineSweeperGUI.RevealNeighbours | src/MineSweeperGUI.java:170-176 | the neighbour sweep of a zero cell uncovers all its neighbours, only adds cells, uncovers no mine on a counted field, keeps the closure property, and clears exactly the flags of the numbered cells it uncovers |
| MineSweeper.MineSweeperGUI.RevealRow | src/MineSweeperGUI.java:171-175 | the sweep of one row uncovers that row's neighbours, with the same monotonicity, safety, closure and flag guarantees |
| MineSweeper.MineSweeperGUI.RevealNeighbour | src/MineSweeperGUI.java:172-174 | one step of the sweep skips the centre cell and otherwise uncovers (i, j) when on the grid. On a counted field it uncovers no mine at all, because the centre has count 0 |
| MineSweeper.MineSweeperGUI.CheckWin | src/MineSweeperGUI.java:179-188 | the result is true if and only if every non-mine cell is uncovered; nothing is modified |
| MineSweeper.MineSweeperGUI.HandleLeftClick | src/MineSweeperGUI.java:112-133 | an uncovered cell is ignored and nothing changes. Otherwise exactly the clicked cell becomes uncovered, even a zero cell. A numbered cell loses its flag mark to its number; a zero cell or a mine keeps it. The outcome reports whether it held a mine and whether the game is now won |
| MineSweeper.MineSweeperGUI.HandleLeftClickCascading | src/MineSweeperGUI.java:112-133 | corrected click: an uncovered cell is ignored. Otherwise the cell is uncovered, and a zero cell also uncovers all its neighbours. No mine is uncovered beyond the clicked cell on a counted field. The closure property holds, the flags lost are exactly those of the newly uncovered numbered cells, and the outcome reports mine and win as above |
| MineSweeper.MineSweeperGUI.HandleRightClick | src/MineSweeperGUI.java:135-145 | on an uncovered cell the flags are unchanged; otherwise the flag set is toggled at that cell and only there |
| MineSweeper.ZeroClickAsWritten | src/MineSweeperGUI.java:115-122 | on a game with no mines, a click on any cell (a zero cell) uncovers only that cell. None of its neighbours (there is at least one) is uncovered, and the game is not won |
| MineSweeper.ZeroClickCascading | src/MineSweeperGUI.java:115-122 | the same game and click with the corrected click uncovers the cell and all its neighbours, and hits no mine |

## Left out

- The Swing user interface is not part of this model: the frame, buttons, fonts, colours, menus, listeners and dialogs (`setupGame`, `createMenuBar`, the button updates inside the handlers). `revealMines` only changes button text and colour, so it is left out too.
- `resetGame`, `main` and `System.exit` are not modelled, because they dispose of the window and start a new instance. A new game is the constructor. The left-click outcome (`hitMine`, `won`) stands for the point where the source shows a dialog and resets.
- `java.util.Random` becomes the caller-supplied sequence `picks` of drawn cells.
- MineSweeper.MineSweeperGUI.PlaceMines: the source draws until 10 mines are placed, and its termination depends on the random source. The model also stops when `picks` runs out, so it states partial correctness: fewer than 10 placed only if every pick was used.
- The flag is kept by the source only as the button text "F". The model stores it in the array `flagged`. A cell whose button text becomes its number (a numbered cell uncovered by a click or by the fill) loses its flag. On a mine hit or a win, `revealMines` writes "X" on every mine button and the game is reset; the model leaves the flags as they are at that point.
- Grid size and mine count are fixed at 10 and 10, as in the source. Mine counts above the cell count are not modelled.
- Out-of-range click coordinates: the handlers require an on-grid cell, as the source only receives clicks from its own buttons and would throw otherwise.
- There is no validation of the mine count, no coordinate error, and no protection of flagged cells from a left click. The source has none of these, so the model has none either.
- MineSweeper.MineSweeperGUI.RevealEmptyCells: the contract says what the fill uncovers at least: the closure property, its neighbours, no mines. It does not state minimality, that is, that only cells reachable through zero cells are uncovered.
- The fill keeps the source's recursion rather than a work list. Its two nested loops and its loop body are separate methods, so each loop has its own contract.

## Findings

| source | as written | input that shows it | evidently intended | confidence | as-written member | corrected member |
|---|---|---|---|---|---|---|
| src/MineSweeperGUI.java:115-122 | the clicked cell is marked uncovered before `revealEmptyCells` is called on it, so the fill's already-uncovered guard (line 159) returns at once and a zero cell uncovers only itself | a game with no mines, left click on any cell (its count is 0). The source always places 10 mines, so this board is built by the model's constructor from an empty draw sequence; `HandleLeftClick` uncovers only the clicked cell for every zero cell of every board | a click on a zero cell cascades to its neighbours | not executed | MineSweeper.ZeroClickAsWritten | MineSweeper.MineSweeperGUI.HandleLeftClickCascading |
