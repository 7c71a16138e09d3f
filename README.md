# Minesweeper board logic in Dafny

This project models the game logic of a Minesweeper implementation: the
per-cell state and its flood-fill `reveal`, the board that `reset` builds
(mine placement, neighbour linking, mine counting) with its two whole-board
scans `countRemainingSafeTiles` and `checkWin`, and the per-move state
machine of the terminal front-end together with its `colorForNumber` helper.

The board is an arena. Every cell is a `Cells.Cell` record. The board's
grid is a single `array<Cell>`, and square (r, c) sits at position
`r * cols + c` (`Geometry.Index`). A cell's neighbour list holds the
positions of other cells, not references to them. So the cyclic neighbour
graph needs no object links, and each cell method of the source becomes a
method on the array and a position.

- `cells.dfy`:
  - `Cell` and its operations.
  - The reveal specification `RevealSpec`. The cells revealed are exactly
    those reachable from the start through hidden, unflagged cells, where
    every cell passed through has no mine and count 0.
  - The recursive `Reveal`, proved equal to that specification. Its
    recursion terminates because the set of hidden cells shrinks.
- `geometry.dfy`:
  - Row-major positions.
  - The in-bounds Moore neighbour list that `linkNeighbors` builds, in its
    row-offset-then-column-offset order.
  - What that list contains: its members, its symmetry, and its length of
    3, 5 or 8.
- `world.dfy`: the `World` class with `reset` and its steps, the two scans,
  and the layout invariant `Laid` that `reset` establishes.
- `terminal.dfy`:
  - The move dispatch as the method `Move`, proved equal to the
    specification function `Step`, with lemmas about `Step`.
  - `ColorForNumber`.

`addNeighbor` appends to an `ArrayList` without checking for duplicates,
and `countAdjacentMines` counts one per entry. So neighbours are a
`seq<nat>`, and `MinedCount` counts duplicate entries. On a non-empty board
the rejection sampling in `placeMines` ends, with probability 1, whenever
`mines <= rows * cols`, equality included. The model asks for exactly that.

## Model

| member | source | states |
|---|---|---|
| `Cells.NewCell` | src/main/java/minesweeper/Cell.java:13-21 | A new cell keeps its row and column and has no mine, is neither revealed nor flagged, has count 0 and has an empty neighbour list |
| `Cells.AddNeighbor` | src/main/java/minesweeper/Cell.java:23-25 | Appends exactly one entry at the end of the cell's list, even a duplicate, and changes nothing else on the board |
| `Cells.MinedCount` | src/main/java/minesweeper/Cell.java:27-33 | The number of neighbour entries naming a mined cell is at most the list's length; it is 0 exactly when no entry is mined, and equals the length exactly when every entry is mined |
| `Cells.MinedCountAppend` | src/main/java/minesweeper/Cell.java:29-30 | Appending an entry raises the count by one exactly when the entry is mined, so duplicate entries are counted once per occurrence |
| `Cells.MinedCountSameMines` | src/main/java/minesweeper/Cell.java:27-33 | The count depends only on where the mines are |
| `Cells.CountAdjacentMines` | src/main/java/minesweeper/Cell.java:27-33 | The loop stores, in that one cell only, the number of its mined neighbour entries |
| `Cells.Reveal` | src/main/java/minesweeper/Cell.java:36-43 | The recursive flood fill terminates and leaves the board equal to `RevealSpec`: exactly the cells reachable from the start through hidden, unflagged cells are revealed, where every cell the path passes through has no mine and count 0 |
| `Cells.RevealSpecFacts` | src/main/java/minesweeper/Cell.java:36-43 | `reveal` only turns `isRevealed` from false to true, never on a flagged cell, and changes no other field. Every zero cell it opens has all its unflagged neighbours revealed, and the start cell ends revealed or flagged |
| `Cells.RevealSpecUnique` | src/main/java/minesweeper/Cell.java:36-43 | Any board with those closure properties is the reveal specification; soundness and completeness of the flood fill |
| `Cells.RevealClosedIsNoop` | src/main/java/minesweeper/Cell.java:37 | Revealing a cell that is already revealed or is flagged changes nothing anywhere |
| `Cells.RevealOpensStart` | src/main/java/minesweeper/Cell.java:38 | Revealing a hidden, unflagged cell leaves it revealed and otherwise unchanged |
| `Cells.RevealNoCascade` | src/main/java/minesweeper/Cell.java:40 | A mined cell or one with a positive count reveals only itself |
| `Cells.RevealCascades` | src/main/java/minesweeper/Cell.java:40-41 | A hidden cell with no mine and count 0 leaves every unflagged neighbour revealed |
| `Cells.RevealIdempotent` | src/main/java/minesweeper/Cell.java:36-43 | Revealing the same cell twice has the effect of revealing it once |
| `Cells.SafeRevealFindsNoMine` | src/main/java/minesweeper/Cell.java:40-41 | With correct counts, revealing an unmined cell never uncovers a mine |
| `Cells.ThreeCellCascade` | tests/java/MinesweeperTests.java:49-64 | A centre cell linked to two unmined cells, all with count 0, reveals all three |
| `Geometry.Index` | src/main/java/minesweeper/MinesweeperWorld.java:56-63 | Square (r, c) of a `rows` by `cols` grid has a position inside the flat array |
| `Geometry.IndexInjective` | src/main/java/minesweeper/MinesweeperWorld.java:56-63 | Distinct squares have distinct positions |
| `Geometry.MooreUnfold` | src/main/java/minesweeper/MinesweeperWorld.java:101-109 | A square's list is its nine offsets, row offset first, then column offset, each from -1 to 1 |
| `Geometry.MooreNeighborsExactly` | src/main/java/minesweeper/MinesweeperWorld.java:101-107 | A square is in the list of (r, c) exactly when it is on the board, adjacent to (r, c) and not (r, c) itself; there is no wrap-around |
| `Geometry.MooreNeighborsOnBoard` | src/main/java/minesweeper/MinesweeperWorld.java:103-106 | Every entry of the list is the position of an adjacent on-board square |
| `Geometry.MooreNeighborsSymmetric` | src/main/java/minesweeper/MinesweeperWorld.java:97-112 | Square a lists square b exactly when b lists a |
| `Geometry.MooreNeighborsLength` | src/main/java/minesweeper/MinesweeperWorld.java:101-107 | The list has one entry per on-board square of the 3 by 3 block around the square, less the square itself |
| `Geometry.MooreNeighborCounts` | src/main/java/minesweeper/MinesweeperWorld.java:97-112 | On a board of at least 2 by 2, corners have 3 neighbours, other border squares 5 and interior squares 8 |
| `Worlds.MineCount` | src/main/java/minesweeper/MinesweeperWorld.java:81-91 | The number of mined cells is at most the number of cells |
| `Worlds.MineCountPlace` | src/main/java/minesweeper/MinesweeperWorld.java:86-88 | Mining an unmined cell raises the mine count by exactly one |
| `Worlds.UnminedCell` | src/main/java/minesweeper/MinesweeperWorld.java:83-86 | While fewer cells are mined than exist, an unmined cell exists for the placement loop to find |
| `Worlds.SafeHiddenCount` | src/main/java/minesweeper/MinesweeperWorld.java:131-142 | The number of unmined, unrevealed cells plus the number of mines is at most the number of cells |
| `Worlds.SafeHiddenWhenNoneRevealed` | src/main/java/minesweeper/MinesweeperWorld.java:69-70 | With nothing revealed, the safe hidden cells number the cells less the mines, which is what `reset` stores in `safeTilesLeft` |
| `Worlds.AllSafeRevealedIffNoneLeft` | src/main/java/minesweeper/MinesweeperWorld.java:215-224 | Every unmined cell is revealed exactly when no safe hidden cell is left |
| `Worlds.LaidKept` | src/main/java/minesweeper/Cell.java:36-43 | Changing only revealed and flagged marks keeps the layout `reset` built, including its correct counts |
| `Worlds.CountIsMinedAdjacent` | src/main/java/minesweeper/MinesweeperWorld.java:118-124 | On the laid-out board, a square's count is the number of mined squares in its Moore neighbour list. It is at most 8, and 0 exactly when no adjacent on-board square holds a mine |
| `Worlds.MineCountZero` | src/main/java/minesweeper/MinesweeperWorld.java:59-63 | A grid of new cells holds no mine |
| `Worlds.NewGrid` | src/main/java/minesweeper/MinesweeperWorld.java:56-63 | Allocates a fresh `rows * cols` grid in which square (r, c) holds `new Cell(r, c)` |
| `Worlds.FillRow` | src/main/java/minesweeper/MinesweeperWorld.java:60-62 | One pass of the inner allocation loop fills row `r` and keeps the rows before it |
| `Worlds.World.constructor` | src/main/java/minesweeper/MinesweeperWorld.java:39-45 | Records the dimensions and the mine count, then resets the board: the new world is in its started state, and for non-negative `mines` its `safeTilesLeft` equals the number of safe hidden cells |
| `Worlds.World.Reset` | src/main/java/minesweeper/MinesweeperWorld.java:52-75 | Afterwards the grid is fresh, `rows * cols` cells are laid out with correct coordinates, neighbour lists and counts, and exactly `mines` cells are mined (none if `mines` is negative). Nothing is revealed or flagged, `gameOver` is false, `totalMines == mines` and `safeTilesLeft == rows * cols - mines`, which for non-negative `mines` is the number of safe hidden cells |
| `Worlds.World.Populate` | src/main/java/minesweeper/MinesweeperWorld.java:65-67 | Placing, linking and counting in that order on a fresh grid yields the laid-out, untouched board with the right number of mines |
| `Worlds.World.PlaceMines` | src/main/java/minesweeper/MinesweeperWorld.java:81-91 | Mines exactly `mines` more cells (none if `mines` is negative), removes no mine and changes no other field |
| `Worlds.World.LinkNeighbors` | src/main/java/minesweeper/MinesweeperWorld.java:97-112 | Appends to each square's list exactly its Moore neighbour list and changes nothing else |
| `Worlds.World.LinkRow` | src/main/java/minesweeper/MinesweeperWorld.java:99-110 | One pass of the column loop links every square of row `r` |
| `Worlds.World.LinkCell` | src/main/java/minesweeper/MinesweeperWorld.java:100-109 | The two offset loops append the square's Moore neighbour list to its own list and touch no other cell |
| `Worlds.World.LinkOffset` | src/main/java/minesweeper/MinesweeperWorld.java:103-107 | One offset appends that neighbour exactly when the offset is not (0, 0) and lands on the board |
| `Worlds.World.CountMines` | src/main/java/minesweeper/MinesweeperWorld.java:118-124 | Every cell's count becomes the number of its mined neighbour entries; no other field changes |
| `Worlds.World.CountRemainingSafeTiles` | src/main/java/minesweeper/MinesweeperWorld.java:131-142 | Returns the number of unmined, unrevealed cells and modifies nothing |
| `Worlds.World.CheckWin` | src/main/java/minesweeper/MinesweeperWorld.java:215-224 | Sets `gameOver` exactly when every unmined cell is revealed, never clears it, and changes nothing else |
| `Terminal.Move` | src/main/java/minesweeper/MinesweeperRunTerminal.java:43-66 | One move on a running game leaves the board, `gameOver` and the message branch as `Step` describes |
| `Terminal.OffBoardIsNoop` | src/main/java/minesweeper/MinesweeperRunTerminal.java:43-46 | Coordinates off the board change nothing and keep the game going |
| `Terminal.StepEndsGame` | src/main/java/minesweeper/MinesweeperRunTerminal.java:50-61 | A move ends the game exactly when it hits a mine or clears the board |
| `Terminal.HitMineExactly` | src/main/java/minesweeper/MinesweeperRunTerminal.java:51-53 | A mine is hit exactly when a mined on-board square is revealed, and then only that square's `isRevealed` changes, with no cascade |
| `Terminal.ClearedExactly` | src/main/java/minesweeper/MinesweeperRunTerminal.java:56-60 | The board is reported cleared exactly when the game ends with every unmined square revealed and no mine hit |
| `Terminal.SafeRevealStep` | src/main/java/minesweeper/MinesweeperRunTerminal.java:56-57 | A safe reveal is `reveal` followed by `checkWin`: exactly the reachable squares are uncovered, and the game ends exactly when no unmined square is then hidden |
| `Terminal.FlagFlipsOnly` | src/main/java/minesweeper/MinesweeperRunTerminal.java:62-63 | Flagging flips that one square's flag and changes nothing else |
| `Terminal.FlagTwiceRestores` | src/main/java/minesweeper/MinesweeperRunTerminal.java:62-63 | Flagging the same square twice restores the board |
| `Terminal.UnknownActionIsNoop` | src/main/java/minesweeper/MinesweeperRunTerminal.java:64-65 | An action other than reveal or flag changes nothing |
| `Terminal.StepKeepsLayout` | src/main/java/minesweeper/MinesweeperRunTerminal.java:48-66 | A move changes only revealed and flagged marks and never hides a revealed square |
| `Terminal.StepKeepsLaid` | src/main/java/minesweeper/MinesweeperRunTerminal.java:48-66 | Every move keeps the layout and the correct counts that `reset` established |
| `Terminal.OnlyHitShowsMine` | src/main/java/minesweeper/MinesweeperRunTerminal.java:50-57 | On a correctly counted board with no mine showing, a move uncovers a mine exactly when it is the move that hits one |
| `Terminal.ColorForNumber` | src/main/java/minesweeper/MinesweeperRunTerminal.java:108-120 | Every result is an ANSI escape `ESC [ ... m`. The reset code `ESC[0m` is returned exactly for values outside 0..8 |
| `Terminal.ColorsDistinct` | src/main/java/minesweeper/MinesweeperRunTerminal.java:110-118 | The counts 0 to 8 get pairwise distinct colours, except that 7 and 8 are both white |

## Left out

- The JavaFX rendering is not modelled, because it is display only. This covers `drawGrid` and `getText`, the `root`, `cellSize` and `difficultySelect` fields, and the `root` checks inside `reset`.
- `MinesweeperFX.java` is not part of this model. It is UI event handling, including a floating-point mapping from pixels to cells.
- The terminal's console I/O is not modelled: `Scanner`, `System.out` and `printBoard`. `Move` takes the parsed row, column and action as parameters. Its result names the message that would be printed.
- The outer game loop of the terminal front-end is not modelled. `Move` is one turn of it, and so it requires the game not to be over.
- `java.util.Random` is not modelled. Each turn of `PlaceMines` picks an unmined square nondeterministically, which collapses the source's rejected draws into one. The probabilistic termination of rejection sampling is not modelled.
- `Worlds.World.PlaceMines` requires at most as many mines as unmined squares, so `Reset` and the constructor require `mines <= rows * cols`. Beyond that the source loops forever on a non-empty board. When `rows` or `cols` is 0 and `mines > 0`, it throws from `Random.nextInt(0)` instead, and that exception is not modelled.
- Java's 32-bit `int` overflow of `rows * cols` and of the counts is not modelled. Board sizes are unbounded naturals, and negative dimensions are not modelled, because `new Cell[rows][cols]` throws for them.
- The call-stack depth of the recursive `reveal` is not modelled. On a very large zero region the JVM could overflow its stack.
- Cell identity is modelled by grid position. The source's references and `equals` are object identity, and an index is exactly that within one board.
- `action.equalsIgnoreCase("r")` is modelled as the action being `"r"` or `"R"`, and likewise for `"f"`. No other string is equal to these two under Java's case-insensitive comparison.
- `safeTilesLeft` stays as `reset` set it. Neither the terminal's move dispatch (MinesweeperRunTerminal.java:43-66) nor `checkWin` updates it. Only the JavaFX click handler refreshes it from `countRemainingSafeTiles`, and that handler is not part of this model.
