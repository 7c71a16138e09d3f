/** The board: a `rows` by `cols` grid of cells stored row by row in one
    array, set up by `reset` and queried by `countRemainingSafeTiles` and
    `checkWin`. */
module Worlds {
  import opened Cells
  import opened Geometry

  /** The number of mined cells. */
  function MineCount(g: seq<Cell>): (n: nat)
    ensures n <= |g|
  {
    if g == [] then 0
    else MineCount(g[..|g| - 1]) + (if g[|g| - 1].hasMine then 1 else 0)
  }

  /** The number of cells that hold no mine and are not revealed. */
  function SafeHiddenCount(g: seq<Cell>): (n: nat)
    ensures n + MineCount(g) <= |g|
  {
    if g == [] then 0
    else
      var last := g[|g| - 1];
      SafeHiddenCount(g[..|g| - 1]) + (if !last.hasMine && !last.isRevealed then 1 else 0)
  }

  /** Every cell without a mine is revealed: the winning condition. */
  ghost predicate AllSafeRevealed(g: seq<Cell>) {
    forall k :: 0 <= k < |g| && !g[k].hasMine ==> g[k].isRevealed
  }

  /** Mining one unmined cell raises the mine count by exactly one. */
  lemma {:induction false} MineCountPlace(g: seq<Cell>, k: nat)
    requires k < |g| && !g[k].hasMine
    ensures MineCount(g[k := g[k].(hasMine := true)]) == MineCount(g) + 1
    decreases |g|
  {
    var g' := g[k := g[k].(hasMine := true)];
    var n := |g| - 1;
    if k == n {
      assert g'[..n] == g[..n];
    } else {
      assert g'[..n] == g[..n][k := g[k].(hasMine := true)];
      MineCountPlace(g[..n], k);
    }
  }

  /** The mine count depends only on which cells hold mines. */
  lemma {:induction false} MineCountSameMines(g: seq<Cell>, g': seq<Cell>)
    requires |g'| == |g|
    requires forall k :: 0 <= k < |g| ==> g'[k].hasMine == g[k].hasMine
    ensures MineCount(g') == MineCount(g)
    decreases |g|
  {
    if g != [] {
      MineCountSameMines(g[..|g| - 1], g'[..|g| - 1]);
    }
  }

  /** While fewer cells are mined than there are cells, some cell is unmined. */
  lemma {:induction false} UnminedCell(g: seq<Cell>) returns (k: nat)
    requires MineCount(g) < |g|
    ensures k < |g| && !g[k].hasMine
    decreases |g|
  {
    if g[|g| - 1].hasMine {
      k := UnminedCell(g[..|g| - 1]);
    } else {
      k := |g| - 1;
    }
  }

  /** On a board with nothing revealed the safe hidden cells are exactly the
      unmined ones. */
  lemma {:induction false} SafeHiddenWhenNoneRevealed(g: seq<Cell>)
    requires forall k :: 0 <= k < |g| ==> !g[k].isRevealed
    ensures SafeHiddenCount(g) == |g| - MineCount(g)
    decreases |g|
  {
    if g != [] {
      SafeHiddenWhenNoneRevealed(g[..|g| - 1]);
    }
  }

  /** The game is won exactly when no safe cell is left hidden. */
  lemma {:induction false} AllSafeRevealedIffNoneLeft(g: seq<Cell>)
    ensures AllSafeRevealed(g) <==> SafeHiddenCount(g) == 0
    decreases |g|
  {
    if g != [] {
      var n := |g| - 1;
      AllSafeRevealedIffNoneLeft(g[..n]);
      assert AllSafeRevealed(g) <==> AllSafeRevealed(g[..n]) && (!g[n].hasMine ==> g[n].isRevealed) by {
        assert forall k :: 0 <= k < n ==> g[..n][k] == g[k];
      }
    }
  }

  /** Every square (r, c) sits at its row-major position, knows its own
      coordinates and lists exactly its Moore neighbours. */
  ghost predicate Placed(rows: nat, cols: nat, g: seq<Cell>) {
    && |g| == rows * cols
    && forall r, c :: 0 <= r < rows && 0 <= c < cols ==>
         && g[Index(rows, cols, r, c)].row == r
         && g[Index(rows, cols, r, c)].col == c
         && g[Index(rows, cols, r, c)].neighbors == MooreNeighbors(rows, cols, r, c)
  }

  /** The layout `reset` builds: the squares are placed and linked and every
      cell counts its mined neighbours correctly. */
  ghost predicate Laid(rows: nat, cols: nat, g: seq<Cell>) {
    Placed(rows, cols, g) && Linked(g) && Counted(g)
  }

  /** No cell is revealed or flagged. */
  ghost predicate Untouched(g: seq<Cell>) {
    forall k :: 0 <= k < |g| ==> !g[k].isRevealed && !g[k].isFlagged
  }

  /** Play changes only the revealed and flagged marks, so the layout stays. */
  lemma LaidKept(rows: nat, cols: nat, g: seq<Cell>, g': seq<Cell>)
    requires Laid(rows, cols, g) && SameLayout(g, g')
    ensures Laid(rows, cols, g')
  {
    SameLayoutLinked(g, g');
    MineCountSameMines(g, g');
    forall k | 0 <= k < |g'|
      ensures g'[k].adjacentMines == MinedCount(g', g'[k].neighbors)
    {
      assert g'[k] == g[k].(isRevealed := g'[k].isRevealed, isFlagged := g'[k].isFlagged);
      MinedCountSameMines(g, g', g[k].neighbors);
    }
    forall r, c | 0 <= r < rows && 0 <= c < cols
      ensures g'[Index(rows, cols, r, c)].neighbors == MooreNeighbors(rows, cols, r, c)
    {
      var k := Index(rows, cols, r, c);
      assert g'[k] == g[k].(isRevealed := g'[k].isRevealed, isFlagged := g'[k].isFlagged);
    }
  }

  /** On the laid-out board a square's count is the number of mined squares
      around it: at most 8, and 0 exactly when no adjacent on-board square
      holds a mine. */
  lemma CountIsMinedAdjacent(rows: nat, cols: nat, g: seq<Cell>, r: nat, c: nat)
    requires Laid(rows, cols, g) && r < rows && c < cols
    ensures g[Index(rows, cols, r, c)].adjacentMines == MinedCount(g, MooreNeighbors(rows, cols, r, c))
    ensures g[Index(rows, cols, r, c)].adjacentMines <= 8
    ensures g[Index(rows, cols, r, c)].adjacentMines == 0 <==>
              forall r2: nat, c2: nat :: r2 < rows && c2 < cols && Adjacent(r, c, r2, c2) ==> !g[Index(rows, cols, r2, c2)].hasMine
  {
    var nbrs := MooreNeighbors(rows, cols, r, c);
    MooreNeighborsLength(rows, cols, r, c);
    MulMonotone(Span(rows, r), 3, Span(cols, c));
    MulMonotone(Span(cols, c), 3, 3);
    assert Span(rows, r) * Span(cols, c) <= 9;
    forall r2: nat, c2: nat | r2 < rows && c2 < cols && Adjacent(r, c, r2, c2)
      ensures exists m :: 0 <= m < |nbrs| && nbrs[m] == Index(rows, cols, r2, c2)
    {
      MooreNeighborsExactly(rows, cols, r, c, r2, c2);
    }
    forall m | 0 <= m < |nbrs|
      ensures exists r2: nat, c2: nat :: r2 < rows && c2 < cols && Index(rows, cols, r2, c2) == nbrs[m] && Adjacent(r, c, r2, c2)
    {
      MooreNeighborsOnBoard(rows, cols, r, c, nbrs[m]);
    }
  }

  /** The state of a square as the constructor of a cell leaves it, apart from its position. */
  predicate IsBlank(c: Cell) {
    !c.hasMine && !c.isRevealed && !c.isFlagged && c.adjacentMines == 0 && c.neighbors == []
  }

  /** A board of new cells holds no mine. */
  lemma {:induction false} MineCountZero(g: seq<Cell>)
    requires forall k :: 0 <= k < |g| ==> IsBlank(g[k])
    ensures MineCount(g) == 0
    decreases |g|
  {
    if g != [] {
      MineCountZero(g[..|g| - 1]);
    }
  }

  /** The squares at positions below `n` hold their new cells. */
  ghost predicate FilledUpTo(rows: nat, cols: nat, g: seq<Cell>, n: nat) {
    && |g| == rows * cols
    && (forall k :: 0 <= k < n && k < |g| ==> IsBlank(g[k]))
    && forall r, c :: 0 <= r < rows && 0 <= c < cols && Index(rows, cols, r, c) < n ==>
         g[Index(rows, cols, r, c)] == NewCell(r, c)
  }

  /** The grid `reset` allocates: square (r, c) holds `new Cell(r, c)`. */
  method NewGrid(rows: nat, cols: nat) returns (g: array<Cell>)
    ensures fresh(g) && FilledUpTo(rows, cols, g[..], rows * cols)
  {
    g := new Cell[rows * cols];
    for r := 0 to rows
      invariant r * cols <= rows * cols
      invariant FilledUpTo(rows, cols, g[..], r * cols)
    {
      FillRow(g, rows, cols, r);
      RowStartBound(rows, cols, r + 1);
    }
  }

  /** One turn of the outer allocation loop of `reset`: fills row `r`. */
  method FillRow(g: array<Cell>, rows: nat, cols: nat, r: nat)
    requires r < rows && FilledUpTo(rows, cols, g[..], r * cols)
    modifies g
    ensures FilledUpTo(rows, cols, g[..], (r + 1) * cols)
  {
    for c := 0 to cols
      invariant FilledUpTo(rows, cols, g[..], r * cols + c)
    {
      var i := Index(rows, cols, r, c);
      ghost var before := g[..];
      g[i] := NewCell(r, c);
      FilledStep(rows, cols, before, g[..], r, c);
    }
    assert r * cols + cols == (r + 1) * cols;
  }

  lemma FilledStep(rows: nat, cols: nat, g: seq<Cell>, g': seq<Cell>, r: nat, c: nat)
    requires r < rows && c < cols && FilledUpTo(rows, cols, g, Index(rows, cols, r, c))
    requires g' == g[Index(rows, cols, r, c) := NewCell(r, c)]
    ensures FilledUpTo(rows, cols, g', Index(rows, cols, r, c) + 1)
  {
    forall r2, c2 | 0 <= r2 < rows && 0 <= c2 < cols && Index(rows, cols, r2, c2) == Index(rows, cols, r, c)
      ensures r2 == r && c2 == c
    {
      IndexInjective(rows, cols, r2, c2, r, c);
    }
  }

  class World {
    var rows: nat
    var cols: nat
    var mines: int
    var grid: array<Cell>
    var gameOver: bool
    var totalMines: int
    var safeTilesLeft: int

    /** The grid has one cell per square and its neighbour indices stay inside it. */
    ghost predicate Valid()
      reads this, grid
    {
      grid.Length == rows * cols && Linked(grid[..])
    }

    /** The state right after `reset`: the layout is built, exactly `mines`
        cells are mined (none if `mines` is negative), nothing is revealed or
        flagged, the game is not over and the totals are set. */
    ghost predicate Started()
      reads this, grid
    {
      && Valid()
      && Laid(rows, cols, grid[..])
      && Untouched(grid[..])
      && MineCount(grid[..]) == (if mines < 0 then 0 else mines)
      && !gameOver
      && totalMines == mines
      && safeTilesLeft == rows * cols - mines
    }

    /** `new MinesweeperWorld(rows, cols, mines, null)`: records the
        dimensions and builds a fresh board. */
    constructor (rows: nat, cols: nat, mines: int)
      requires mines <= rows * cols
      ensures this.rows == rows && this.cols == cols && this.mines == mines
      ensures fresh(grid) && Started()
      ensures 0 <= mines ==> safeTilesLeft == SafeHiddenCount(grid[..])
    {
      this.rows := rows;
      this.cols := cols;
      this.mines := mines;
      grid := new Cell[0];
      new;
      Reset();
    }

    /** `reset()`: allocates a fresh grid of new cells, clears `gameOver`,
        places the mines, links the neighbours, counts the adjacent mines and
        sets the totals. */
    method Reset()
      requires mines <= rows * cols
      modifies this
      ensures rows == old(rows) && cols == old(cols) && mines == old(mines)
      ensures fresh(grid) && Started()
      ensures 0 <= mines ==> safeTilesLeft == SafeHiddenCount(grid[..])
    {
      grid := NewGrid(rows, cols);
      gameOver := false;
      Populate();
      totalMines := mines;
      safeTilesLeft := rows * cols - mines;
    }

    /** The rest of `reset` on the fresh grid: `placeMines`, `linkNeighbors`
        and `countMines`, in that order. */
    method Populate()
      requires mines <= rows * cols && FilledUpTo(rows, cols, grid[..], rows * cols)
      modifies grid
      ensures Valid() && Laid(rows, cols, grid[..]) && Untouched(grid[..])
      ensures MineCount(grid[..]) == (if mines < 0 then 0 else mines)
      ensures 0 <= mines ==> SafeHiddenCount(grid[..]) == rows * cols - mines
    {
      ghost var g0 := grid[..];
      assert Linked(g0) by {
        assert forall k :: 0 <= k < |g0| ==> g0[k].neighbors == [];
      }
      MineCountZero(g0);
      PlaceMines();
      ghost var g1 := grid[..];
      FreshBoardMined(rows, cols, g0, g1);
      LinkNeighbors();
      ghost var g2 := grid[..];
      LinkedBoard(rows, cols, g1, g2);
      MineCountSameMines(g1, g2);
      CountMines();
      CountedBoard(rows, cols, g2, grid[..]);
      SafeHiddenWhenNoneRevealed(grid[..]);
    }

    /** `placeMines()`: mines one more unmined square per turn until `mines`
        have been placed. Each turn stands for the random draws of the
        source up to the first one that lands on an unmined square; the
        square is chosen nondeterministically. The loop ends only if there
        are enough unmined squares. */
    method PlaceMines()
      requires Valid()
      requires MineCount(grid[..]) + mines <= rows * cols
      modifies grid
      ensures Valid()
      ensures MineCount(grid[..]) == old(MineCount(grid[..])) + (if mines < 0 then 0 else mines)
      ensures MinesOnly(old(grid[..]), grid[..])
    {
      var placed := 0;
      ghost var g0 := grid[..];
      while placed < mines
        invariant 0 <= placed <= (if mines < 0 then 0 else mines)
        invariant Valid()
        invariant MineCount(grid[..]) == MineCount(g0) + placed
        invariant MinesOnly(g0, grid[..])
        decreases mines - placed
      {
        ghost var g := grid[..];
        ghost var fr, fc := UnminedSquare(rows, cols, g);
        var r: nat, c: nat :| r < rows && c < cols && !grid[Index(rows, cols, r, c)].hasMine;
        var i := Index(rows, cols, r, c);
        MineCountPlace(g, i);
        grid[i] := grid[i].(hasMine := true);
        assert grid[..] == g[i := g[i].(hasMine := true)];
        MinesOnlyStep(g0, g, i);
        placed := placed + 1;
      }
    }

    /** `linkNeighbors()`: appends to every square's list its on-board Moore
        neighbours, row offset first, then column offset. */
    method LinkNeighbors()
      requires Valid()
      modifies grid
      ensures Valid()
      ensures NeighborsOnly(old(grid[..]), grid[..])
      ensures forall r, c :: 0 <= r < rows && 0 <= c < cols ==>
                grid[Index(rows, cols, r, c)].neighbors == old(grid[Index(rows, cols, r, c)].neighbors) + MooreNeighbors(rows, cols, r, c)
    {
      ghost var g0 := grid[..];
      for r := 0 to rows
        invariant Valid()
        invariant r * cols <= rows * cols
        invariant LinkedUpTo(rows, cols, g0, grid[..], r * cols)
      {
        LinkRow(r, g0);
        RowStartBound(rows, cols, r + 1);
      }
      LinkedUpToAll(rows, cols, g0, grid[..]);
    }

    /** One turn of the outer loop of `linkNeighbors`: links every square of row `r`. */
    method LinkRow(r: nat, ghost g0: seq<Cell>)
      requires Valid() && r < rows
      requires LinkedUpTo(rows, cols, g0, grid[..], r * cols)
      modifies grid
      ensures Valid()
      ensures LinkedUpTo(rows, cols, g0, grid[..], (r + 1) * cols)
    {
      for c := 0 to cols
        invariant Valid()
        invariant LinkedUpTo(rows, cols, g0, grid[..], r * cols + c)
      {
        ghost var g := grid[..];
        LinkCell(r, c);
        LinkedUpToStep(rows, cols, g0, g, grid[..], r, c);
      }
      assert r * cols + cols == (r + 1) * cols;
    }

    /** The body of `linkNeighbors` for one square (r, c): the loops over the
        row offset and the column offset. */
    method LinkCell(r: nat, c: nat)
      requires Valid() && r < rows && c < cols
      modifies grid
      ensures Valid()
      ensures var i := Index(rows, cols, r, c);
              OnlyNeighborsOf(old(grid[..]), grid[..], i, old(grid[i].neighbors) + MooreNeighbors(rows, cols, r, c))
    {
      var i := Index(rows, cols, r, c);
      ghost var g0 := grid[..];
      ghost var before := grid[i].neighbors;
      assert before + Offsets(rows, cols, r, c, 0) == before;
      for dr := -1 to 2
        invariant Valid()
        invariant OnlyNeighborsOf(g0, grid[..], i, before + Offsets(rows, cols, r, c, dr + 1))
      {
        ghost var start := before + Offsets(rows, cols, r, c, dr + 1);
        assert start + RowOffsets(rows, cols, r, c, dr, 0) == start;
        for dc := -1 to 2
          invariant Valid()
          invariant OnlyNeighborsOf(g0, grid[..], i, start + RowOffsets(rows, cols, r, c, dr, dc + 1))
        {
          assert start + RowOffsets(rows, cols, r, c, dr, dc + 2) ==
                 start + RowOffsets(rows, cols, r, c, dr, dc + 1) + Offset(rows, cols, r, c, dr, dc);
          LinkOffset(r, c, dr, dc);
        }
        assert start + RowOffsets(rows, cols, r, c, dr, 3) == before + Offsets(rows, cols, r, c, dr + 2);
      }
    }

    /** One turn of the inner loop of `linkNeighbors`: links the square at
        offset (dr, dc) if that offset is not (0, 0) and lands on the board. */
    method LinkOffset(r: nat, c: nat, dr: int, dc: int)
      requires Valid() && r < rows && c < cols
      modifies grid
      ensures Valid()
      ensures var i := Index(rows, cols, r, c);
              grid[..] == old(grid[..])[i := old(grid[i]).(neighbors := old(grid[i].neighbors) + Offset(rows, cols, r, c, dr, dc))]
    {
      var i := Index(rows, cols, r, c);
      var nr := r + dr;
      var nc := c + dc;
      if (dr != 0 || dc != 0) && nr >= 0 && nr < rows && nc >= 0 && nc < cols {
        var j := Index(rows, cols, nr, nc);
        LinkedAppend(grid[..], i, j);
        AddNeighbor(grid, i, j);
      } else {
        assert old(grid[i].neighbors) + [] == old(grid[i].neighbors);
      }
    }

    /** `countMines()`: every square counts its mined neighbours. */
    method CountMines()
      requires Valid()
      modifies grid
      ensures Valid()
      ensures forall k :: 0 <= k < grid.Length ==>
                grid[k] == old(grid[k]).(adjacentMines := MinedCount(old(grid[..]), old(grid[k].neighbors)))
    {
      for r := 0 to rows
        invariant r * cols <= rows * cols
        invariant SameLayoutExceptCounts(old(grid[..]), grid[..])
        invariant forall k :: 0 <= k < r * cols ==>
                    grid[k] == old(grid[k]).(adjacentMines := MinedCount(old(grid[..]), old(grid[k].neighbors)))
        invariant forall k :: r * cols <= k < grid.Length ==> grid[k] == old(grid[k])
      {
        for c := 0 to cols
          invariant r * cols + c <= rows * cols
          invariant SameLayoutExceptCounts(old(grid[..]), grid[..])
          invariant forall k :: 0 <= k < r * cols + c ==>
                      grid[k] == old(grid[k]).(adjacentMines := MinedCount(old(grid[..]), old(grid[k].neighbors)))
          invariant forall k :: r * cols + c <= k < grid.Length ==> grid[k] == old(grid[k])
        {
          var i := Index(rows, cols, r, c);
          ghost var g := grid[..];
          CountsLinked(old(grid[..]), g);
          MinedCountSameMines(old(grid[..]), g, g[i].neighbors);
          CountAdjacentMines(grid, i);
        }
        RowStartBound(rows, cols, r + 1);
      }
      CountsLinked(old(grid[..]), grid[..]);
    }

    /** `countRemainingSafeTiles()`: the number of unmined, unrevealed cells. */
    method CountRemainingSafeTiles() returns (count: int)
      requires Valid()
      ensures count == SafeHiddenCount(grid[..])
    {
      count := 0;
      for r := 0 to rows
        invariant r * cols <= grid.Length
        invariant count == SafeHiddenCount(grid[..r * cols])
      {
        for c := 0 to cols
          invariant r * cols + c <= grid.Length
          invariant count == SafeHiddenCount(grid[..r * cols + c])
        {
          var k := Index(rows, cols, r, c);
          var cell := grid[k];
          assert grid[..k + 1][..k] == grid[..k];
          if !cell.hasMine && !cell.isRevealed {
            count := count + 1;
          }
        }
        RowStartBound(rows, cols, r + 1);
      }
      assert grid[..rows * cols] == grid[..];
    }

    /** `checkWin()`: ends the game when every unmined cell is revealed and
        otherwise changes nothing; it never clears `gameOver`. */
    method CheckWin()
      requires Valid()
      modifies this`gameOver
      ensures gameOver == (old(gameOver) || AllSafeRevealed(grid[..]))
    {
      for r := 0 to rows
        invariant r * cols <= grid.Length
        invariant gameOver == old(gameOver)
        invariant forall k :: 0 <= k < r * cols && !grid[k].hasMine ==> grid[k].isRevealed
      {
        for c := 0 to cols
          invariant r * cols + c <= grid.Length
          invariant gameOver == old(gameOver)
          invariant forall k :: 0 <= k < r * cols + c && !grid[k].hasMine ==> grid[k].isRevealed
        {
          var k := Index(rows, cols, r, c);
          if !grid[k].hasMine && !grid[k].isRevealed {
            assert !AllSafeRevealed(grid[..]) by {
              assert grid[..][k] == grid[k];
            }
            return;
          }
        }
        RowStartBound(rows, cols, r + 1);
      }
      gameOver := true;
    }
  }

  /** Only the mine marks differ, and no mine is removed. */
  ghost predicate MinesOnly(g: seq<Cell>, g': seq<Cell>) {
    && |g'| == |g|
    && forall k :: 0 <= k < |g| ==> g'[k] == g[k].(hasMine := g'[k].hasMine) && (g[k].hasMine ==> g'[k].hasMine)
  }

  lemma MinesOnlyStep(g0: seq<Cell>, g: seq<Cell>, i: nat)
    requires MinesOnly(g0, g) && i < |g|
    ensures MinesOnly(g0, g[i := g[i].(hasMine := true)])
  {
  }

  /** Cell `i` alone differs, and only in its neighbour list, which is `nbrs`. */
  ghost predicate OnlyNeighborsOf(g: seq<Cell>, g': seq<Cell>, i: nat, nbrs: seq<nat>) {
    && |g'| == |g| && i < |g|
    && g'[i] == g[i].(neighbors := nbrs)
    && forall k :: 0 <= k < |g| && k != i ==> g'[k] == g[k]
  }

  /** `linkNeighbors` has linked the squares at positions below `n` and not
      yet touched the others. */
  ghost predicate LinkedUpTo(rows: nat, cols: nat, g0: seq<Cell>, g: seq<Cell>, n: nat) {
    && |g0| == rows * cols
    && NeighborsOnly(g0, g)
    && (forall k :: n <= k < |g| ==> g[k] == g0[k])
    && forall r, c :: 0 <= r < rows && 0 <= c < cols && Index(rows, cols, r, c) < n ==>
         g[Index(rows, cols, r, c)].neighbors == g0[Index(rows, cols, r, c)].neighbors + MooreNeighbors(rows, cols, r, c)
  }

  lemma LinkedUpToAll(rows: nat, cols: nat, g0: seq<Cell>, g: seq<Cell>)
    requires LinkedUpTo(rows, cols, g0, g, rows * cols)
    ensures NeighborsOnly(g0, g)
    ensures forall r, c :: 0 <= r < rows && 0 <= c < cols ==>
              g[Index(rows, cols, r, c)].neighbors == g0[Index(rows, cols, r, c)].neighbors + MooreNeighbors(rows, cols, r, c)
  {
  }

  lemma LinkedUpToStep(rows: nat, cols: nat, g0: seq<Cell>, g: seq<Cell>, g': seq<Cell>, r: nat, c: nat)
    requires r < rows && c < cols
    requires LinkedUpTo(rows, cols, g0, g, Index(rows, cols, r, c))
    requires var i := Index(rows, cols, r, c);
             OnlyNeighborsOf(g, g', i, g[i].neighbors + MooreNeighbors(rows, cols, r, c))
    ensures LinkedUpTo(rows, cols, g0, g', Index(rows, cols, r, c) + 1)
  {
    var i := Index(rows, cols, r, c);
    assert g[i] == g0[i];
    forall k | 0 <= k < |g0|
      ensures g'[k] == g0[k].(neighbors := g'[k].neighbors)
    {
      if k != i {
        assert g'[k] == g[k];
        assert g[k] == g0[k].(neighbors := g[k].neighbors);
      }
    }
    forall r2, c2 | 0 <= r2 < rows && 0 <= c2 < cols && Index(rows, cols, r2, c2) == i
      ensures r2 == r && c2 == c
    {
      IndexInjective(rows, cols, r2, c2, r, c);
    }
  }

  /** Only the neighbour lists differ between the two states. */
  ghost predicate NeighborsOnly(g: seq<Cell>, g': seq<Cell>) {
    && |g'| == |g|
    && forall k :: 0 <= k < |g| ==> g'[k] == g[k].(neighbors := g'[k].neighbors)
  }

  /** While fewer cells are mined than there are squares, some square is unmined. */
  lemma UnminedSquare(rows: nat, cols: nat, g: seq<Cell>) returns (r: nat, c: nat)
    requires |g| == rows * cols && MineCount(g) < |g|
    ensures r < rows && c < cols && !g[Index(rows, cols, r, c)].hasMine
  {
    var k := UnminedCell(g);
    RowBelow(rows, cols, k);
    r, c := k / cols, k % cols;
  }

  /** The fresh board after `placeMines`: each square holds its own new cell,
      mined or not, and nothing is revealed or flagged. */
  lemma FreshBoardMined(rows: nat, cols: nat, g0: seq<Cell>, g1: seq<Cell>)
    requires FilledUpTo(rows, cols, g0, rows * cols) && MinesOnly(g0, g1)
    ensures Untouched(g1)
    ensures forall r, c :: 0 <= r < rows && 0 <= c < cols ==>
              g1[Index(rows, cols, r, c)].row == r && g1[Index(rows, cols, r, c)].col == c &&
              g1[Index(rows, cols, r, c)].neighbors == []
  {
    forall r, c | 0 <= r < rows && 0 <= c < cols
      ensures g1[Index(rows, cols, r, c)].row == r && g1[Index(rows, cols, r, c)].col == c &&
              g1[Index(rows, cols, r, c)].neighbors == []
    {
      var k := Index(rows, cols, r, c);
      assert g1[k] == g0[k].(hasMine := g1[k].hasMine);
    }
  }

  /** The board after `linkNeighbors`: every square is placed and lists its
      Moore neighbours, the mines are where they were. */
  lemma LinkedBoard(rows: nat, cols: nat, g1: seq<Cell>, g2: seq<Cell>)
    requires |g1| == rows * cols && Untouched(g1)
    requires forall r, c :: 0 <= r < rows && 0 <= c < cols ==>
               g1[Index(rows, cols, r, c)].row == r && g1[Index(rows, cols, r, c)].col == c &&
               g1[Index(rows, cols, r, c)].neighbors == []
    requires NeighborsOnly(g1, g2)
    requires forall r, c :: 0 <= r < rows && 0 <= c < cols ==>
               g2[Index(rows, cols, r, c)].neighbors == g1[Index(rows, cols, r, c)].neighbors + MooreNeighbors(rows, cols, r, c)
    ensures Placed(rows, cols, g2) && Untouched(g2)
    ensures forall k :: 0 <= k < |g2| ==> g2[k].hasMine == g1[k].hasMine
  {
    forall k | 0 <= k < |g2|
      ensures g2[k].hasMine == g1[k].hasMine && !g2[k].isRevealed && !g2[k].isFlagged
    {
      assert g2[k] == g1[k].(neighbors := g2[k].neighbors);
    }
    forall r, c | 0 <= r < rows && 0 <= c < cols
      ensures g2[Index(rows, cols, r, c)].row == r && g2[Index(rows, cols, r, c)].col == c
      ensures g2[Index(rows, cols, r, c)].neighbors == MooreNeighbors(rows, cols, r, c)
    {
      var k := Index(rows, cols, r, c);
      assert g2[k] == g1[k].(neighbors := g2[k].neighbors);
      assert [] + MooreNeighbors(rows, cols, r, c) == MooreNeighbors(rows, cols, r, c);
    }
  }

  /** The board after `countMines`: laid out, still untouched, same mines. */
  lemma CountedBoard(rows: nat, cols: nat, g2: seq<Cell>, g: seq<Cell>)
    requires Placed(rows, cols, g2) && Linked(g2) && Untouched(g2)
    requires |g| == |g2|
    requires forall k :: 0 <= k < |g2| ==> g[k] == g2[k].(adjacentMines := MinedCount(g2, g2[k].neighbors))
    ensures Laid(rows, cols, g) && Untouched(g) && MineCount(g) == MineCount(g2)
  {
    forall k | 0 <= k < |g|
      ensures g[k].hasMine == g2[k].hasMine && g[k].neighbors == g2[k].neighbors
    {
      assert g[k] == g2[k].(adjacentMines := g[k].adjacentMines);
    }
    MineCountSameMines(g2, g);
    forall k | 0 <= k < |g|
      ensures g[k].adjacentMines == MinedCount(g, g[k].neighbors)
    {
      MinedCountSameMines(g2, g, g2[k].neighbors);
    }
  }

  /** Only the cached counts differ between the two states. */
  ghost predicate SameLayoutExceptCounts(g: seq<Cell>, g': seq<Cell>) {
    && |g'| == |g|
    && forall k :: 0 <= k < |g| ==> g'[k] == g[k].(adjacentMines := g'[k].adjacentMines)
  }

  lemma CountsLinked(g: seq<Cell>, g': seq<Cell>)
    requires SameLayoutExceptCounts(g, g')
    ensures forall k :: 0 <= k < |g| ==> g'[k].hasMine == g[k].hasMine && g'[k].neighbors == g[k].neighbors
    ensures Linked(g) ==> Linked(g')
  {
    forall k | 0 <= k < |g|
      ensures g'[k].hasMine == g[k].hasMine && g'[k].neighbors == g[k].neighbors
    {
      assert g'[k] == g[k].(adjacentMines := g'[k].adjacentMines);
    }
  }

  /** Cell `k` of the array lies in row `k / cols`, column `k % cols`. */
  lemma RowBelow(rows: nat, cols: nat, k: nat)
    requires k < rows * cols
    ensures cols > 0 && k / cols < rows && k == (k / cols) * cols + k % cols
  {
    MulLessCancel(0, cols, rows);
    assert cols > 0;
    var q := k / cols;
    assert q * cols <= k;
    MulLessCancel(q, rows, cols);
  }

  /** A product with a larger value has the larger factor. */
  lemma MulLessCancel(a: nat, b: nat, n: nat)
    ensures a * n < b * n ==> a < b
    ensures n * a < n * b ==> a < b
  {
    if b <= a {
      MulMonotone(b, a, n);
      assert n * b == b * n && n * a == a * n;
    }
  }
}
