/** One square of a Minesweeper board and the flood-fill reveal rule.

    The board stores its cells in one flat array (an arena); a cell names
    its neighbours by their indices in that array, so the cyclic neighbour
    graph needs no object references. A method that updates a cell takes
    the arena and the cell's index. */
module Cells {

  /** The state of one square: its fixed position, the three flags, the
      cached number of mined neighbours and the neighbour list. */
  datatype Cell = Cell(
    row: int,
    col: int,
    hasMine: bool,
    isRevealed: bool,
    isFlagged: bool,
    adjacentMines: int,
    neighbors: seq<nat>)

  /** A freshly created cell: no mine, hidden, unflagged, count 0, no neighbours. */
  function NewCell(row: int, col: int): (c: Cell)
    ensures c.row == row && c.col == col
    ensures !c.hasMine && !c.isRevealed && !c.isFlagged
    ensures c.adjacentMines == 0 && c.neighbors == []
  {
    Cell(row, col, false, false, false, 0, [])
  }

  /** A revealed cell of this kind cascades to its neighbours. */
  predicate IsZero(c: Cell) {
    c.adjacentMines == 0 && !c.hasMine
  }

  /** `reveal` acts on a cell of this kind; on any other it returns at once. */
  predicate IsOpen(c: Cell) {
    !c.isRevealed && !c.isFlagged
  }

  /** Every neighbour index names a cell of the arena. */
  ghost predicate Linked(g: seq<Cell>) {
    forall k, m :: 0 <= k < |g| && 0 <= m < |g[k].neighbors| ==> g[k].neighbors[m] < |g|
  }

  /** The board layout (position, mine, count, neighbours) is the same in both states. */
  ghost predicate SameLayout(g: seq<Cell>, g': seq<Cell>) {
    && |g'| == |g|
    && forall k :: 0 <= k < |g| ==>
         g'[k] == g[k].(isRevealed := g'[k].isRevealed, isFlagged := g'[k].isFlagged)
  }

  lemma SameLayoutLinked(g: seq<Cell>, g': seq<Cell>)
    requires SameLayout(g, g') && Linked(g)
    ensures Linked(g')
  {
    forall k, m | 0 <= k < |g'| && 0 <= m < |g'[k].neighbors|
      ensures g'[k].neighbors[m] < |g'|
    {
      assert g'[k].neighbors == g[k].neighbors;
    }
  }

  /** `cell.addNeighbor(other)`: appends one entry at the end of the cell's
      list (a duplicate is appended like any other) and changes nothing else. */
  method AddNeighbor(grid: array<Cell>, i: nat, j: nat)
    requires i < grid.Length && j < grid.Length
    modifies grid
    ensures grid[..] == old(grid[..])[i := old(grid[i]).(neighbors := old(grid[i].neighbors) + [j])]
  {
    grid[i] := grid[i].(neighbors := grid[i].neighbors + [j]);
  }

  /** The number of entries of `nbrs` that name a mined cell; an index listed
      twice is counted twice. */
  function MinedCount(g: seq<Cell>, nbrs: seq<nat>): (n: nat)
    requires forall m :: 0 <= m < |nbrs| ==> nbrs[m] < |g|
    ensures n <= |nbrs|
    ensures n == 0 <==> forall m :: 0 <= m < |nbrs| ==> !g[nbrs[m]].hasMine
    ensures n == |nbrs| <==> forall m :: 0 <= m < |nbrs| ==> g[nbrs[m]].hasMine
  {
    if nbrs == [] then 0
    else
      var last := nbrs[|nbrs| - 1];
      MinedCount(g, nbrs[..|nbrs| - 1]) + (if g[last].hasMine then 1 else 0)
  }

  /** Appending an entry adds one to the count exactly when it names a mined
      cell, so duplicate entries are counted once per occurrence. */
  lemma MinedCountAppend(g: seq<Cell>, nbrs: seq<nat>, j: nat)
    requires forall m :: 0 <= m < |nbrs| ==> nbrs[m] < |g|
    requires j < |g|
    ensures MinedCount(g, nbrs + [j]) == MinedCount(g, nbrs) + (if g[j].hasMine then 1 else 0)
  {
    assert (nbrs + [j])[..|nbrs|] == nbrs;
  }

  /** The count depends only on which cells hold mines. */
  lemma {:induction false} MinedCountSameMines(g: seq<Cell>, g': seq<Cell>, nbrs: seq<nat>)
    requires |g'| == |g|
    requires forall k :: 0 <= k < |g| ==> g'[k].hasMine == g[k].hasMine
    requires forall m :: 0 <= m < |nbrs| ==> nbrs[m] < |g|
    ensures MinedCount(g', nbrs) == MinedCount(g, nbrs)
    decreases |nbrs|
  {
    if nbrs != [] {
      MinedCountSameMines(g, g', nbrs[..|nbrs| - 1]);
    }
  }

  /** Appending a valid index to one cell's list keeps every index valid. */
  lemma LinkedAppend(g: seq<Cell>, i: nat, j: nat)
    requires Linked(g) && i < |g| && j < |g|
    ensures Linked(g[i := g[i].(neighbors := g[i].neighbors + [j])])
  {
    var g' := g[i := g[i].(neighbors := g[i].neighbors + [j])];
    forall k, m | 0 <= k < |g'| && 0 <= m < |g'[k].neighbors|
      ensures g'[k].neighbors[m] < |g'|
    {
      if k != i || m < |g[i].neighbors| {
        assert g'[k].neighbors[m] == g[k].neighbors[m];
      }
    }
  }

  /** Every cell's cached count is the number of its mined neighbour entries. */
  ghost predicate Counted(g: seq<Cell>)
    requires Linked(g)
  {
    forall k :: 0 <= k < |g| ==> g[k].adjacentMines == MinedCount(g, g[k].neighbors)
  }

  /** `cell.countAdjacentMines()`: stores in the cell the number of its
      neighbour entries that name a mined cell. */
  method CountAdjacentMines(grid: array<Cell>, i: nat)
    requires i < grid.Length && Linked(grid[..])
    modifies grid
    ensures grid[..] == old(grid[..])[i := old(grid[i]).(adjacentMines := MinedCount(old(grid[..]), old(grid[i].neighbors)))]
  {
    var nbrs := grid[i].neighbors;
    assert forall m :: 0 <= m < |nbrs| ==> nbrs[m] < grid.Length by {
      assert nbrs == grid[..][i].neighbors;
    }
    var count := 0;
    for m := 0 to |nbrs|
      invariant count == MinedCount(grid[..], nbrs[..m])
    {
      assert nbrs[..m + 1][..m] == nbrs[..m];
      if grid[nbrs[m]].hasMine {
        count := count + 1;
      }
    }
    assert nbrs[..|nbrs|] == nbrs;
    grid[i] := grid[i].(adjacentMines := count);
  }

  // ---------------------------------------------------------------------
  // The flood fill
  // ---------------------------------------------------------------------

  /** `p` is a chain of hidden, unflagged cells, each after the first a
      neighbour of the one before, and every cell but the last one cascades. */
  ghost predicate IsPath(g: seq<Cell>, p: seq<nat>) {
    && |p| > 0
    && (forall m :: 0 <= m < |p| ==> p[m] < |g| && IsOpen(g[p[m]]))
    && (forall m :: 0 <= m < |p| - 1 ==> IsZero(g[p[m]]) && p[m + 1] in g[p[m]].neighbors)
  }

  /** Revealing cell `i` in state `g` uncovers cell `k`. */
  ghost predicate Reachable(g: seq<Cell>, i: nat, k: nat) {
    exists p :: IsPath(g, p) && p[0] == i && p[|p| - 1] == k
  }

  /** The state `reveal` of cell `i` leaves behind: exactly the cells
      reachable from `i` become revealed, and nothing else changes. */
  ghost function RevealSpec(g: seq<Cell>, i: nat): (g': seq<Cell>) {
    seq(|g|, k requires 0 <= k < |g| => if Reachable(g, i, k) then g[k].(isRevealed := true) else g[k])
  }

  /** From `g` to `g'` only `isRevealed` changes, only from false to true,
      and never on a flagged cell. */
  ghost predicate RevealsOnly(g: seq<Cell>, g': seq<Cell>) {
    && |g'| == |g|
    && forall k :: 0 <= k < |g| ==>
         && g'[k] == g[k].(isRevealed := g'[k].isRevealed)
         && (g[k].isRevealed ==> g'[k].isRevealed)
         && (g'[k].isRevealed && !g[k].isRevealed ==> !g[k].isFlagged)
  }

  /** No neighbour of cell `k` is left hidden unless it is flagged. */
  ghost predicate Settled(g: seq<Cell>, k: nat)
    requires k < |g|
  {
    forall n :: n in g[k].neighbors && n < |g| ==> g[n].isRevealed || g[n].isFlagged
  }

  /** Each cascading cell revealed on the way from `g` to `g'` is settled in `g'`. */
  ghost predicate CascadeClosed(g: seq<Cell>, g': seq<Cell>)
    requires |g'| == |g|
  {
    forall k :: 0 <= k < |g| && !g[k].isRevealed && g'[k].isRevealed && IsZero(g'[k]) ==> Settled(g', k)
  }

  /** The hidden cells; `reveal` recurses only after shrinking this set. */
  ghost function Hidden(g: seq<Cell>): (h: set<nat>) {
    set k: nat | k < |g| && !g[k].isRevealed
  }

  lemma RevealsOnlyTrans(g: seq<Cell>, g1: seq<Cell>, g2: seq<Cell>)
    requires RevealsOnly(g, g1) && RevealsOnly(g1, g2)
    ensures RevealsOnly(g, g2)
  {
    forall k | 0 <= k < |g|
      ensures g2[k] == g[k].(isRevealed := g2[k].isRevealed)
    {
      assert g1[k] == g[k].(isRevealed := g1[k].isRevealed);
      assert g2[k] == g1[k].(isRevealed := g2[k].isRevealed);
    }
  }

  lemma SettledKept(g: seq<Cell>, g': seq<Cell>, k: nat)
    requires RevealsOnly(g, g') && k < |g| && Settled(g, k)
    ensures Settled(g', k)
  {
    forall n | n in g'[k].neighbors && n < |g'|
      ensures g'[n].isRevealed || g'[n].isFlagged
    {
      assert g'[k].neighbors == g[k].neighbors;
      assert g'[n] == g[n].(isRevealed := g'[n].isRevealed);
    }
  }

  lemma HiddenShrinks(g: seq<Cell>, g': seq<Cell>, i: nat)
    requires RevealsOnly(g, g') && i < |g|
    requires !g[i].isRevealed && g'[i].isRevealed
    ensures Hidden(g') < Hidden(g)
  {
    assert i in Hidden(g) && i !in Hidden(g');
    forall k | k in Hidden(g') ensures k in Hidden(g) {
    }
  }

  /** A path in a later state of the same reveal is a path in the earlier
      one, and a path from a neighbour of a cascading open cell extends to a
      path from that cell. */
  lemma ReachThrough(g0: seq<Cell>, gs: seq<Cell>, i: nat, n: nat, k: nat)
    requires RevealsOnly(g0, gs)
    requires i < |g0| && IsOpen(g0[i]) && IsZero(g0[i]) && n in g0[i].neighbors
    requires Reachable(gs, n, k)
    ensures Reachable(g0, i, k)
  {
    var p: seq<nat> :| IsPath(gs, p) && p[0] == n && p[|p| - 1] == k;
    var q := [i] + p;
    forall m | 0 <= m < |q|
      ensures q[m] < |g0| && IsOpen(g0[q[m]])
    {
      if m > 0 {
        assert q[m] == p[m - 1];
        assert gs[p[m - 1]] == g0[p[m - 1]].(isRevealed := gs[p[m - 1]].isRevealed);
      }
    }
    forall m | 0 <= m < |q| - 1
      ensures IsZero(g0[q[m]]) && q[m + 1] in g0[q[m]].neighbors
    {
      if m > 0 {
        assert q[m] == p[m - 1] && q[m + 1] == p[m];
        assert gs[p[m - 1]] == g0[p[m - 1]].(isRevealed := gs[p[m - 1]].isRevealed);
      }
    }
    assert IsPath(g0, q);
    assert q[0] == i && q[|q| - 1] == k;
  }

  /** What the reveal specification does: it reveals only, it leaves every
      cascading cell it opened settled, and afterwards the start cell is
      revealed unless it is flagged. */
  lemma RevealSpecFacts(g: seq<Cell>, i: nat)
    requires i < |g|
    ensures RevealsOnly(g, RevealSpec(g, i))
    ensures CascadeClosed(g, RevealSpec(g, i))
    ensures RevealSpec(g, i)[i].isRevealed || RevealSpec(g, i)[i].isFlagged
  {
    var g' := RevealSpec(g, i);
    forall k | 0 <= k < |g| && Reachable(g, i, k)
      ensures IsOpen(g[k])
    {
      var p: seq<nat> :| IsPath(g, p) && p[0] == i && p[|p| - 1] == k;
      assert IsOpen(g[p[|p| - 1]]);
    }
    forall k | 0 <= k < |g| && !g[k].isRevealed && g'[k].isRevealed && IsZero(g'[k])
      ensures Settled(g', k)
    {
      var p: seq<nat> :| IsPath(g, p) && p[0] == i && p[|p| - 1] == k;
      forall n | n in g'[k].neighbors && n < |g'|
        ensures g'[n].isRevealed || g'[n].isFlagged
      {
        if IsOpen(g[n]) {
          var q := p + [n];
          assert forall m :: 0 <= m < |p| ==> q[m] == p[m];
          assert IsPath(g, q);
          assert q[0] == i && q[|q| - 1] == n;
        }
      }
    }
    if IsOpen(g[i]) {
      assert IsPath(g, [i]);
      assert Reachable(g, i, i);
    }
  }

  /** The cells of a path from `i` are all revealed in any state that is
      settled the way the reveal of `i` leaves it. */
  lemma {:induction false} PathRevealed(g: seq<Cell>, g': seq<Cell>, i: nat, p: seq<nat>, m: nat)
    requires RevealsOnly(g, g') && i < |g|
    requires g'[i].isRevealed || g'[i].isFlagged
    requires CascadeClosed(g, g')
    requires IsPath(g, p) && p[0] == i && m < |p|
    ensures g'[p[m]].isRevealed
    decreases m
  {
    var k := p[m];
    assert g'[k] == g[k].(isRevealed := g'[k].isRevealed);
    if m > 0 {
      PathRevealed(g, g', i, p, m - 1);
      var j := p[m - 1];
      assert g'[j] == g[j].(isRevealed := g'[j].isRevealed);
      assert Settled(g', j);
    }
  }

  /** Soundness and completeness together pin the outcome down: a state that
      only reveals, leaves the start cell revealed or flagged, is settled,
      and reveals nothing unreachable is the reveal specification. */
  lemma RevealSpecUnique(g: seq<Cell>, g': seq<Cell>, i: nat)
    requires i < |g| && RevealsOnly(g, g')
    requires g'[i].isRevealed || g'[i].isFlagged
    requires CascadeClosed(g, g')
    requires forall k :: 0 <= k < |g| && !g[k].isRevealed && g'[k].isRevealed ==> Reachable(g, i, k)
    ensures g' == RevealSpec(g, i)
  {
    var s := RevealSpec(g, i);
    forall k | 0 <= k < |g|
      ensures g'[k] == s[k]
    {
      if Reachable(g, i, k) {
        var p: seq<nat> :| IsPath(g, p) && p[0] == i && p[|p| - 1] == k;
        PathRevealed(g, g', i, p, |p| - 1);
      }
    }
  }

  /** The invariant of the loop in `Reveal` over the neighbours `nbrs` of
      cell `i`, after the first `m` of them: revealing only, `i` revealed,
      those `m` neighbours settled, every other cascading cell revealed so
      far settled, and everything revealed so far reachable from `i`. */
  ghost predicate CascadeInProgress(g0: seq<Cell>, g: seq<Cell>, i: nat, nbrs: seq<nat>, m: nat) {
    && RevealsOnly(g0, g) && Linked(g) && i < |g| && m <= |nbrs|
    && g[i].isRevealed
    && (forall q :: 0 <= q < m ==> nbrs[q] < |g| && (g[nbrs[q]].isRevealed || g[nbrs[q]].isFlagged))
    && (forall k :: 0 <= k < |g| && k != i && !g0[k].isRevealed && g[k].isRevealed && IsZero(g[k]) ==> Settled(g, k))
    && (forall k :: 0 <= k < |g| && !g0[k].isRevealed && g[k].isRevealed ==> Reachable(g0, i, k))
  }

  lemma RevealsOnlyLinked(g: seq<Cell>, g': seq<Cell>)
    requires RevealsOnly(g, g') && Linked(g)
    ensures Linked(g')
  {
    forall k, m | 0 <= k < |g'| && 0 <= m < |g'[k].neighbors|
      ensures g'[k].neighbors[m] < |g'|
    {
      assert g'[k] == g[k].(isRevealed := g'[k].isRevealed);
    }
  }

  /** Marking the open cell `i` revealed starts the loop. */
  lemma CascadeStart(g0: seq<Cell>, i: nat)
    requires Linked(g0) && i < |g0| && IsOpen(g0[i])
    ensures CascadeInProgress(g0, g0[i := g0[i].(isRevealed := true)], i, g0[i].neighbors, 0)
  {
    var g1 := g0[i := g0[i].(isRevealed := true)];
    assert IsPath(g0, [i]);
    assert Reachable(g0, i, i);
    RevealsOnlyLinked(g0, g1);
  }

  /** One turn of the loop: the reveal of the next neighbour keeps the invariant. */
  lemma CascadeStep(g0: seq<Cell>, gs: seq<Cell>, i: nat, nbrs: seq<nat>, m: nat)
    requires i < |g0| && IsOpen(g0[i]) && IsZero(g0[i]) && nbrs == g0[i].neighbors && m < |nbrs|
    requires CascadeInProgress(g0, gs, i, nbrs, m)
    ensures nbrs[m] < |gs|
    ensures CascadeInProgress(g0, RevealSpec(gs, nbrs[m]), i, nbrs, m + 1)
  {
    assert gs[i] == g0[i].(isRevealed := gs[i].isRevealed);
    assert nbrs[m] in gs[i].neighbors;
    var n := nbrs[m];
    var ga := RevealSpec(gs, n);
    RevealSpecFacts(gs, n);
    RevealsOnlyTrans(g0, gs, ga);
    RevealsOnlyLinked(gs, ga);
    forall k | 0 <= k < |ga| && !g0[k].isRevealed && ga[k].isRevealed
      ensures Reachable(g0, i, k)
    {
      if !gs[k].isRevealed {
        assert Reachable(gs, n, k);
        ReachThrough(g0, gs, i, n, k);
      }
    }
    forall k | 0 <= k < |ga| && k != i && !g0[k].isRevealed && ga[k].isRevealed && IsZero(ga[k])
      ensures Settled(ga, k)
    {
      if gs[k].isRevealed {
        assert ga[k] == gs[k].(isRevealed := ga[k].isRevealed);
        SettledKept(gs, ga, k);
      }
    }
    forall q | 0 <= q < m + 1
      ensures nbrs[q] < |ga| && (ga[nbrs[q]].isRevealed || ga[nbrs[q]].isFlagged)
    {
      if q < m {
        assert ga[nbrs[q]] == gs[nbrs[q]].(isRevealed := ga[nbrs[q]].isRevealed);
      }
    }
  }

  /** The loop over all neighbours leaves the state the specification describes. */
  lemma CascadeEnd(g0: seq<Cell>, g: seq<Cell>, i: nat)
    requires i < |g0| && IsOpen(g0[i]) && IsZero(g0[i])
    requires CascadeInProgress(g0, g, i, g0[i].neighbors, |g0[i].neighbors|)
    ensures g == RevealSpec(g0, i)
  {
    assert g[i] == g0[i].(isRevealed := g[i].isRevealed);
    forall n | n in g[i].neighbors && n < |g|
      ensures g[n].isRevealed || g[n].isFlagged
    {
      var q :| 0 <= q < |g0[i].neighbors| && g0[i].neighbors[q] == n;
    }
    assert Settled(g, i);
    RevealSpecUnique(g0, g, i);
  }

  /** `cell.reveal()`: does nothing when the cell is revealed or flagged;
      otherwise reveals it and, when it has no mine and count 0, reveals
      every neighbour in list order. */
  method Reveal(grid: array<Cell>, i: nat)
    requires i < grid.Length && Linked(grid[..])
    modifies grid
    ensures grid[..] == RevealSpec(old(grid[..]), i)
    decreases Hidden(grid[..])
  {
    if grid[i].isRevealed || grid[i].isFlagged {
      RevealSpecUnique(grid[..], grid[..], i);
      return;
    }
    ghost var g0 := grid[..];
    CascadeStart(g0, i);
    grid[i] := grid[i].(isRevealed := true);
    if grid[i].adjacentMines == 0 && !grid[i].hasMine {
      var nbrs := grid[i].neighbors;
      for m := 0 to |nbrs|
        invariant CascadeInProgress(g0, grid[..], i, nbrs, m)
      {
        ghost var gs := grid[..];
        CascadeStep(g0, gs, i, nbrs, m);
        HiddenShrinks(g0, gs, i);
        Reveal(grid, nbrs[m]);
      }
      CascadeEnd(g0, grid[..], i);
    } else {
      RevealSpecUnique(g0, grid[..], i);
    }
  }

  // ---------------------------------------------------------------------
  // Properties of the reveal specification
  // ---------------------------------------------------------------------

  /** Revealing a cell that is already revealed or is flagged changes nothing. */
  lemma RevealClosedIsNoop(g: seq<Cell>, i: nat)
    requires i < |g| && !IsOpen(g[i])
    ensures RevealSpec(g, i) == g
  {
  }

  /** Revealing a hidden, unflagged cell leaves it revealed. */
  lemma RevealOpensStart(g: seq<Cell>, i: nat)
    requires i < |g| && IsOpen(g[i])
    ensures RevealSpec(g, i)[i] == g[i].(isRevealed := true)
  {
    assert IsPath(g, [i]);
  }

  /** A mined cell, or one with a positive count, does not cascade: only the
      cell itself becomes revealed. */
  lemma RevealNoCascade(g: seq<Cell>, i: nat)
    requires i < |g| && IsOpen(g[i]) && !IsZero(g[i])
    ensures RevealSpec(g, i) == g[i := g[i].(isRevealed := true)]
  {
    RevealOpensStart(g, i);
    forall p: seq<nat> | IsPath(g, p) && p[0] == i
      ensures |p| == 1
    {
      assert !IsZero(g[p[0]]);
    }
  }

  /** A cell with no mine and count 0 cascades: afterwards every neighbour
      that is not flagged is revealed. */
  lemma RevealCascades(g: seq<Cell>, i: nat)
    requires i < |g| && IsOpen(g[i]) && IsZero(g[i])
    ensures forall n :: n in g[i].neighbors && n < |g| && !g[n].isFlagged ==> RevealSpec(g, i)[n].isRevealed
  {
    forall n | n in g[i].neighbors && n < |g| && !g[n].isFlagged
      ensures RevealSpec(g, i)[n].isRevealed
    {
      if !g[n].isRevealed {
        assert IsPath(g, [i, n]);
      }
    }
  }

  /** Revealing the same cell again changes nothing. */
  lemma RevealIdempotent(g: seq<Cell>, i: nat)
    requires i < |g|
    ensures RevealSpec(RevealSpec(g, i), i) == RevealSpec(g, i)
  {
  }

  /** On a board whose counts are correct, revealing a cell without a mine
      never uncovers a mine: the cascade only passes through cells with no
      mined neighbour. */
  lemma SafeRevealFindsNoMine(g: seq<Cell>, i: nat)
    requires Linked(g) && Counted(g)
    requires i < |g| && !g[i].hasMine
    ensures forall k :: 0 <= k < |g| && RevealSpec(g, i)[k].isRevealed ==> g[k].isRevealed || !g[k].hasMine
  {
    forall k | 0 <= k < |g| && Reachable(g, i, k)
      ensures !g[k].hasMine
    {
      var p: seq<nat> :| IsPath(g, p) && p[0] == i && p[|p| - 1] == k;
      if |p| > 1 {
        var j := p[|p| - 2];
        assert IsZero(g[j]) && k in g[j].neighbors;
        assert MinedCount(g, g[j].neighbors) == 0;
      }
    }
  }

  /** Three new cells, the first listing the other two as neighbours and no
      mine anywhere: revealing the first uncovers all three. */
  lemma ThreeCellCascade()
    ensures var g := [NewCell(1, 1).(neighbors := [1, 2]), NewCell(1, 0), NewCell(0, 1)];
            forall k :: 0 <= k < 3 ==> RevealSpec(g, 0)[k].isRevealed
  {
    var g := [NewCell(1, 1).(neighbors := [1, 2]), NewCell(1, 0), NewCell(0, 1)];
    assert IsPath(g, [0]);
    assert IsPath(g, [0, 1]);
    assert IsPath(g, [0, 2]);
  }
}
