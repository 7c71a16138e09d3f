/** The board's geometry: the row-major position of a square in the flat
    cell array, and the in-bounds Moore neighbourhood that `linkNeighbors`
    enumerates (row offset first, then column offset, each from -1 to 1). */
module Geometry {

  /** The position of square (r, c) in a `rows` by `cols` board stored row by row. */
  function Index(rows: nat, cols: nat, r: nat, c: nat): (k: nat)
    requires r < rows && c < cols
    ensures k < rows * cols
  {
    RowStartBound(rows, cols, r + 1);
    r * cols + c
  }

  /** Row `r` starts inside the board. */
  lemma RowStartBound(rows: nat, cols: nat, r: nat)
    requires r <= rows
    ensures r * cols <= rows * cols
  {
    MulMonotone(r, rows, cols);
  }

  lemma {:induction false} MulMonotone(a: nat, b: nat, n: nat)
    requires a <= b
    ensures a * n <= b * n
    decreases b - a
  {
    if a < b {
      MulMonotone(a, b - 1, n);
      assert b * n == (b - 1) * n + n;
    }
  }

  /** Positions grow with the row: every square of an earlier row comes first. */
  lemma IndexMonotone(rows: nat, cols: nat, r1: nat, c1: nat, r2: nat, c2: nat)
    requires r1 < rows && c1 < cols && r2 < rows && c2 < cols
    ensures r1 < r2 ==> Index(rows, cols, r1, c1) < Index(rows, cols, r2, c2)
  {
    if r1 < r2 {
      MulMonotone(r1 + 1, r2, cols);
      assert (r1 + 1) * cols == r1 * cols + cols;
    }
  }

  /** Distinct squares have distinct positions. */
  lemma IndexInjective(rows: nat, cols: nat, r1: nat, c1: nat, r2: nat, c2: nat)
    requires r1 < rows && c1 < cols && r2 < rows && c2 < cols
    requires Index(rows, cols, r1, c1) == Index(rows, cols, r2, c2)
    ensures r1 == r2 && c1 == c2
  {
    IndexMonotone(rows, cols, r1, c1, r2, c2);
    IndexMonotone(rows, cols, r2, c2, r1, c1);
  }

  /** Square (r2, c2) touches square (r, c) horizontally, vertically or
      diagonally and is not the square itself. */
  predicate Adjacent(r: int, c: int, r2: int, c2: int) {
    && (r2 != r || c2 != c)
    && -1 <= r2 - r <= 1
    && -1 <= c2 - c <= 1
  }

  /** The neighbour at offset (dr, dc), if that offset is not (0, 0) and
      lands on the board; there is no wrap-around. */
  function Offset(rows: nat, cols: nat, r: int, c: int, dr: int, dc: int): (s: seq<nat>)
    ensures forall j :: j in s ==> j < rows * cols
  {
    if (dr != 0 || dc != 0) && 0 <= r + dr < rows && 0 <= c + dc < cols
    then [Index(rows, cols, r + dr, c + dc)]
    else []
  }

  /** The neighbours at offsets (dr, -1), ..., (dr, n - 2), in that order. */
  function RowOffsets(rows: nat, cols: nat, r: int, c: int, dr: int, n: nat): (s: seq<nat>)
    ensures forall j :: j in s ==> j < rows * cols
  {
    if n == 0 then []
    else RowOffsets(rows, cols, r, c, dr, n - 1) + Offset(rows, cols, r, c, dr, n - 2)
  }

  /** The neighbours in the first `n` row offsets -1, ..., n - 2, each with
      its three column offsets. */
  function Offsets(rows: nat, cols: nat, r: int, c: int, n: nat): (s: seq<nat>)
    ensures forall j :: j in s ==> j < rows * cols
  {
    if n == 0 then []
    else Offsets(rows, cols, r, c, n - 1) + RowOffsets(rows, cols, r, c, n - 2, 3)
  }

  /** The neighbour list `linkNeighbors` gives square (r, c). */
  function MooreNeighbors(rows: nat, cols: nat, r: int, c: int): (s: seq<nat>) {
    Offsets(rows, cols, r, c, 3)
  }

  /** The list is the nine offsets in row-then-column order. */
  lemma MooreUnfold(rows: nat, cols: nat, r: int, c: int)
    ensures MooreNeighbors(rows, cols, r, c) ==
      Offset(rows, cols, r, c, -1, -1) + Offset(rows, cols, r, c, -1, 0) + Offset(rows, cols, r, c, -1, 1) +
      Offset(rows, cols, r, c, 0, -1) + Offset(rows, cols, r, c, 0, 0) + Offset(rows, cols, r, c, 0, 1) +
      Offset(rows, cols, r, c, 1, -1) + Offset(rows, cols, r, c, 1, 0) + Offset(rows, cols, r, c, 1, 1)
  {
    RowOffsetsUnfold(rows, cols, r, c, -1);
    RowOffsetsUnfold(rows, cols, r, c, 0);
    RowOffsetsUnfold(rows, cols, r, c, 1);
    assert Offsets(rows, cols, r, c, 1) == RowOffsets(rows, cols, r, c, -1, 3);
    assert Offsets(rows, cols, r, c, 2) == RowOffsets(rows, cols, r, c, -1, 3) + RowOffsets(rows, cols, r, c, 0, 3);
    assert Offsets(rows, cols, r, c, 3) == Offsets(rows, cols, r, c, 2) + RowOffsets(rows, cols, r, c, 1, 3);
  }

  lemma RowOffsetsUnfold(rows: nat, cols: nat, r: int, c: int, dr: int)
    ensures RowOffsets(rows, cols, r, c, dr, 3) ==
      Offset(rows, cols, r, c, dr, -1) + Offset(rows, cols, r, c, dr, 0) + Offset(rows, cols, r, c, dr, 1)
  {
    assert RowOffsets(rows, cols, r, c, dr, 1) == Offset(rows, cols, r, c, dr, -1);
    assert RowOffsets(rows, cols, r, c, dr, 2) == Offset(rows, cols, r, c, dr, -1) + Offset(rows, cols, r, c, dr, 0);
  }

  lemma OffsetHas(rows: nat, cols: nat, r: nat, c: nat, dr: int, dc: int, r2: nat, c2: nat)
    requires r < rows && c < cols && r2 < rows && c2 < cols
    ensures Index(rows, cols, r2, c2) in Offset(rows, cols, r, c, dr, dc) <==>
            (dr != 0 || dc != 0) && r2 == r + dr && c2 == c + dc
  {
    if (dr != 0 || dc != 0) && 0 <= r + dr < rows && 0 <= c + dc < cols {
      if Index(rows, cols, r2, c2) == Index(rows, cols, r + dr, c + dc) {
        IndexInjective(rows, cols, r2, c2, r + dr, c + dc);
      }
    }
  }

  /** The list holds exactly the on-board squares adjacent to (r, c). */
  lemma MooreNeighborsExactly(rows: nat, cols: nat, r: nat, c: nat, r2: nat, c2: nat)
    requires r < rows && c < cols && r2 < rows && c2 < cols
    ensures Index(rows, cols, r2, c2) in MooreNeighbors(rows, cols, r, c) <==> Adjacent(r, c, r2, c2)
  {
    MooreUnfold(rows, cols, r, c);
    OffsetHas(rows, cols, r, c, -1, -1, r2, c2);
    OffsetHas(rows, cols, r, c, -1, 0, r2, c2);
    OffsetHas(rows, cols, r, c, -1, 1, r2, c2);
    OffsetHas(rows, cols, r, c, 0, -1, r2, c2);
    OffsetHas(rows, cols, r, c, 0, 0, r2, c2);
    OffsetHas(rows, cols, r, c, 0, 1, r2, c2);
    OffsetHas(rows, cols, r, c, 1, -1, r2, c2);
    OffsetHas(rows, cols, r, c, 1, 0, r2, c2);
    OffsetHas(rows, cols, r, c, 1, 1, r2, c2);
  }

  /** Every entry of the list is the position of an adjacent on-board square. */
  lemma MooreNeighborsOnBoard(rows: nat, cols: nat, r: nat, c: nat, j: nat)
    requires r < rows && c < cols
    requires j in MooreNeighbors(rows, cols, r, c)
    ensures exists r2: nat, c2: nat :: r2 < rows && c2 < cols && Index(rows, cols, r2, c2) == j && Adjacent(r, c, r2, c2)
  {
    MooreUnfold(rows, cols, r, c);
    var dr, dc :| -1 <= dr <= 1 && -1 <= dc <= 1 && j in Offset(rows, cols, r, c, dr, dc);
    assert Index(rows, cols, r + dr, c + dc) == j && Adjacent(r, c, r + dr, c + dc);
  }

  /** Adjacency is symmetric, so the links `linkNeighbors` makes go both ways. */
  lemma MooreNeighborsSymmetric(rows: nat, cols: nat, r: nat, c: nat, r2: nat, c2: nat)
    requires r < rows && c < cols && r2 < rows && c2 < cols
    ensures Index(rows, cols, r2, c2) in MooreNeighbors(rows, cols, r, c) <==>
            Index(rows, cols, r, c) in MooreNeighbors(rows, cols, r2, c2)
  {
    MooreNeighborsExactly(rows, cols, r, c, r2, c2);
    MooreNeighborsExactly(rows, cols, r2, c2, r, c);
  }

  /** How many of x - 1, x, x + 1 lie in [0, n). */
  function Span(n: nat, x: nat): (m: nat) {
    (if x > 0 then 1 else 0) + 1 + (if x + 1 < n then 1 else 0)
  }

  /** The list has one entry per on-board square of the 3 by 3 block around
      (r, c), less the square itself. */
  lemma MooreNeighborsLength(rows: nat, cols: nat, r: nat, c: nat)
    requires r < rows && c < cols
    ensures |MooreNeighbors(rows, cols, r, c)| == Span(rows, r) * Span(cols, c) - 1
  {
    MooreUnfold(rows, cols, r, c);
    var a, b := Span(rows, r), Span(cols, c);
    var up, down := if r > 0 then 1 else 0, if r + 1 < rows then 1 else 0;
    var left, right := if c > 0 then 1 else 0, if c + 1 < cols then 1 else 0;
    assert |MooreNeighbors(rows, cols, r, c)| == (up + 1 + down) * (left + 1 + right) - 1;
  }

  /** On a board of at least 2 by 2, a corner square has 3 neighbours, any
      other border square 5 and an interior square 8. */
  lemma MooreNeighborCounts(rows: nat, cols: nat, r: nat, c: nat)
    requires 2 <= rows && 2 <= cols && r < rows && c < cols
    ensures (r == 0 || r == rows - 1) && (c == 0 || c == cols - 1) ==> |MooreNeighbors(rows, cols, r, c)| == 3
    ensures (r == 0 || r == rows - 1) && 0 < c < cols - 1 ==> |MooreNeighbors(rows, cols, r, c)| == 5
    ensures 0 < r < rows - 1 && (c == 0 || c == cols - 1) ==> |MooreNeighbors(rows, cols, r, c)| == 5
    ensures 0 < r < rows - 1 && 0 < c < cols - 1 ==> |MooreNeighbors(rows, cols, r, c)| == 8
  {
    MooreNeighborsLength(rows, cols, r, c);
  }
}
