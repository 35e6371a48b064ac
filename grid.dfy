/** The 8x8 board of swapmatch3.js stored as a flat array indexed by `y * W + x`,
    and the primitives that read, compare and exchange its cells. */
module Grid {

  const W := 8
  const H := 8
  /** Colours are 1..NUM_COLORS; 0 is the empty cell waiting for a refill. */
  const NUM_COLORS := 7

  /** The flat index `idx(x, y)`; no bounds check, as in the source. */
  function Idx(x: int, y: int): (i: int)
    ensures 0 <= x < W && 0 <= y < H ==> 0 <= i < W * H
  {
    y * W + x
  }

  /** On the board the flat index determines the cell: column `i % W`, row `i / W`. */
  lemma IdxDecode(x: int, y: int)
    requires InBoard(x, y)
    ensures Idx(x, y) % W == x && Idx(x, y) / W == y
  {
  }

  predicate InBoard(x: int, y: int) {
    0 <= x < W && 0 <= y < H
  }

  /** Every array slot is the flat index of exactly one board cell. */
  lemma IdxOnto(i: int)
    requires 0 <= i < W * H
    ensures InBoard(i % W, i / W) && Idx(i % W, i / W) == i
  {
  }

  /** The board cell stored at array slot i. */
  lemma CellAt(i: int) returns (x: int, y: int)
    requires 0 <= i < W * H
    ensures InBoard(x, y) && Idx(x, y) == i
  {
    IdxOnto(i);
    x, y := i % W, i / W;
  }

  /** A snapshot of the colour array that the engine keeps: 64 cells, each empty or a colour. */
  predicate IsBoard(b: seq<int>) {
    |b| == W * H && forall i :: 0 <= i < |b| ==> 0 <= b[i] <= NUM_COLORS
  }

  /** A snapshot whose every board cell is empty or a colour is a board. */
  lemma BoardByCells(b: seq<int>)
    requires |b| == W * H
    requires forall x, y {:trigger b[Idx(x, y)]} :: 0 <= x < W && 0 <= y < H ==> 0 <= b[Idx(x, y)] <= NUM_COLORS
    ensures IsBoard(b)
  {
    forall i | 0 <= i < |b| ensures 0 <= b[i] <= NUM_COLORS {
      var x, y := CellAt(i);
    }
  }

  /** A board with no empty cell. */
  predicate IsFull(b: seq<int>) {
    |b| == W * H && forall i :: 0 <= i < |b| ==> 1 <= b[i] <= NUM_COLORS
  }

  /** `getCellColor` on a snapshot: the low three bits of the stored value (`& 7`, which is
      Euclidean `% 8`), and 0 for a flat index outside the array (`undefined & 7`). */
  function ColorAt(b: seq<int>, x: int, y: int): (c: int)
    ensures 0 <= c < 8
    ensures !(0 <= Idx(x, y) < |b|) ==> c == 0
    ensures 0 <= Idx(x, y) < |b| && 0 <= b[Idx(x, y)] < 8 ==> c == b[Idx(x, y)]
  {
    var i := Idx(x, y);
    if 0 <= i < |b| then b[i] % 8 else 0
  }

  function Abs(n: int): nat {
    if n < 0 then -n else n
  }

  /** `areCellsAdjacent`: compares flat indices, so it does not look at rows and columns. */
  function AreCellsAdjacent(x1: int, y1: int, x2: int, y2: int): bool {
    var diff := Abs(Idx(x1, y1) - Idx(x2, y2));
    diff == W || diff == 1
  }

  /** Neighbours in the grid sense: one step along a row or along a column. */
  predicate Orthogonal(x1: int, y1: int, x2: int, y2: int) {
    (y1 == y2 && Abs(x1 - x2) == 1) || (x1 == x2 && Abs(y1 - y2) == 1)
  }

  /** The last cell of a row and the first cell of the next row: flat neighbours, not grid neighbours. */
  predicate RowWrap(x1: int, y1: int, x2: int, y2: int) {
    (x1 == W - 1 && x2 == 0 && y2 == y1 + 1) || (x2 == W - 1 && x1 == 0 && y1 == y2 + 1)
  }

  lemma AdjacentSymmetric(x1: int, y1: int, x2: int, y2: int)
    ensures AreCellsAdjacent(x1, y1, x2, y2) == AreCellsAdjacent(x2, y2, x1, y1)
  {
  }

  /** On the board, adjacency is grid adjacency plus the row-wrapping pairs. */
  lemma AdjacentCells(x1: int, y1: int, x2: int, y2: int)
    requires InBoard(x1, y1) && InBoard(x2, y2)
    ensures AreCellsAdjacent(x1, y1, x2, y2) <==> Orthogonal(x1, y1, x2, y2) || RowWrap(x1, y1, x2, y2)
  {
  }

  /** (7,0) and (0,1) are accepted as a move although they are on opposite sides of the board. */
  lemma RowWrapAccepted()
    ensures AreCellsAdjacent(7, 0, 0, 1) && !Orthogonal(7, 0, 0, 1)
  {
  }

  /** The array after `swapCells` on flat indices i and j. */
  function Swapped(b: seq<int>, i: int, j: int): (r: seq<int>)
    requires 0 <= i < |b| && 0 <= j < |b|
    ensures |r| == |b| && r[i] == b[j] && r[j] == b[i]
    ensures forall k :: 0 <= k < |b| && k != i && k != j ==> r[k] == b[k]
  {
    b[i := b[j]][j := b[i]]
  }

  /** Swapping the same two cells again restores the board: how an illegal move is undone. */
  lemma SwapSelfInverse(b: seq<int>, i: int, j: int)
    requires 0 <= i < |b| && 0 <= j < |b|
    ensures Swapped(Swapped(b, i, j), i, j) == b
  {
    var r := Swapped(Swapped(b, i, j), i, j);
    assert forall k :: 0 <= k < |b| ==> r[k] == b[k];
  }

  lemma SwapPermutes(b: seq<int>, i: int, j: int)
    requires 0 <= i < |b| && 0 <= j < |b|
    ensures multiset(Swapped(b, i, j)) == multiset(b)
  {
  }

  lemma SwapKeepsBoard(b: seq<int>, i: int, j: int)
    requires IsBoard(b) && 0 <= i < |b| && 0 <= j < |b|
    ensures IsBoard(Swapped(b, i, j))
  {
  }
}
