/** The Game of Life board as a value: rows of integer cells, 1 for a live cell and 0 for a dead
    one, and the view of a two-dimensional array board as such a value. */
module Board {

  /** A board, row by row. The simulation only ever stores 0 (dead) and 1 (alive). */
  type Grid = seq<seq<int>>

  /** The column count, read from the first row as the simulation does (`len(board[0])`). */
  function Cols(g: Grid): nat {
    if |g| == 0 then 0 else |g[0]|
  }

  /** Every row has as many cells as the first. */
  ghost predicate Rectangular(g: Grid) {
    forall x :: 0 <= x < |g| ==> |g[x]| == Cols(g)
  }

  /** (x, y) names a cell of the board; there is no wrap-around at the edges. */
  predicate InGrid(g: Grid, x: int, y: int) {
    0 <= x < |g| && 0 <= y < |g[x]|
  }

  /** The value at (x, y), where every position off the board reads as a dead cell. */
  function Cell(g: Grid, x: int, y: int): int {
    if InGrid(g, x, y) then g[x][y] else 0
  }

  predicate IsLive(g: Grid, x: int, y: int) {
    InGrid(g, x, y) && g[x][y] == 1
  }

  /** Every cell is 0 or 1. */
  ghost predicate Binary(g: Grid) {
    forall x, y :: InGrid(g, x, y) ==> g[x][y] == 0 || g[x][y] == 1
  }

  /** Every cell is dead. */
  ghost predicate Empty(g: Grid) {
    forall x, y :: InGrid(g, x, y) ==> g[x][y] == 0
  }

  /** The contents of an array board, row by row. */
  function Snapshot(a: array2<int>): (g: Grid)
    reads a
    ensures |g| == a.Length0 && Rectangular(g)
    ensures forall x :: 0 <= x < |g| ==> |g[x]| == a.Length1
    ensures a.Length0 > 0 ==> Cols(g) == a.Length1
    ensures forall x, y :: 0 <= x < a.Length0 && 0 <= y < a.Length1 ==> g[x][y] == a[x, y]
  {
    seq(a.Length0, x requires 0 <= x < a.Length0 reads a =>
      seq(a.Length1, y requires 0 <= y < a.Length1 reads a => a[x, y]))
  }

  /** Two boards with the same shape and the same cells are the same board. */
  lemma SameCells(g: Grid, h: Grid)
    requires |g| == |h|
    requires forall x :: 0 <= x < |g| ==> |g[x]| == |h[x]|
    requires forall x, y :: 0 <= x < |g| && 0 <= y < |g[x]| ==> g[x][y] == h[x][y]
    ensures g == h
  {
    forall x | 0 <= x < |g|
      ensures g[x] == h[x]
    {
      assert |g[x]| == |h[x]|;
    }
  }
}
