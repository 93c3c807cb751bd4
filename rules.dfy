/** One generation: every cell's next state is computed from the current board alone. */
module RuleEngine {
  import opened Board
  import opened NeighborCounter

  /** The next value of a cell holding `cell` with neighbour count n: a live cell (1) survives
      on 2 or 3 neighbours and dies otherwise; any other cell becomes live on exactly 3. */
  function NextCell(cell: int, n: int): (next: int)
    ensures next == 0 || next == 1
    ensures cell == 1 ==> (next == 1 <==> n == 2 || n == 3)
    ensures cell != 1 ==> (next == 1 <==> n == 3)
  {
    if cell == 1 then
      if n < 2 || n > 3 then 0 else 1
    else if n == 3 then 1 else 0
  }

  /** The next generation of g, every cell read from g and none from the board being built. */
  function Step(g: Grid): (r: Grid)
    requires Rectangular(g)
    ensures |r| == |g| && Rectangular(r) && Cols(r) == Cols(g)
    ensures Binary(r)
  {
    seq(|g|, i requires 0 <= i < |g| =>
      seq(Cols(g), j requires 0 <= j < Cols(g) && |g[i]| == Cols(g) =>
        NextCell(g[i][j], NeighborCount(g, i, j))))
  }

  /** The rule table, cell by cell: underpopulation, survival, overpopulation and reproduction. */
  lemma StepRules(g: Grid, i: int, j: int)
    requires Rectangular(g) && 0 <= i < |g| && 0 <= j < Cols(g)
    ensures var n, r := NeighborCount(g, i, j), Step(g);
      && (g[i][j] == 1 && n < 2 ==> r[i][j] == 0)
      && (g[i][j] == 1 && (n == 2 || n == 3) ==> r[i][j] == 1)
      && (g[i][j] == 1 && n > 3 ==> r[i][j] == 0)
      && (g[i][j] != 1 ==> (r[i][j] == 1 <==> n == 3) && (r[i][j] == 0 <==> n != 3))
  {
  }

  /** `apply_rules`: a fresh all-dead board of the same size, filled cell by cell in row-major
      order from the old board, which is left as it was. A dead cell that is not born keeps the
      0 it was created with. */
  method ApplyRules(board: array2<int>) returns (next: array2<int>)
    ensures fresh(next)
    ensures next.Length0 == board.Length0 && next.Length1 == board.Length1
    ensures unchanged(board)
    ensures Snapshot(next) == Step(Snapshot(board))
  {
    ghost var g := Snapshot(board);
    ghost var s := Step(g);
    next := new int[board.Length0, board.Length1]((_, _) => 0);
    var i := 0;
    while i < board.Length0
      invariant 0 <= i <= board.Length0
      invariant forall x, y :: 0 <= x < board.Length0 && 0 <= y < board.Length1 ==>
        next[x, y] == if x < i then s[x][y] else 0
    {
      var j := 0;
      while j < board.Length1
        invariant 0 <= j <= board.Length1
        invariant forall x, y :: 0 <= x < board.Length0 && 0 <= y < board.Length1 ==>
          next[x, y] == if x < i || (x == i && y < j) then s[x][y] else 0
      {
        UpdateCell(board, next, i, j);
        StepAt(g, i, j);
        j := j + 1;
      }
      i := i + 1;
    }
    SameCells(Snapshot(next), s);
  }

  /** The body of `apply_rules`' inner loop: count the neighbours of (i, j) on the old board and
      write the new state of (i, j) into the new board, leaving it at 0 when a dead cell is not
      born. Nothing else is written. */
  method UpdateCell(board: array2<int>, next: array2<int>, i: int, j: int)
    requires 0 <= i < board.Length0 && 0 <= j < board.Length1
    requires next != board && next.Length0 == board.Length0 && next.Length1 == board.Length1
    requires next[i, j] == 0
    modifies next
    ensures next[i, j] == NextCell(board[i, j], NeighborCount(Snapshot(board), i, j))
    ensures forall x, y :: 0 <= x < next.Length0 && 0 <= y < next.Length1 && (x != i || y != j) ==>
      next[x, y] == old(next[x, y])
  {
    var live := CountLiveNeighbors(board, i, j);
    if board[i, j] == 1 {
      if live < 2 || live > 3 {
        next[i, j] := 0;
      } else {
        next[i, j] := 1;
      }
    } else {
      if live == 3 {
        next[i, j] := 1;
      }
    }
  }

  /** One cell of the next generation. */
  lemma StepAt(g: Grid, i: int, j: int)
    requires Rectangular(g) && 0 <= i < |g| && 0 <= j < Cols(g)
    ensures Step(g)[i][j] == NextCell(g[i][j], NeighborCount(g, i, j))
  {
  }

  /** A board with no live cell stays without one. */
  lemma StepOfEmpty(g: Grid)
    requires Rectangular(g) && Empty(g)
    ensures Empty(Step(g))
  {
    forall x, y | InGrid(Step(g), x, y)
      ensures Step(g)[x][y] == 0
    {
      NeighborCountTerms(g, x, y);
    }
  }

  /** A board of 0s and 1s without a 1 is all dead. */
  lemma NoLiveCellIsEmpty(g: Grid)
    requires Binary(g)
    requires forall x, y :: InGrid(g, x, y) ==> !IsLive(g, x, y)
    ensures Empty(g)
  {
  }
}
