/** Counting the live neighbours of one cell: the sum over the 3x3 window around it, clipped to
    the board and without the cell itself. */
module NeighborCounter {
  import opened Board

  /** The index range [lo, hi) that the counting loop walks along one axis of length n around
      index i: one step either side of i, cut off at the board's edges. */
  function Window(i: int, n: int): (w: (int, int))
    requires 0 <= i < n
    ensures 0 <= w.0 <= i < w.1 <= n
    ensures w.0 == i - 1 || w.0 == i == 0
    ensures w.1 == i + 2 || w.1 == i + 1 == n
  {
    (if i - 1 > 0 then i - 1 else 0, if i + 2 < n then i + 2 else n)
  }

  /** The eight positions around (i, j). */
  function Around(i: int, j: int): (ps: seq<(int, int)>)
    ensures |ps| == 8
    ensures forall a, b :: 0 <= a < b < |ps| ==> ps[a] != ps[b]
  {
    [(i - 1, j - 1), (i - 1, j), (i - 1, j + 1), (i, j - 1), (i, j + 1),
     (i + 1, j - 1), (i + 1, j), (i + 1, j + 1)]
  }

  /** The values at the positions ps added up, a position off the board counting as dead. */
  function SumCells(g: Grid, ps: seq<(int, int)>): int {
    if ps == [] then 0 else Cell(g, ps[0].0, ps[0].1) + SumCells(g, ps[1..])
  }

  /** On a board of 0s and 1s, the sum over k positions lies between 0 and k. */
  lemma {:induction false} SumCellsBounds(g: Grid, ps: seq<(int, int)>)
    ensures Binary(g) ==> 0 <= SumCells(g, ps) <= |ps|
  {
    if ps != [] {
      SumCellsBounds(g, ps[1..]);
    }
  }

  /** The neighbour count of (i, j): the values of the eight surrounding cells added up, a
      position off the board counting as dead. On a board of 0s and 1s this is the number of
      live neighbours (NeighborCountIsLiveCount). */
  function NeighborCount(g: Grid, i: int, j: int): (n: int)
    ensures Binary(g) ==> 0 <= n <= 8
  {
    SumCellsBounds(g, Around(i, j));
    SumCells(g, Around(i, j))
  }

  /** The eight terms of the neighbour count, written out. */
  lemma NeighborCountTerms(g: Grid, i: int, j: int)
    ensures NeighborCount(g, i, j)
         == Cell(g, i - 1, j - 1) + Cell(g, i - 1, j) + Cell(g, i - 1, j + 1)
          + Cell(g, i, j - 1) + Cell(g, i, j + 1)
          + Cell(g, i + 1, j - 1) + Cell(g, i + 1, j) + Cell(g, i + 1, j + 1)
  {
    var ps := Around(i, j);
    assert SumCells(g, ps[8..]) == 0;
    assert SumCells(g, ps[7..]) == Cell(g, i + 1, j + 1);
    assert SumCells(g, ps[6..]) == Cell(g, i + 1, j) + SumCells(g, ps[7..]);
    assert SumCells(g, ps[5..]) == Cell(g, i + 1, j - 1) + SumCells(g, ps[6..]);
    assert SumCells(g, ps[4..]) == Cell(g, i, j + 1) + SumCells(g, ps[5..]);
    assert SumCells(g, ps[3..]) == Cell(g, i, j - 1) + SumCells(g, ps[4..]);
    assert SumCells(g, ps[2..]) == Cell(g, i - 1, j + 1) + SumCells(g, ps[3..]);
    assert SumCells(g, ps[1..]) == Cell(g, i - 1, j) + SumCells(g, ps[2..]);
    assert SumCells(g, ps) == Cell(g, i - 1, j - 1) + SumCells(g, ps[1..]);
  }

  /** What the counting loop adds for position (x, y) when counting around (i, j). */
  ghost function Term(g: Grid, i: int, j: int, x: int, y: int): int {
    if x == i && y == j then 0 else Cell(g, x, y)
  }

  /** The loop's sum over row x, columns [lo, hi). */
  ghost function RowSum(g: Grid, i: int, j: int, x: int, lo: int, hi: int): int
    decreases hi - lo
  {
    if hi <= lo then 0 else RowSum(g, i, j, x, lo, hi - 1) + Term(g, i, j, x, hi - 1)
  }

  /** The loop's sum over rows [xlo, xhi), columns [ylo, yhi). */
  ghost function WindowSum(g: Grid, i: int, j: int, xlo: int, xhi: int, ylo: int, yhi: int): int
    decreases xhi - xlo
  {
    if xhi <= xlo then 0
    else WindowSum(g, i, j, xlo, xhi - 1, ylo, yhi) + RowSum(g, i, j, xhi - 1, ylo, yhi)
  }

  /** Along one row, the clipped column range adds up to the three padded positions
      j - 1, j, j + 1: what clipping leaves out lies off the board. */
  lemma {:induction false} ClippedRow(g: Grid, i: int, j: int, x: int)
    requires Rectangular(g) && 0 <= i < |g| && 0 <= j < Cols(g)
    ensures RowSum(g, i, j, x, Window(j, Cols(g)).0, Window(j, Cols(g)).1)
         == Term(g, i, j, x, j - 1) + Term(g, i, j, x, j) + Term(g, i, j, x, j + 1)
  {
    var (lo, hi) := Window(j, Cols(g));
    assert Term(g, i, j, x, -1) == 0 by { assert !InGrid(g, x, -1); }
    if x < |g| && 0 <= x {
      assert |g[x]| == Cols(g);
    }
    assert Term(g, i, j, x, Cols(g)) == 0 by { assert !InGrid(g, x, Cols(g)); }
    assert RowSum(g, i, j, x, lo, lo) == 0;
    assert RowSum(g, i, j, x, lo, lo + 1) == Term(g, i, j, x, lo);
    if lo + 2 <= hi {
      assert RowSum(g, i, j, x, lo, lo + 2) == Term(g, i, j, x, lo) + Term(g, i, j, x, lo + 1);
    }
    if lo + 3 <= hi {
      assert RowSum(g, i, j, x, lo, lo + 3)
          == Term(g, i, j, x, lo) + Term(g, i, j, x, lo + 1) + Term(g, i, j, x, lo + 2);
    }
  }

  /** A row off the board contributes nothing. */
  lemma OffBoardRow(g: Grid, i: int, j: int, x: int)
    requires Rectangular(g) && 0 <= i < |g| && 0 <= j < Cols(g)
    requires x < 0 || x >= |g|
    ensures Term(g, i, j, x, j - 1) + Term(g, i, j, x, j) + Term(g, i, j, x, j + 1) == 0
  {
  }

  /** The sum the nested counting loops compute over the clipped window equals the padded
      eight-neighbour count: clipping at the edges behaves exactly like dead cells beyond them. */
  lemma {:induction false} ClippedWindowIsNeighborCount(g: Grid, i: int, j: int)
    requires Rectangular(g) && 0 <= i < |g| && 0 <= j < Cols(g)
    ensures WindowSum(g, i, j, Window(i, |g|).0, Window(i, |g|).1,
                      Window(j, Cols(g)).0, Window(j, Cols(g)).1) == NeighborCount(g, i, j)
  {
    var (xlo, xhi) := Window(i, |g|);
    var (ylo, yhi) := Window(j, Cols(g));
    ClippedRow(g, i, j, i - 1);
    ClippedRow(g, i, j, i);
    ClippedRow(g, i, j, i + 1);
    if i == 0 {
      OffBoardRow(g, i, j, -1);
    }
    if i + 1 == |g| {
      OffBoardRow(g, i, j, |g|);
    }
    assert WindowSum(g, i, j, xlo, xlo, ylo, yhi) == 0;
    assert WindowSum(g, i, j, xlo, xlo + 1, ylo, yhi) == RowSum(g, i, j, xlo, ylo, yhi);
    if xlo + 2 <= xhi {
      assert WindowSum(g, i, j, xlo, xlo + 2, ylo, yhi)
          == RowSum(g, i, j, xlo, ylo, yhi) + RowSum(g, i, j, xlo + 1, ylo, yhi);
    }
    if xlo + 3 <= xhi {
      assert WindowSum(g, i, j, xlo, xlo + 3, ylo, yhi)
          == RowSum(g, i, j, xlo, ylo, yhi) + RowSum(g, i, j, xlo + 1, ylo, yhi)
           + RowSum(g, i, j, xlo + 2, ylo, yhi);
    }
    assert Term(g, i, j, i, j) == 0;
    NeighborCountTerms(g, i, j);
  }

  /** `count_live_neighbors`: the nested loops over the clipped window, skipping (i, j) itself.
      Every array access is within the board, so the count never wraps around an edge. */
  method CountLiveNeighbors(b: array2<int>, i: int, j: int) returns (count: int)
    requires 0 <= i < b.Length0 && 0 <= j < b.Length1
    ensures count == NeighborCount(Snapshot(b), i, j)
  {
    ghost var g := Snapshot(b);
    var (xlo, xhi) := Window(i, b.Length0);
    var (ylo, yhi) := Window(j, b.Length1);
    count := 0;
    var x := xlo;
    while x < xhi
      invariant xlo <= x <= xhi
      invariant count == WindowSum(g, i, j, xlo, x, ylo, yhi)
    {
      var y := ylo;
      while y < yhi
        invariant ylo <= y <= yhi
        invariant count == WindowSum(g, i, j, xlo, x, ylo, yhi) + RowSum(g, i, j, x, ylo, y)
      {
        count := count + if (x, y) != (i, j) then b[x, y] else 0;
        y := y + 1;
      }
      x := x + 1;
    }
    ClippedWindowIsNeighborCount(g, i, j);
  }

  /** The positions of ps that are live. */
  ghost function LiveAmong(g: Grid, ps: seq<(int, int)>): set<(int, int)> {
    set c | c in ps && IsLive(g, c.0, c.1)
  }

  /** The live neighbours of (i, j): the positions around it that are on the board and hold 1. */
  ghost function LiveNeighbors(g: Grid, i: int, j: int): set<(int, int)> {
    LiveAmong(g, Around(i, j))
  }

  /** How many entries of ps are live positions, counted one by one. */
  ghost function LiveTally(g: Grid, ps: seq<(int, int)>): nat {
    if ps == [] then 0
    else (if IsLive(g, ps[0].0, ps[0].1) then 1 else 0) + LiveTally(g, ps[1..])
  }

  /** Counting live entries one by one over distinct positions gives the size of their set. */
  lemma {:induction false} LiveTallyIsSize(g: Grid, ps: seq<(int, int)>)
    requires forall a, b :: 0 <= a < b < |ps| ==> ps[a] != ps[b]
    ensures |LiveAmong(g, ps)| == LiveTally(g, ps)
  {
    if ps != [] {
      var rest := ps[1..];
      LiveTallyIsSize(g, rest);
      assert ps[0] !in rest by {
        forall k | 0 <= k < |rest| ensures rest[k] != ps[0] {
          assert rest[k] == ps[k + 1];
        }
      }
      assert forall c :: c in ps <==> c == ps[0] || c in rest by {
        assert ps == [ps[0]] + rest;
      }
      if IsLive(g, ps[0].0, ps[0].1) {
        assert LiveAmong(g, ps) == LiveAmong(g, rest) + {ps[0]};
      } else {
        assert LiveAmong(g, ps) == LiveAmong(g, rest);
      }
    }
  }

  /** On a board of 0s and 1s, adding up cell values counts the live positions. */
  lemma {:induction false} SumIsTally(g: Grid, ps: seq<(int, int)>)
    requires Binary(g)
    ensures SumCells(g, ps) == LiveTally(g, ps)
  {
    if ps != [] {
      SumIsTally(g, ps[1..]);
    }
  }

  /** On a board of 0s and 1s the neighbour count is the number of live neighbours. */
  lemma NeighborCountIsLiveCount(g: Grid, i: int, j: int)
    requires Binary(g)
    ensures NeighborCount(g, i, j) == |LiveNeighbors(g, i, j)|
  {
    SumIsTally(g, Around(i, j));
    LiveTallyIsSize(g, Around(i, j));
  }

  /** On a board of 0s and 1s a cell has between 0 and 8 live neighbours, at most 5 when it lies
      on an edge and at most 3 when it is a corner. */
  lemma NeighborCountBounds(g: Grid, i: int, j: int)
    requires Rectangular(g) && Binary(g) && 0 <= i < |g| && 0 <= j < Cols(g)
    ensures 0 <= NeighborCount(g, i, j) <= 8
    ensures (i == 0 || i == |g| - 1 || j == 0 || j == Cols(g) - 1) ==> NeighborCount(g, i, j) <= 5
    ensures (i == 0 || i == |g| - 1) && (j == 0 || j == Cols(g) - 1) ==> NeighborCount(g, i, j) <= 3
  {
    NeighborCountTerms(g, i, j);
  }

}
