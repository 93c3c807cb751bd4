/** Still lifes and the two example seeds at the foot of GameOfLife.py, run through the model. */
module Scenarios {
  import opened Board
  import opened NeighborCounter
  import opened RuleEngine
  import opened Simulator
  import opened Extinction

  /** A board that the step leaves as it is stays so for every generation, and every report lists
      its live cells. */
  lemma {:induction false} FixedPointForever(g: Grid, n: nat)
    requires Rectangular(g) && Step(g) == g
    ensures Evolve(g, n) == g
  {
    if n > 0 {
      FixedPointForever(g, n - 1);
    }
  }

  /** Every report of a still life is its own live-cell list. */
  lemma StillLifeReports(g: Grid, n: nat)
    requires Rectangular(g) && Step(g) == g
    ensures forall k :: 0 <= k < n ==> Reports(g, n)[k] == Report(k + 1, LiveCells(g))
  {
    forall k | 0 <= k < n
      ensures Reports(g, n)[k] == Report(k + 1, LiveCells(g))
    {
      FixedPointForever(g, k + 1);
      assert Reports(g, n)[k].live == LiveCells(Evolve(g, k + 1));
    }
  }

  /** A cell of a seeded board, on or off it. */
  lemma SeededCell(rows: nat, cols: nat, cells: seq<Coord>, x: int, y: int)
    ensures Cell(Seeded(rows, cols, cells), x, y)
         == if 0 <= x < rows && 0 <= y < cols && (x, y) in cells then 1 else 0
  {
  }

  /** The 2x2 block with top-left corner (r, c), in row-major order. */
  function Block(r: int, c: int): (s: seq<Coord>)
    ensures StrictlyRowMajor(s)
    ensures forall p :: p in s <==> r <= p.0 <= r + 1 && c <= p.1 <= c + 1
  {
    [(r, c), (r, c + 1), (r + 1, c), (r + 1, c + 1)]
  }

  /** A position holds 1 on the block's board exactly when it belongs to the block. */
  lemma BlockCellValue(rows: nat, cols: nat, r: int, c: int, x: int, y: int)
    requires 0 <= r && r + 1 < rows && 0 <= c && c + 1 < cols
    ensures Cell(Seeded(rows, cols, Block(r, c)), x, y)
         == if r <= x <= r + 1 && c <= y <= c + 1 then 1 else 0
  {
  }

  /** One cell of the block's board keeps its value. */
  lemma BlockCellStill(rows: nat, cols: nat, r: int, c: int, x: int, y: int)
    requires 0 <= r && r + 1 < rows && 0 <= c && c + 1 < cols
    requires 0 <= x < rows && 0 <= y < cols
    ensures var g := Seeded(rows, cols, Block(r, c)); Step(g)[x][y] == g[x][y]
  {
    var g := Seeded(rows, cols, Block(r, c));
    NeighborCountTerms(Seeded(rows, cols, Block(r, c)), x, y);
    BlockCellValue(rows, cols, r, c, x, y);
    BlockCellValue(rows, cols, r, c, x - 1, y - 1);
    BlockCellValue(rows, cols, r, c, x - 1, y);
    BlockCellValue(rows, cols, r, c, x - 1, y + 1);
    BlockCellValue(rows, cols, r, c, x, y - 1);
    BlockCellValue(rows, cols, r, c, x, y + 1);
    BlockCellValue(rows, cols, r, c, x + 1, y - 1);
    BlockCellValue(rows, cols, r, c, x + 1, y);
    BlockCellValue(rows, cols, r, c, x + 1, y + 1);
    StepAt(g, x, y);
  }

  /** A 2x2 block anywhere on the board, even against an edge, is left unchanged by the step:
      each of its cells has 3 live neighbours, and no dead cell has more than 2. */
  lemma BlockIsStill(rows: nat, cols: nat, r: int, c: int)
    requires 0 <= r && r + 1 < rows && 0 <= c && c + 1 < cols
    ensures Step(Seeded(rows, cols, Block(r, c))) == Seeded(rows, cols, Block(r, c))
  {
    var g := Seeded(rows, cols, Block(r, c));
    forall x, y | 0 <= x < rows && 0 <= y < cols
      ensures Step(g)[x][y] == g[x][y]
    {
      BlockCellStill(rows, cols, r, c, x, y);
    }
    SameCells(Step(g), g);
  }

  /** The block's board reports exactly the block's four cells. */
  lemma BlockLiveCells(rows: nat, cols: nat, r: int, c: int)
    requires 0 <= r && r + 1 < rows && 0 <= c && c + 1 < cols
    ensures LiveCells(Seeded(rows, cols, Block(r, c))) == Block(r, c)
  {
    var g := Seeded(rows, cols, Block(r, c));
    forall p ensures p in LiveCells(g) <==> p in Block(r, c) {
      BlockCellValue(rows, cols, r, c, p.0, p.1);
    }
    RowMajorUnique(LiveCells(g), Block(r, c));
  }

  /** Seeded with a 2x2 block, every generation reports exactly the block's four cells in
      row-major order. */
  lemma BlockReports(rows: nat, cols: nat, r: int, c: int, n: nat)
    requires 0 <= r && r + 1 < rows && 0 <= c && c + 1 < cols
    ensures forall k :: 0 <= k < n ==>
      Reports(Seeded(rows, cols, Block(r, c)), n)[k] == Report(k + 1, Block(r, c))
  {
    BlockIsStill(rows, cols, r, c);
    StillLifeReports(Seeded(rows, cols, Block(r, c)), n);
    BlockLiveCells(rows, cols, r, c);
  }

  /** A position holds 1 on a board seeded with the single cell (r, c) exactly when it is (r, c). */
  lemma LoneCellValue(rows: nat, cols: nat, r: int, c: int, x: int, y: int)
    requires 0 <= r < rows && 0 <= c < cols
    ensures Cell(Seeded(rows, cols, [(r, c)]), x, y) == if x == r && y == c then 1 else 0
  {
  }

  /** Every cell of the single-cell board is dead after one step. */
  lemma LoneCellStep(rows: nat, cols: nat, r: int, c: int, x: int, y: int)
    requires 0 <= r < rows && 0 <= c < cols
    requires 0 <= x < rows && 0 <= y < cols
    ensures Step(Seeded(rows, cols, [(r, c)]))[x][y] == 0
  {
    var g := Seeded(rows, cols, [(r, c)]);
    NeighborCountTerms(Seeded(rows, cols, [(r, c)]), x, y);
    LoneCellValue(rows, cols, r, c, x - 1, y - 1);
    LoneCellValue(rows, cols, r, c, x - 1, y);
    LoneCellValue(rows, cols, r, c, x - 1, y + 1);
    LoneCellValue(rows, cols, r, c, x, y - 1);
    LoneCellValue(rows, cols, r, c, x, y + 1);
    LoneCellValue(rows, cols, r, c, x + 1, y - 1);
    LoneCellValue(rows, cols, r, c, x + 1, y);
    LoneCellValue(rows, cols, r, c, x + 1, y + 1);
    StepAt(g, x, y);
  }

  /** The first generation of the single-cell board has no live cell. */
  lemma LoneCellExtinct(rows: nat, cols: nat, r: int, c: int)
    requires 0 <= r < rows && 0 <= c < cols
    ensures LiveCells(Evolve(Seeded(rows, cols, [(r, c)]), 1)) == []
  {
    var g := Seeded(rows, cols, [(r, c)]);
    forall x, y | InGrid(Step(g), x, y)
      ensures Step(g)[x][y] == 0
    {
      LoneCellStep(rows, cols, r, c, x, y);
    }
    EmptyHasNoLiveCells(Step(g));
    assert Evolve(g, 1) == Step(g);
  }

  /** A single live cell has no live neighbour and dies in the first generation; every report
      is empty (the first example seed, [[1, 1]], is the case r = c = 1). */
  lemma LoneCellDies(rows: nat, cols: nat, r: int, c: int, n: nat)
    requires 0 <= r < rows && 0 <= c < cols
    ensures forall k :: 0 <= k < n ==> Reports(Seeded(rows, cols, [(r, c)]), n)[k].live == []
  {
    var g := Seeded(rows, cols, [(r, c)]);
    LoneCellExtinct(rows, cols, r, c);
    forall k | 0 <= k < n
      ensures Reports(g, n)[k].live == []
    {
      ExtinctFrom(g, 1, k + 1);
    }
  }

  /** The second example seed of GameOfLife.py: a 3x2 rectangle, rows 5 to 7, columns 5 and 6. */
  function Rectangle(): seq<Coord> {
    [(5, 5), (6, 5), (7, 5), (5, 6), (6, 6), (7, 6)]
  }

  /** The beehive its first generation becomes, in row-major order. */
  function Beehive(): (s: seq<Coord>)
    ensures StrictlyRowMajor(s)
  {
    [(5, 5), (5, 6), (6, 4), (6, 7), (7, 5), (7, 6)]
  }

  predicate InBeehive(x: int, y: int) {
    (x == 5 && (y == 5 || y == 6)) || (x == 6 && (y == 4 || y == 7)) || (x == 7 && (y == 5 || y == 6))
  }

  /** The rectangle and the beehive as indicator functions on positions. */
  function RectangleAt(x: int, y: int): int {
    if 5 <= x <= 7 && 5 <= y <= 6 then 1 else 0
  }

  function BeehiveAt(x: int, y: int): int {
    if InBeehive(x, y) then 1 else 0
  }

  /** The live neighbours of (x, y) among the rectangle's cells. */
  function RectangleNeighbors(x: int, y: int): int {
    RectangleAt(x - 1, y - 1) + RectangleAt(x - 1, y) + RectangleAt(x - 1, y + 1)
    + RectangleAt(x, y - 1) + RectangleAt(x, y + 1)
    + RectangleAt(x + 1, y - 1) + RectangleAt(x + 1, y) + RectangleAt(x + 1, y + 1)
  }

  /** The live neighbours of (x, y) among the beehive's cells. */
  function BeehiveNeighbors(x: int, y: int): int {
    BeehiveAt(x - 1, y - 1) + BeehiveAt(x - 1, y) + BeehiveAt(x - 1, y + 1)
    + BeehiveAt(x, y - 1) + BeehiveAt(x, y + 1)
    + BeehiveAt(x + 1, y - 1) + BeehiveAt(x + 1, y) + BeehiveAt(x + 1, y + 1)
  }

  lemma RectangleValue(rows: nat, cols: nat, x: int, y: int)
    requires rows >= 8 && cols >= 8
    ensures Cell(Seeded(rows, cols, Rectangle()), x, y) == RectangleAt(x, y)
  {
  }

  lemma BeehiveValue(rows: nat, cols: nat, x: int, y: int)
    requires rows >= 8 && cols >= 8
    ensures Cell(Seeded(rows, cols, Beehive()), x, y) == BeehiveAt(x, y)
  {
  }

  /** On the rectangle's board the neighbour count is the count among the rectangle's cells. */
  lemma RectangleCount(rows: nat, cols: nat, x: int, y: int)
    requires rows >= 8 && cols >= 8
    ensures NeighborCount(Seeded(rows, cols, Rectangle()), x, y) == RectangleNeighbors(x, y)
  {
    NeighborCountTerms(Seeded(rows, cols, Rectangle()), x, y);
    RectangleValue(rows, cols, x - 1, y - 1);
    RectangleValue(rows, cols, x - 1, y);
    RectangleValue(rows, cols, x - 1, y + 1);
    RectangleValue(rows, cols, x, y - 1);
    RectangleValue(rows, cols, x, y + 1);
    RectangleValue(rows, cols, x + 1, y - 1);
    RectangleValue(rows, cols, x + 1, y);
    RectangleValue(rows, cols, x + 1, y + 1);
  }

  /** On the beehive's board the neighbour count is the count among the beehive's cells. */
  lemma BeehiveCount(rows: nat, cols: nat, x: int, y: int)
    requires rows >= 8 && cols >= 8
    ensures NeighborCount(Seeded(rows, cols, Beehive()), x, y) == BeehiveNeighbors(x, y)
  {
    NeighborCountTerms(Seeded(rows, cols, Beehive()), x, y);
    BeehiveValue(rows, cols, x - 1, y - 1);
    BeehiveValue(rows, cols, x - 1, y);
    BeehiveValue(rows, cols, x - 1, y + 1);
    BeehiveValue(rows, cols, x, y - 1);
    BeehiveValue(rows, cols, x, y + 1);
    BeehiveValue(rows, cols, x + 1, y - 1);
    BeehiveValue(rows, cols, x + 1, y);
    BeehiveValue(rows, cols, x + 1, y + 1);
  }

  /** The rule applied to the rectangle gives the beehive: the two middle cells have 5 live
      neighbours and die, (6, 4) and (6, 7) have 3 and are born, the four corners survive on 3. */
  lemma RectangleRule(x: int, y: int)
    ensures NextCell(RectangleAt(x, y), RectangleNeighbors(x, y)) == BeehiveAt(x, y)
  {
  }

  /** The rule applied to the beehive gives the beehive. */
  lemma BeehiveRule(x: int, y: int)
    ensures NextCell(BeehiveAt(x, y), BeehiveNeighbors(x, y)) == BeehiveAt(x, y)
  {
  }

  /** One cell of the rectangle's first generation. */
  lemma RectangleCellStep(rows: nat, cols: nat, x: int, y: int)
    requires rows >= 8 && cols >= 8 && 0 <= x < rows && 0 <= y < cols
    ensures Step(Seeded(rows, cols, Rectangle()))[x][y] == Seeded(rows, cols, Beehive())[x][y]
  {
    var g := Seeded(rows, cols, Rectangle());
    StepAt(g, x, y);
    RectangleCount(rows, cols, x, y);
    RectangleValue(rows, cols, x, y);
    BeehiveValue(rows, cols, x, y);
    RectangleRule(x, y);
  }

  /** One cell of the beehive keeps its value. */
  lemma BeehiveCellStill(rows: nat, cols: nat, x: int, y: int)
    requires rows >= 8 && cols >= 8 && 0 <= x < rows && 0 <= y < cols
    ensures Step(Seeded(rows, cols, Beehive()))[x][y] == Seeded(rows, cols, Beehive())[x][y]
  {
    var g := Seeded(rows, cols, Beehive());
    StepAt(g, x, y);
    BeehiveCount(rows, cols, x, y);
    BeehiveValue(rows, cols, x, y);
    BeehiveRule(x, y);
  }

  /** The rectangle is not a still life: one step turns it into the beehive, which the step then
      leaves unchanged. */
  lemma RectangleBecomesBeehive(rows: nat, cols: nat)
    requires rows >= 8 && cols >= 8
    ensures Step(Seeded(rows, cols, Rectangle())) == Seeded(rows, cols, Beehive())
    ensures Step(Seeded(rows, cols, Beehive())) == Seeded(rows, cols, Beehive())
    ensures Step(Seeded(rows, cols, Rectangle())) != Seeded(rows, cols, Rectangle())
  {
    var g := Seeded(rows, cols, Rectangle());
    var h := Seeded(rows, cols, Beehive());
    forall x, y | 0 <= x < rows && 0 <= y < cols
      ensures Step(g)[x][y] == h[x][y] && Step(h)[x][y] == h[x][y]
    {
      RectangleCellStep(rows, cols, x, y);
      BeehiveCellStill(rows, cols, x, y);
    }
    SameCells(Step(g), h);
    SameCells(Step(h), h);
    BeehiveValue(rows, cols, 6, 4);
    RectangleValue(rows, cols, 6, 4);
  }

  /** Evolving n + 1 generations is evolving n generations from the first one. */
  lemma {:induction false} EvolveFromFirst(g: Grid, n: nat)
    requires Rectangular(g)
    ensures Evolve(g, n + 1) == Evolve(Step(g), n)
  {
    if n > 0 {
      EvolveFromFirst(g, n - 1);
    }
  }

  /** Every generation of the rectangle is the beehive. */
  lemma RectangleEvolves(rows: nat, cols: nat, k: nat)
    requires rows >= 8 && cols >= 8
    ensures Evolve(Seeded(rows, cols, Rectangle()), k + 1) == Seeded(rows, cols, Beehive())
  {
    var g := Seeded(rows, cols, Rectangle());
    var h := Seeded(rows, cols, Beehive());
    RectangleBecomesBeehive(rows, cols);
    EvolveFromFirst(g, k);
    FixedPointForever(h, k);
  }

  /** The beehive's board reports exactly the beehive's six cells. */
  lemma BeehiveLiveCells(rows: nat, cols: nat)
    requires rows >= 8 && cols >= 8
    ensures LiveCells(Seeded(rows, cols, Beehive())) == Beehive()
  {
    var h := Seeded(rows, cols, Beehive());
    forall c ensures c in LiveCells(h) <==> c in Beehive() {
      BeehiveValue(rows, cols, c.0, c.1);
    }
    RowMajorUnique(LiveCells(h), Beehive());
  }

  /** The beehive has (6, 4), which the rectangle lacks, and lacks (6, 5), which the rectangle has. */
  lemma BeehiveDiffers()
    ensures (6, 4) in Beehive() && (6, 4) !in Rectangle()
    ensures (6, 5) !in Beehive() && (6, 5) in Rectangle()
  {
  }

  /** With the second example seed every generation reports the beehive,
      [[5, 5], [5, 6], [6, 4], [6, 7], [7, 5], [7, 6]]: from generation 1 on, (6, 4) is alive,
      where the seed has a dead cell, and (6, 5) is dead, where the seed has a live one. */
  lemma RectangleReports(rows: nat, cols: nat, n: nat)
    requires rows >= 8 && cols >= 8
    ensures forall k :: 0 <= k < n ==>
      Reports(Seeded(rows, cols, Rectangle()), n)[k] == Report(k + 1, Beehive())
    ensures forall k :: 0 <= k < n ==>
      var live := Reports(Seeded(rows, cols, Rectangle()), n)[k].live;
      (6, 4) in live && (6, 4) !in Rectangle() && (6, 5) !in live && (6, 5) in Rectangle()
  {
    var g := Seeded(rows, cols, Rectangle());
    BeehiveLiveCells(rows, cols);
    BeehiveDiffers();
    forall k | 0 <= k < n
      ensures Reports(g, n)[k] == Report(k + 1, Beehive())
    {
      RectangleEvolves(rows, cols, k);
    }
  }
}
