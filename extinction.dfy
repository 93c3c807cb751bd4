/** Extinction: once no cell is alive, no cell is ever alive again, and every later report of a
    run is empty. */
module Extinction {
  import opened Board
  import opened RuleEngine
  import opened Simulator

  /** A board of 0s and 1s without live cells is followed by one without live cells. */
  lemma DeadBoardStaysDead(b: Grid)
    requires Rectangular(b) && Binary(b)
    requires LiveCells(b) == []
    ensures LiveCells(Step(b)) == []
  {
    forall x, y | InGrid(b, x, y)
      ensures !IsLive(b, x, y)
    {
      assert (x, y) !in LiveCells(b);
    }
    NoLiveCellIsEmpty(b);
    StepOfEmpty(b);
    EmptyHasNoLiveCells(Step(b));
  }

  /** An all-dead board reports no live cell. */
  lemma EmptyHasNoLiveCells(g: Grid)
    requires Rectangular(g) && Empty(g)
    ensures LiveCells(g) == []
  {
    RowMajorUnique(LiveCells(g), []);
  }

  /** Once a generation has no live cell, no later generation has one. */
  lemma {:induction false} ExtinctFrom(g: Grid, a: nat, b: nat)
    requires Rectangular(g) && 1 <= a <= b
    requires LiveCells(Evolve(g, a)) == []
    ensures LiveCells(Evolve(g, b)) == []
    decreases b
  {
    if b == a {
    } else {
      ExtinctFrom(g, a, b - 1);
      var e := Evolve(g, b - 1);
      assert Binary(e);
      DeadBoardStaysDead(e);
      assert Evolve(g, b) == Step(e);
    }
  }

  /** Once a report is empty, so is every later one. */
  lemma ExtinctionIsPermanent(g: Grid, n: nat, k: nat, m: nat)
    requires Rectangular(g) && k <= m < n
    requires Reports(g, n)[k].live == []
    ensures Reports(g, n)[m].live == []
  {
    ExtinctFrom(g, k + 1, m + 1);
  }
}
