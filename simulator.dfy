/** The driver: seed a board from a list of live coordinates, then replace the board by its next
    generation the requested number of times, reporting the live cells after each step. */
module Simulator {
  import opened Board
  import opened NeighborCounter
  import opened RuleEngine

  type Coord = (int, int)

  /** What one generation reports: its number (from 1) and its live cells in row-major order. */
  datatype Report = Report(generation: nat, live: seq<Coord>)

  predicate InBounds(c: Coord, rows: int, cols: int) {
    0 <= c.0 < rows && 0 <= c.1 < cols
  }

  /** Row-major order: every cell of row r comes before row r + 1, and within a row column c
      before column c + 1. */
  predicate Before(p: Coord, q: Coord) {
    p.0 < q.0 || (p.0 == q.0 && p.1 < q.1)
  }

  predicate StrictlyRowMajor(s: seq<Coord>) {
    forall a, b :: 0 <= a < b < |s| ==> Before(s[a], s[b])
  }

  /** The board seeding produces: rows x cols cells, a cell alive exactly when its coordinate is
      listed. */
  function Seeded(rows: nat, cols: nat, cells: seq<Coord>): (g: Grid)
    ensures |g| == rows && Rectangular(g) && (rows > 0 ==> Cols(g) == cols)
    ensures forall x :: 0 <= x < rows ==> |g[x]| == cols
    ensures Binary(g)
  {
    seq(rows, x => seq(cols, y => if (x, y) in cells then 1 else 0))
  }

  /** The seeding loop: an all-dead board, then a 1 written at each listed coordinate in turn. */
  method SeedBoard(rows: nat, cols: nat, initial: seq<Coord>) returns (board: array2<int>)
    requires forall c :: c in initial ==> InBounds(c, rows, cols)
    ensures fresh(board) && board.Length0 == rows && board.Length1 == cols
    ensures forall x, y :: 0 <= x < rows && 0 <= y < cols ==>
      (board[x, y] == 1 <==> (x, y) in initial) && (board[x, y] == 0 <==> (x, y) !in initial)
    ensures Snapshot(board) == Seeded(rows, cols, initial)
  {
    board := new int[rows, cols]((_, _) => 0);
    for k := 0 to |initial|
      invariant forall x, y :: 0 <= x < rows && 0 <= y < cols ==>
        board[x, y] == if (x, y) in initial[..k] then 1 else 0
    {
      assert initial[..k + 1] == initial[..k] + [initial[k]];
      assert initial[k] in initial;
      board[initial[k].0, initial[k].1] := 1;
    }
    assert initial[..|initial|] == initial;
    SameCells(Snapshot(board), Seeded(rows, cols, initial));
  }

  /** Seeding depends only on which coordinates are listed: order and repetitions do not matter. */
  lemma SeedingIgnoresOrderAndDuplicates(rows: nat, cols: nat, s: seq<Coord>, t: seq<Coord>)
    requires forall c :: c in s <==> c in t
    ensures Seeded(rows, cols, s) == Seeded(rows, cols, t)
  {
    SameCells(Seeded(rows, cols, s), Seeded(rows, cols, t));
  }

  /** The live cells of g from position (i, j) on, in row-major order. */
  function LiveFrom(g: Grid, i: nat, j: nat): (s: seq<Coord>)
    requires Rectangular(g) && j <= Cols(g)
    ensures forall c :: c in s <==>
      IsLive(g, c.0, c.1) && (c.0 > i || (c.0 == i && c.1 >= j))
    ensures StrictlyRowMajor(s)
    decreases |g| - i, Cols(g) - j
  {
    if i >= |g| then []
    else if j == Cols(g) then LiveFrom(g, i + 1, 0)
    else
      var rest := LiveFrom(g, i, j + 1);
      if g[i][j] == 1 then [(i, j)] + rest else rest
  }

  /** The live-cell list of one report: every live cell of g and nothing else, in strictly
      increasing row-major order (so without repetitions). */
  function LiveCells(g: Grid): (s: seq<Coord>)
    requires Rectangular(g)
    ensures forall c :: c in s <==> IsLive(g, c.0, c.1)
    ensures StrictlyRowMajor(s)
  {
    LiveFrom(g, 0, 0)
  }

  /** The board after n generations. */
  function Evolve(g: Grid, n: nat): (r: Grid)
    requires Rectangular(g)
    ensures |r| == |g| && Rectangular(r) && Cols(r) == Cols(g)
    ensures n > 0 ==> Binary(r)
  {
    if n == 0 then g else Step(Evolve(g, n - 1))
  }

  /** The reports of n generations started from g. */
  function Reports(g: Grid, n: nat): (rs: seq<Report>)
    requires Rectangular(g)
    ensures |rs| == n
    ensures forall k :: 0 <= k < n ==>
      rs[k].generation == k + 1 && rs[k].live == LiveCells(Evolve(g, k + 1))
  {
    if n == 0 then [] else Reports(g, n - 1) + [Report(n, LiveCells(Evolve(g, n)))]
  }

  /** `conways_game_of_life` on a rows x cols board: seed it, then `generations` times replace the
      board by its next generation and report its live cells. A count below 1 gives no report,
      as an empty `range` does. */
  method Run(rows: nat, cols: nat, initial: seq<Coord>, generations: int) returns (reports: seq<Report>)
    requires rows > 0 && cols > 0
    requires forall c :: c in initial ==> InBounds(c, rows, cols)
    ensures generations <= 0 ==> reports == []
    ensures generations > 0 ==> |reports| == generations
    ensures reports == Reports(Seeded(rows, cols, initial), if generations < 0 then 0 else generations)
  {
    var board := SeedBoard(rows, cols, initial);
    ghost var start := Snapshot(board);
    reports := [];
    var generation := 0;
    while generation < generations
      invariant 0 <= generation <= (if generations < 0 then 0 else generations)
      invariant board.Length0 == rows && board.Length1 == cols
      invariant Snapshot(board) == Evolve(start, generation)
      invariant reports == Reports(start, generation)
    {
      board := ApplyRules(board);
      var live := LiveCells(Snapshot(board));
      reports := reports + [Report(generation + 1, live)];
      generation := generation + 1;
    }
  }

  /** Two strictly row-major lists with the same elements are the same list. */
  lemma {:induction false} RowMajorUnique(s: seq<Coord>, t: seq<Coord>)
    requires StrictlyRowMajor(s) && StrictlyRowMajor(t)
    requires forall c :: c in s <==> c in t
    ensures s == t
  {
    assert s == [] <==> t == [] by {
      if s != [] {
        assert s[0] in t;
      }
      if t != [] {
        assert t[0] in s;
      }
    }
    if s != [] {
      assert s[0] == t[0] by {
        assert s[0] in t;
        var k :| 0 <= k < |t| && t[k] == s[0];
        assert k == 0 || Before(t[0], t[k]);
        assert t[0] in s;
        var l :| 0 <= l < |s| && s[l] == t[0];
        assert l == 0 || Before(s[0], s[l]);
      }
      forall c ensures c in s[1..] <==> c in t[1..] {
        if c in s[1..] {
          var k :| 0 <= k < |s[1..]| && s[1..][k] == c;
          assert Before(s[0], s[k + 1]);
        }
        if c in t[1..] {
          var k :| 0 <= k < |t[1..]| && t[1..][k] == c;
          assert Before(t[0], t[k + 1]);
        }
        assert c in s <==> c == s[0] || c in s[1..] by { assert s == [s[0]] + s[1..]; }
        assert c in t <==> c == t[0] || c in t[1..] by { assert t == [t[0]] + t[1..]; }
      }
      RowMajorUnique(s[1..], t[1..]);
      assert s == [s[0]] + s[1..] && t == [t[0]] + t[1..];
    }
  }
}
