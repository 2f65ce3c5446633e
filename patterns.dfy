/**
 * Concrete grids and what one generation does to them: an isolated cell,
 * a row of three on the smallest torus where all eight neighbours are
 * distinct, the block still life and the blinker oscillator, and what the
 * neighbour count does on tori narrower than three cells.
 */
module Patterns {
  import opened LifeRules

  // ---------------------------------------------------------------------
  // Checking one generation cell by cell
  // ---------------------------------------------------------------------

  /** The first n cells of row i of `h` are what one generation makes of `g`. */
  predicate RowSteps(g: Grid, h: Grid, x: nat, y: nat, i: nat, n: nat)
    requires IsGrid(g, x, y) && IsGrid(h, x, y) && i < x && n <= y
  {
    n == 0 || (RowSteps(g, h, x, y, i, n - 1) && NextCell(g, x, y, i, n - 1) == h[i][n - 1])
  }

  /** The first m rows of `h` are what one generation makes of `g`. */
  predicate RowsStep(g: Grid, h: Grid, x: nat, y: nat, m: nat)
    requires IsGrid(g, x, y) && IsGrid(h, x, y) && m <= x
  {
    m == 0 || (RowsStep(g, h, x, y, m - 1) && RowSteps(g, h, x, y, m - 1, y))
  }

  lemma {:induction false} RowStepsAt(g: Grid, h: Grid, x: nat, y: nat, i: nat, n: nat, j: nat)
    requires IsGrid(g, x, y) && IsGrid(h, x, y) && i < x && j < n <= y
    requires RowSteps(g, h, x, y, i, n)
    ensures NextCell(g, x, y, i, j) == h[i][j]
  {
    if j < n - 1 {
      RowStepsAt(g, h, x, y, i, n - 1, j);
    }
  }

  lemma {:induction false} RowsStepAt(g: Grid, h: Grid, x: nat, y: nat, m: nat, i: nat, j: nat)
    requires IsGrid(g, x, y) && IsGrid(h, x, y) && i < m <= x && j < y
    requires RowsStep(g, h, x, y, m)
    ensures NextCell(g, x, y, i, j) == h[i][j]
  {
    if i < m - 1 {
      RowsStepAt(g, h, x, y, m - 1, i, j);
    } else {
      RowStepsAt(g, h, x, y, i, y, j);
    }
  }

  /** A cell-by-cell check of every row is a proof that `h` is the next generation of `g`. */
  lemma Steps(g: Grid, h: Grid, x: nat, y: nat)
    requires IsGrid(g, x, y) && IsGrid(h, x, y)
    requires RowsStep(g, h, x, y, x)
    ensures NextGrid(g, x, y) == h
  {
    forall i, j | 0 <= i < x && 0 <= j < y
      ensures NextGrid(g, x, y)[i][j] == h[i][j]
    {
      RowsStepAt(g, h, x, y, x, i, j);
    }
    GridEquality(NextGrid(g, x, y), h, x, y);
  }

  // ---------------------------------------------------------------------
  // 3x3 grids
  // ---------------------------------------------------------------------

  const Dead3: Grid := [[false, false, false], [false, false, false], [false, false, false]]
  const Lone3: Grid := [[false, false, false], [false, true, false], [false, false, false]]
  const Row3: Grid := [[false, false, false], [true, true, true], [false, false, false]]
  const Full3: Grid := [[true, true, true], [true, true, true], [true, true, true]]

  /** An isolated cell dies of under-population and the grid empties. */
  lemma LoneCellDies()
    ensures NextGrid(Lone3, 3, 3) == Dead3
  {
    Steps(Lone3, Dead3, 3, 3);
  }

  /**
   * On the 3x3 torus every other cell is a neighbour: each cell of a full row
   * has 2 live neighbours, each other cell has 3.
   */
  lemma RowOfThreeCounts(i: nat, j: nat)
    requires i < 3 && j < 3
    ensures NeighborCount(Row3, 3, 3, i, j) == if i == 1 then 2 else 3
  {
    match (i, j)
    case (0, 0) => assert NeighborCount(Row3, 3, 3, 0, 0) == 3;
    case (0, 1) => assert NeighborCount(Row3, 3, 3, 0, 1) == 3;
    case (0, 2) => assert NeighborCount(Row3, 3, 3, 0, 2) == 3;
    case (1, 0) => assert NeighborCount(Row3, 3, 3, 1, 0) == 2;
    case (1, 1) => assert NeighborCount(Row3, 3, 3, 1, 1) == 2;
    case (1, 2) => assert NeighborCount(Row3, 3, 3, 1, 2) == 2;
    case (2, 0) => assert NeighborCount(Row3, 3, 3, 2, 0) == 3;
    case (2, 1) => assert NeighborCount(Row3, 3, 3, 2, 1) == 3;
    case (2, 2) => assert NeighborCount(Row3, 3, 3, 2, 2) == 3;
  }

  /** So each cell of the row survives, each other cell is born, and the grid fills. */
  lemma RowOfThreeFills()
    ensures NextGrid(Row3, 3, 3) == Full3
  {
    Steps(Row3, Full3, 3, 3);
  }

  /** A full 3x3 torus dies of over-population: every cell has 8 live neighbours. */
  lemma FullGridDies()
    ensures NextGrid(Full3, 3, 3) == Dead3
  {
    Steps(Full3, Dead3, 3, 3);
  }

  /** The corner (0, 0) of the 3x3 torus has the opposite corner and the far edges among its neighbours. */
  lemma CornerWraps()
    ensures NeighborPositions(3, 3, 0, 0) == [(2, 2), (2, 0), (2, 1), (0, 2), (0, 1), (1, 2), (1, 0), (1, 1)]
  {
  }

  // ---------------------------------------------------------------------
  // The block on a 4x4 torus
  // ---------------------------------------------------------------------

  const Block: Grid := [
    [true, true, false, false],
    [true, true, false, false],
    [false, false, false, false],
    [false, false, false, false]]

  // One lemma per row: each checks that row cell by cell, so that `BlockIsStill`
  // (and, below, the blinker's two steps) need not evaluate the whole grid in
  // one proof obligation.
  lemma BlockRow0()
    ensures RowSteps(Block, Block, 4, 4, 0, 4)
  {
  }

  lemma BlockRow1()
    ensures RowSteps(Block, Block, 4, 4, 1, 4)
  {
  }

  lemma BlockRow2()
    ensures RowSteps(Block, Block, 4, 4, 2, 4)
  {
  }

  lemma BlockRow3()
    ensures RowSteps(Block, Block, 4, 4, 3, 4)
  {
  }

  /** The block is a still life: each of its cells has exactly 3 live neighbours and no dead cell has 3. */
  lemma BlockIsStill()
    ensures NextGrid(Block, 4, 4) == Block
  {
    BlockRow0();
    BlockRow1();
    BlockRow2();
    BlockRow3();
    Steps(Block, Block, 4, 4);
  }

  /** So the block is final in every later generation too. */
  lemma BlockStaysForever(n: nat)
    ensures Generations(Block, 4, 4, n) == Block
  {
    BlockIsStill();
    FixedPointIsFinal(Block, 4, 4, n);
  }

  // ---------------------------------------------------------------------
  // The blinker on a 5x5 torus
  // ---------------------------------------------------------------------

  const BlinkerH: Grid := [
    [false, false, false, false, false],
    [false, false, false, false, false],
    [false, true, true, true, false],
    [false, false, false, false, false],
    [false, false, false, false, false]]

  const BlinkerV: Grid := [
    [false, false, false, false, false],
    [false, false, true, false, false],
    [false, false, true, false, false],
    [false, false, true, false, false],
    [false, false, false, false, false]]

  lemma BlinkerHorizontalRow0()
    ensures RowSteps(BlinkerH, BlinkerV, 5, 5, 0, 5)
  {
  }

  lemma BlinkerHorizontalRow1()
    ensures RowSteps(BlinkerH, BlinkerV, 5, 5, 1, 5)
  {
  }

  lemma BlinkerHorizontalRow2()
    ensures RowSteps(BlinkerH, BlinkerV, 5, 5, 2, 5)
  {
  }

  lemma BlinkerHorizontalRow3()
    ensures RowSteps(BlinkerH, BlinkerV, 5, 5, 3, 5)
  {
  }

  lemma BlinkerHorizontalRow4()
    ensures RowSteps(BlinkerH, BlinkerV, 5, 5, 4, 5)
  {
  }

  lemma BlinkerVerticalRow0()
    ensures RowSteps(BlinkerV, BlinkerH, 5, 5, 0, 5)
  {
  }

  lemma BlinkerVerticalRow1()
    ensures RowSteps(BlinkerV, BlinkerH, 5, 5, 1, 5)
  {
  }

  lemma BlinkerVerticalRow2()
    ensures RowSteps(BlinkerV, BlinkerH, 5, 5, 2, 5)
  {
  }

  lemma BlinkerVerticalRow3()
    ensures RowSteps(BlinkerV, BlinkerH, 5, 5, 3, 5)
  {
  }

  lemma BlinkerVerticalRow4()
    ensures RowSteps(BlinkerV, BlinkerH, 5, 5, 4, 5)
  {
  }

  lemma BlinkerTurns()
    ensures NextGrid(BlinkerH, 5, 5) == BlinkerV
  {
    BlinkerHorizontalRow0();
    BlinkerHorizontalRow1();
    BlinkerHorizontalRow2();
    BlinkerHorizontalRow3();
    BlinkerHorizontalRow4();
    Steps(BlinkerH, BlinkerV, 5, 5);
  }

  lemma BlinkerTurnsBack()
    ensures NextGrid(BlinkerV, 5, 5) == BlinkerH
  {
    BlinkerVerticalRow0();
    BlinkerVerticalRow1();
    BlinkerVerticalRow2();
    BlinkerVerticalRow3();
    BlinkerVerticalRow4();
    Steps(BlinkerV, BlinkerH, 5, 5);
  }

  /**
   * The blinker alternates between its two phases forever, and no
   * generation of it is final: the next one always differs.
   */
  lemma BlinkerNeverFinal(n: nat)
    ensures Generations(BlinkerH, 5, 5, n) == if n % 2 == 0 then BlinkerH else BlinkerV
    ensures NextGrid(Generations(BlinkerH, 5, 5, n), 5, 5) != Generations(BlinkerH, 5, 5, n)
  {
    BlinkerTurns();
    BlinkerTurnsBack();
    PeriodTwo(BlinkerH, BlinkerV, 5, 5, n);
    assert BlinkerH[2][1] != BlinkerV[2][1];
  }

  // ---------------------------------------------------------------------
  // Tori narrower than three cells
  // ---------------------------------------------------------------------

  /**
   * On a 1x1 torus all nine window steps wrap onto the cell itself, so the
   * engine counts no neighbour at all, although all eight offsets name the
   * live cell: the cell dies.
   */
  lemma SingleCellTorus()
    ensures NeighborCount([[true]], 1, 1, 0, 0) == 0
    ensures LiveNeighbors([[true]], 1, 1, 0, 0) == 8
    ensures NextGrid([[true]], 1, 1) == [[false]]
  {
    assert NextCell([[true]], 1, 1, 0, 0) == false;
    GridEquality(NextGrid([[true]], 1, 1), [[false]], 1, 1);
  }

  /** On a 2x2 torus the one diagonal cell is reached by four window steps and counted four times. */
  lemma TwoByTwoCountsRepeats()
    ensures NeighborCount([[false, false], [false, true]], 2, 2, 0, 0) == 4
  {
  }
}
