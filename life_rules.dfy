/**
 * The Game of Life rule on an x-by-y torus, stated on values: the grid, the
 * neighbour count the engine computes, the B3/S23 decision for one cell, the
 * next generation, and the screen calls that draw a grid.
 */
module LifeRules {
  import opened Display

  /** A grid: `g[i][j]` is the cell at x-index i and y-index j, true when alive. */
  type Grid = seq<seq<bool>>

  /** `g` has x rows of y cells each. */
  predicate IsGrid(g: Grid, x: nat, y: nat) {
    |g| == x && forall i :: 0 <= i < x ==> |g[i]| == y
  }

  /** The x-by-y grid with every cell dead. */
  function AllDead(x: nat, y: nat): (g: Grid)
    ensures IsGrid(g, x, y)
    ensures forall i, j :: 0 <= i < x && 0 <= j < y ==> !g[i][j]
  {
    seq(x, _ => seq(y, _ => false))
  }

  /** Two grids of the same shape are equal exactly when they agree cell by cell. */
  lemma GridEquality(g: Grid, h: Grid, x: nat, y: nat)
    requires IsGrid(g, x, y) && IsGrid(h, x, y)
    ensures g == h <==> forall i, j :: 0 <= i < x && 0 <= j < y ==> g[i][j] == h[i][j]
  {
    if forall i, j :: 0 <= i < x && 0 <= j < y ==> g[i][j] == h[i][j] {
      forall i | 0 <= i < x
        ensures g[i] == h[i]
      {
        assert forall j :: 0 <= j < y ==> g[i][j] == h[i][j];
      }
    }
  }

  // ---------------------------------------------------------------------
  // The cell rule
  // ---------------------------------------------------------------------

  const UnderPopulationThreshold: nat := 2
  const OverPopulationThreshold: nat := 3
  const ReproductionThreshold: nat := 3

  /**
   * Whether a cell is alive in the next generation, given whether it is
   * alive now and how many live neighbours it has: fewer than the
   * under-population threshold or more than the over-population threshold
   * kills it, and a dead cell is born only at the reproduction count.
   */
  function NewCellValue(alive: bool, neighbors: nat): (r: bool)
    ensures r <==> (alive && (neighbors == 2 || neighbors == 3)) || (!alive && neighbors == 3)
  {
    if neighbors < UnderPopulationThreshold || neighbors > OverPopulationThreshold then
      false
    else if !alive && neighbors != ReproductionThreshold then
      false
    else
      true
  }

  // ---------------------------------------------------------------------
  // Neighbour count, as the engine computes it
  // ---------------------------------------------------------------------

  /** The index reached from i by the window step d in 0..2 (offset d - 1), wrapped modulo n. */
  function WindowIndex(i: nat, n: nat, d: nat): nat
    requires i < n
  {
    (i + n - 1 + d) % n
  }

  /**
   * What the window step (dx, dy) adds to the count of (i, j): nothing when
   * the wrapped position is (i, j) itself, otherwise one for a live cell.
   */
  function Contribution(g: Grid, x: nat, y: nat, i: nat, j: nat, dx: nat, dy: nat): nat
    requires IsGrid(g, x, y) && i < x && j < y
  {
    var ax := WindowIndex(i, x, dx);
    var ay := WindowIndex(j, y, dy);
    if i == ax && j == ay then 0 else if g[ax][ay] then 1 else 0
  }

  /** The sum of the first n steps dy of the window row dx. */
  function WindowRow(g: Grid, x: nat, y: nat, i: nat, j: nat, dx: nat, n: nat): nat
    requires IsGrid(g, x, y) && i < x && j < y
  {
    if n == 0 then 0 else WindowRow(g, x, y, i, j, dx, n - 1) + Contribution(g, x, y, i, j, dx, n - 1)
  }

  /** The sum of the first m full rows of the 3x3 window. */
  function Window(g: Grid, x: nat, y: nat, i: nat, j: nat, m: nat): nat
    requires IsGrid(g, x, y) && i < x && j < y
  {
    if m == 0 then 0 else Window(g, x, y, i, j, m - 1) + WindowRow(g, x, y, i, j, m - 1, 3)
  }

  /**
   * The number of live neighbours of (i, j): the whole 3x3 window around
   * it, each position wrapped, every position that wraps onto (i, j) skipped.
   */
  function NeighborCount(g: Grid, x: nat, y: nat, i: nat, j: nat): nat
    requires IsGrid(g, x, y) && i < x && j < y
  {
    Window(g, x, y, i, j, 3)
  }

  /** Where the window step d lands, for every size of the axis. */
  lemma WindowIndexValue(i: nat, n: nat, d: nat)
    requires i < n && d <= 2
    ensures WindowIndex(i, n, d) == (i as int + d - 1) % n
    ensures WindowIndex(i, n, d) ==
      if d == 0 then (if i == 0 then n - 1 else i - 1)
      else if d == 1 then i
      else (if i == n - 1 then 0 else i + 1)
  {
    ModInRange(i + n - 1 + d, n);
    ModInRange(i as int + d - 1, n);
  }

  lemma ModInRange(v: int, n: int)
    requires 0 < n && -n <= v <= 2 * n
    ensures v % n == if v < 0 then v + n else if v < n then v else if v < 2 * n then v - n else 0
  {
  }

  /** The three steps of window row dx, written out. */
  lemma WindowRowSum(g: Grid, x: nat, y: nat, i: nat, j: nat, dx: nat)
    requires IsGrid(g, x, y) && i < x && j < y
    ensures WindowRow(g, x, y, i, j, dx, 3) ==
      Contribution(g, x, y, i, j, dx, 0) + Contribution(g, x, y, i, j, dx, 1) + Contribution(g, x, y, i, j, dx, 2)
  {
    assert WindowRow(g, x, y, i, j, dx, 1) == Contribution(g, x, y, i, j, dx, 0);
  }

  /** The nine steps of the window, written out; the centre step always wraps onto the cell and adds nothing. */
  lemma NeighborCountSum(g: Grid, x: nat, y: nat, i: nat, j: nat)
    requires IsGrid(g, x, y) && i < x && j < y
    ensures Contribution(g, x, y, i, j, 1, 1) == 0
    ensures NeighborCount(g, x, y, i, j) ==
      Contribution(g, x, y, i, j, 0, 0) + Contribution(g, x, y, i, j, 0, 1) + Contribution(g, x, y, i, j, 0, 2) +
      Contribution(g, x, y, i, j, 1, 0) + Contribution(g, x, y, i, j, 1, 2) +
      Contribution(g, x, y, i, j, 2, 0) + Contribution(g, x, y, i, j, 2, 1) + Contribution(g, x, y, i, j, 2, 2)
  {
    WindowIndexValue(i, x, 1);
    WindowIndexValue(j, y, 1);
    WindowRowSum(g, x, y, i, j, 0);
    WindowRowSum(g, x, y, i, j, 1);
    WindowRowSum(g, x, y, i, j, 2);
    assert Window(g, x, y, i, j, 1) == WindowRow(g, x, y, i, j, 0, 3);
    assert Window(g, x, y, i, j, 2) == Window(g, x, y, i, j, 1) + WindowRow(g, x, y, i, j, 1, 3);
    assert Window(g, x, y, i, j, 3) == Window(g, x, y, i, j, 2) + WindowRow(g, x, y, i, j, 2, 3);
  }

  /** The count never exceeds 8: nine window positions, and the centre is never counted. */
  lemma NeighborCountBound(g: Grid, x: nat, y: nat, i: nat, j: nat)
    requires IsGrid(g, x, y) && i < x && j < y
    ensures NeighborCount(g, x, y, i, j) <= 8
  {
    NeighborCountSum(g, x, y, i, j);
  }

  // ---------------------------------------------------------------------
  // The eight toroidal neighbours, as a reference definition
  // ---------------------------------------------------------------------

  /** The eight offsets (di, dj) != (0, 0), in the order the engine's window visits them. */
  const Offsets: seq<(int, int)> := [(-1, -1), (-1, 0), (-1, 1), (0, -1), (0, 1), (1, -1), (1, 0), (1, 1)]

  /** The position ((i + di) mod x, (j + dj) mod y) of each offset: the toroidal neighbours of (i, j). */
  function NeighborPositions(x: nat, y: nat, i: nat, j: nat): (ps: seq<(nat, nat)>)
    requires 0 < x && 0 < y
    ensures |ps| == 8
    ensures forall k :: 0 <= k < 8 ==> ps[k].0 < x && ps[k].1 < y
  {
    seq(8, k requires 0 <= k < 8 =>
      (((i as int + Offsets[k].0) % x) as nat, ((j as int + Offsets[k].1) % y) as nat))
  }

  /** One for a live cell at p, zero for a dead one. */
  function LiveAt(g: Grid, x: nat, y: nat, p: (nat, nat)): nat
    requires IsGrid(g, x, y) && p.0 < x && p.1 < y
  {
    if g[p.0][p.1] then 1 else 0
  }

  /** How many of the first n positions of `ps` hold a live cell, a repeated position counted each time. */
  function LiveAmong(g: Grid, x: nat, y: nat, ps: seq<(nat, nat)>, n: nat): nat
    requires IsGrid(g, x, y) && n <= |ps|
    requires forall k :: 0 <= k < |ps| ==> ps[k].0 < x && ps[k].1 < y
  {
    if n == 0 then 0 else LiveAmong(g, x, y, ps, n - 1) + LiveAt(g, x, y, ps[n - 1])
  }

  /** The number of live cells among the eight toroidal neighbour positions of (i, j). */
  function LiveNeighbors(g: Grid, x: nat, y: nat, i: nat, j: nat): nat
    requires IsGrid(g, x, y) && i < x && j < y
  {
    var ps := NeighborPositions(x, y, i, j);
    LiveAmong(g, x, y, ps, 8)
  }

  /** A count over eight positions, written out. */
  lemma LiveAmongEight(g: Grid, x: nat, y: nat, ps: seq<(nat, nat)>)
    requires IsGrid(g, x, y) && |ps| == 8
    requires forall k :: 0 <= k < |ps| ==> ps[k].0 < x && ps[k].1 < y
    ensures LiveAmong(g, x, y, ps, 8) ==
      LiveAt(g, x, y, ps[0]) + LiveAt(g, x, y, ps[1]) + LiveAt(g, x, y, ps[2]) + LiveAt(g, x, y, ps[3]) +
      LiveAt(g, x, y, ps[4]) + LiveAt(g, x, y, ps[5]) + LiveAt(g, x, y, ps[6]) + LiveAt(g, x, y, ps[7])
  {
    assert LiveAmong(g, x, y, ps, 1) == LiveAt(g, x, y, ps[0]);
    assert LiveAmong(g, x, y, ps, 2) == LiveAt(g, x, y, ps[0]) + LiveAt(g, x, y, ps[1]);
    assert LiveAmong(g, x, y, ps, 4) == LiveAmong(g, x, y, ps, 2) + LiveAt(g, x, y, ps[2]) + LiveAt(g, x, y, ps[3]);
    assert LiveAmong(g, x, y, ps, 6) == LiveAmong(g, x, y, ps, 4) + LiveAt(g, x, y, ps[4]) + LiveAt(g, x, y, ps[5]);
  }

  /** With at least two cells on each axis, window step (dx, dy) other than the centre counts neighbour k. */
  lemma ContributionIsNeighbor(g: Grid, x: nat, y: nat, i: nat, j: nat, dx: nat, dy: nat, k: nat)
    requires IsGrid(g, x, y) && i < x && j < y && 2 <= x && 2 <= y
    requires dx <= 2 && dy <= 2 && (dx, dy) != (1, 1) && k < 8
    requires Offsets[k] == (dx as int - 1, dy as int - 1)
    ensures Contribution(g, x, y, i, j, dx, dy) == LiveAt(g, x, y, NeighborPositions(x, y, i, j)[k])
  {
    WindowIndexValue(i, x, dx);
    WindowIndexValue(j, y, dy);
  }

  /**
   * Once both axes have at least two cells, no window step other than the
   * centre wraps onto the cell, so the engine's count is the number of live
   * cells among the eight toroidal neighbour positions (with repetition when
   * an axis has exactly two cells).
   */
  lemma NeighborCountIsLiveNeighbors(g: Grid, x: nat, y: nat, i: nat, j: nat)
    requires IsGrid(g, x, y) && i < x && j < y
    requires 2 <= x && 2 <= y
    ensures NeighborCount(g, x, y, i, j) == LiveNeighbors(g, x, y, i, j)
  {
    NeighborCountSum(g, x, y, i, j);
    LiveAmongEight(g, x, y, NeighborPositions(x, y, i, j));
    ContributionIsNeighbor(g, x, y, i, j, 0, 0, 0);
    ContributionIsNeighbor(g, x, y, i, j, 0, 1, 1);
    ContributionIsNeighbor(g, x, y, i, j, 0, 2, 2);
    ContributionIsNeighbor(g, x, y, i, j, 1, 0, 3);
    ContributionIsNeighbor(g, x, y, i, j, 1, 2, 4);
    ContributionIsNeighbor(g, x, y, i, j, 2, 0, 5);
    ContributionIsNeighbor(g, x, y, i, j, 2, 1, 6);
    ContributionIsNeighbor(g, x, y, i, j, 2, 2, 7);
  }

  /**
   * On a torus at least 3 cells wide and high, the eight neighbour positions
   * are pairwise distinct and none of them is the cell itself.
   */
  lemma NeighborPositionsDistinct(x: nat, y: nat, i: nat, j: nat)
    requires i < x && j < y && 3 <= x && 3 <= y
    ensures forall k :: 0 <= k < 8 ==> NeighborPositions(x, y, i, j)[k] != (i, j)
    ensures forall k, l :: 0 <= k < l < 8 ==> NeighborPositions(x, y, i, j)[k] != NeighborPositions(x, y, i, j)[l]
  {
    var ps := NeighborPositions(x, y, i, j);
    forall k | 0 <= k < 8
      ensures ps[k] != (i, j)
    {
      if Offsets[k].0 != 0 {
        WrapInjective(i, x, Offsets[k].0, 0);
      } else {
        WrapInjective(j, y, Offsets[k].1, 0);
      }
    }
    forall k, l | 0 <= k < l < 8
      ensures ps[k] != ps[l]
    {
      if Offsets[k].0 != Offsets[l].0 {
        WrapInjective(i, x, Offsets[k].0, Offsets[l].0);
      } else {
        WrapInjective(j, y, Offsets[k].1, Offsets[l].1);
      }
    }
  }

  /** On an axis of at least 3 cells, the offsets -1, 0 and 1 from i wrap to three different indices. */
  lemma WrapInjective(i: nat, n: nat, a: int, b: int)
    requires i < n && 3 <= n && -1 <= a <= 1 && -1 <= b <= 1 && a != b
    ensures (i + a) % n != (i + b) % n
  {
    ModInRange(i + a, n);
    ModInRange(i + b, n);
  }

  // ---------------------------------------------------------------------
  // Generations
  // ---------------------------------------------------------------------

  /** Whether cell (i, j) of `g` is alive in the next generation. */
  function NextCell(g: Grid, x: nat, y: nat, i: nat, j: nat): bool
    requires IsGrid(g, x, y) && i < x && j < y
  {
    NewCellValue(g[i][j], NeighborCount(g, x, y, i, j))
  }

  /** The next generation: every cell decided from the same, unchanged grid `g`. */
  function NextGrid(g: Grid, x: nat, y: nat): (r: Grid)
    requires IsGrid(g, x, y)
    ensures IsGrid(r, x, y)
  {
    seq(x, i requires 0 <= i < x => seq(y, j requires 0 <= j < y => NextCell(g, x, y, i, j)))
  }

  /** The grid after n generations. */
  function Generations(g: Grid, x: nat, y: nat, n: nat): (r: Grid)
    requires IsGrid(g, x, y)
    ensures IsGrid(r, x, y)
    decreases n
  {
    if n == 0 then g else Generations(NextGrid(g, x, y), x, y, n - 1)
  }

  /** The empty grid is a fixed point on every torus: no cell has a live neighbour, so none is born. */
  lemma AllDeadIsFixed(x: nat, y: nat)
    ensures NextGrid(AllDead(x, y), x, y) == AllDead(x, y)
  {
    var g := AllDead(x, y);
    forall i, j | 0 <= i < x && 0 <= j < y
      ensures NextGrid(g, x, y)[i][j] == g[i][j]
    {
      NeighborCountSum(g, x, y, i, j);
    }
    GridEquality(NextGrid(g, x, y), g, x, y);
  }

  /** A fixed point stays fixed: once the next generation equals the grid, every later one does. */
  lemma {:induction false} FixedPointIsFinal(g: Grid, x: nat, y: nat, n: nat)
    requires IsGrid(g, x, y) && NextGrid(g, x, y) == g
    ensures Generations(g, x, y, n) == g
  {
    if n > 0 {
      FixedPointIsFinal(g, x, y, n - 1);
    }
  }

  /**
   * A pattern of period 2 alternates forever: after an even number of
   * generations it is back to `g`, after an odd number it is `h`.
   */
  lemma {:induction false} PeriodTwo(g: Grid, h: Grid, x: nat, y: nat, n: nat)
    requires IsGrid(g, x, y) && IsGrid(h, x, y)
    requires NextGrid(g, x, y) == h && NextGrid(h, x, y) == g
    ensures Generations(g, x, y, n) == if n % 2 == 0 then g else h
  {
    if n >= 2 {
      PeriodTwo(g, h, x, y, n - 2);
      assert Generations(g, x, y, n) == Generations(g, x, y, n - 2) by {
        GenerationsSplit(g, x, y, 2, n - 2);
      }
    } else if n == 1 {
      assert Generations(g, x, y, 1) == Generations(h, x, y, 0);
    }
  }

  /** Running m generations and then n more is running m + n. */
  lemma {:induction false} GenerationsSplit(g: Grid, x: nat, y: nat, m: nat, n: nat)
    requires IsGrid(g, x, y)
    ensures Generations(g, x, y, m + n) == Generations(Generations(g, x, y, m), x, y, n)
    decreases m
  {
    if m > 0 {
      GenerationsSplit(NextGrid(g, x, y), x, y, m - 1, n);
    }
  }

  // ---------------------------------------------------------------------
  // Drawing a grid
  // ---------------------------------------------------------------------

  /** The colour a cell is drawn in. */
  function ColorOf(alive: bool): (c: Color)
    ensures c == White <==> alive
  {
    if alive then White else Black
  }

  /** The SetPixel calls for the first n cells of row i, in order. */
  function PaintRow(g: Grid, i: nat, n: nat): seq<Event>
    requires i < |g| && n <= |g[i]|
  {
    if n == 0 then [] else PaintRow(g, i, n - 1) + [SetPixel(i, n - 1, ColorOf(g[i][n - 1]))]
  }

  /** The SetPixel calls for the first m full rows, row after row. */
  function PaintRows(g: Grid, x: nat, y: nat, m: nat): seq<Event>
    requires IsGrid(g, x, y) && m <= x
  {
    if m == 0 then [] else PaintRows(g, x, y, m - 1) + PaintRow(g, m - 1, y)
  }

  /** The SetPixel calls that draw the whole grid, row-major. */
  function Paint(g: Grid, x: nat, y: nat): seq<Event>
    requires IsGrid(g, x, y)
  {
    PaintRows(g, x, y, x)
  }

  lemma {:induction false} PaintRowAt(g: Grid, i: nat, n: nat)
    requires i < |g| && n <= |g[i]|
    ensures |PaintRow(g, i, n)| == n
    ensures forall j :: 0 <= j < n ==> PaintRow(g, i, n)[j] == SetPixel(i, j, ColorOf(g[i][j]))
  {
    if n > 0 {
      PaintRowAt(g, i, n - 1);
    }
  }

  lemma {:induction false} PaintRowsLength(g: Grid, x: nat, y: nat, m: nat)
    requires IsGrid(g, x, y) && m <= x
    ensures |PaintRows(g, x, y, m)| == m * y
  {
    if m > 0 {
      PaintRowsLength(g, x, y, m - 1);
      PaintRowAt(g, m - 1, y);
      RowStart(m - 1, y);
    }
  }

  lemma {:induction false} PaintRowsCell(g: Grid, x: nat, y: nat, m: nat, i: nat, j: nat)
    requires IsGrid(g, x, y) && i < m <= x && j < y
    ensures |PaintRows(g, x, y, m)| == m * y && i * y + j < m * y
    ensures PaintRows(g, x, y, m)[i * y + j] == SetPixel(i, j, ColorOf(g[i][j]))
  {
    PaintRowsLength(g, x, y, m - 1);
    PaintRowsLength(g, x, y, m);
    PaintRowAt(g, m - 1, y);
    RowStart(i, y);
    RowsBefore(i, m, y);
    var prefix := PaintRows(g, x, y, m - 1);
    assert PaintRows(g, x, y, m) == prefix + PaintRow(g, m - 1, y);
    if i < m - 1 {
      PaintRowsCell(g, x, y, m - 1, i, j);
    } else {
      assert i * y + j == |prefix| + j;
    }
  }

  lemma RowStart(i: nat, y: nat)
    ensures (i + 1) * y == i * y + y
  {
  }

  lemma RowsBefore(i: nat, m: nat, y: nat)
    requires i < m
    ensures (i + 1) * y <= m * y
  {
  }

  /** Drawing a grid is x * y calls. */
  lemma PaintLength(g: Grid, x: nat, y: nat)
    requires IsGrid(g, x, y)
    ensures |Paint(g, x, y)| == x * y
  {
    PaintRowsLength(g, x, y, x);
  }

  /**
   * In a drawing, the call at position i * y + j is the SetPixel for cell
   * (i, j), coloured White when it is alive and Black when it is dead.
   */
  lemma PaintAt(g: Grid, x: nat, y: nat, i: nat, j: nat)
    requires IsGrid(g, x, y) && i < x && j < y
    ensures i * y + j < |Paint(g, x, y)|
    ensures Paint(g, x, y)[i * y + j] == SetPixel(i, j, ColorOf(g[i][j]))
  {
    PaintRowsCell(g, x, y, x, i, j);
  }

  /** Clearing the screen paints cell (i, j) black, at position i * y + j. */
  lemma ClearPaintIsBlack(x: nat, y: nat, i: nat, j: nat)
    requires i < x && j < y
    ensures i * y + j < |Paint(AllDead(x, y), x, y)|
    ensures Paint(AllDead(x, y), x, y)[i * y + j] == SetPixel(i, j, Black)
  {
    PaintAt(AllDead(x, y), x, y, i, j);
  }

  /** Every call in a drawing is a SetPixel, and the call at position k is for cell (k / y, k % y). */
  lemma PaintIsRowMajor(g: Grid, x: nat, y: nat, k: nat)
    requires IsGrid(g, x, y) && k < |Paint(g, x, y)|
    ensures 0 < y && k / y < x
    ensures Paint(g, x, y)[k] == SetPixel(k / y, k % y, ColorOf(g[k / y][k % y]))
  {
    PaintLength(g, x, y);
    assert 0 < y;
    var i, j := k / y, k % y;
    assert k == i * y + j;
    if x <= i {
      RowsBefore(x, i + 1, y);
    }
    PaintAt(g, x, y, i, j);
  }
}
