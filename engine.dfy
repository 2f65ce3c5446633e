/**
 * The simulation engine: a fixed x-by-y grid held in a two-dimensional
 * array, the screen it draws through, and the generation step.
 */
module Engine {
  import opened Display
  import opened LifeRules

  /** The cells of an array as a grid value. */
  ghost function Snapshot(a: array2<bool>): (g: Grid)
    reads a
    ensures IsGrid(g, a.Length0, a.Length1)
    ensures forall i, j :: 0 <= i < a.Length0 && 0 <= j < a.Length1 ==> g[i][j] == a[i, j]
  {
    seq(a.Length0, i requires 0 <= i < a.Length0 reads a =>
      seq(a.Length1, j requires 0 <= j < a.Length1 reads a => a[i, j]))
  }

  /** An array holds the grid `g` when it agrees with it in every cell. */
  lemma SnapshotIs(a: array2<bool>, g: Grid)
    requires IsGrid(g, a.Length0, a.Length1)
    requires forall i, j :: 0 <= i < a.Length0 && 0 <= j < a.Length1 ==> a[i, j] == g[i][j]
    ensures Snapshot(a) == g
  {
    GridEquality(Snapshot(a), g, a.Length0, a.Length1);
  }

  /** Copies every cell of `src` into the distinct array `dst` (the engine's block copy of a whole grid). */
  method CopyCells(dst: array2<bool>, src: array2<bool>)
    requires dst != src
    requires dst.Length0 == src.Length0 && dst.Length1 == src.Length1
    modifies dst
    ensures Snapshot(dst) == Snapshot(src)
  {
    for i := 0 to dst.Length0
      invariant forall a, b :: 0 <= a < i && 0 <= b < dst.Length1 ==> dst[a, b] == src[a, b]
    {
      for j := 0 to dst.Length1
        invariant forall a, b :: 0 <= a < i && 0 <= b < dst.Length1 ==> dst[a, b] == src[a, b]
        invariant forall b :: 0 <= b < j ==> dst[i, b] == src[i, b]
      {
        dst[i, j] := src[i, j];
      }
    }
    GridEquality(Snapshot(dst), Snapshot(src), dst.Length0, dst.Length1);
  }

  /** Whether two arrays of the same shape hold the same cells (the engine's block comparison). */
  method SameCells(a: array2<bool>, b: array2<bool>) returns (same: bool)
    requires a.Length0 == b.Length0 && a.Length1 == b.Length1
    ensures same <==> Snapshot(a) == Snapshot(b)
  {
    GridEquality(Snapshot(a), Snapshot(b), a.Length0, a.Length1);
    for i := 0 to a.Length0
      invariant forall p, q :: 0 <= p < i && 0 <= q < a.Length1 ==> a[p, q] == b[p, q]
    {
      for j := 0 to a.Length1
        invariant forall q :: 0 <= q < j ==> a[i, q] == b[i, q]
      {
        if a[i, j] != b[i, j] {
          return false;
        }
      }
    }
    return true;
  }

  /**
   * Conway's Game of Life on an x-by-y torus. The grid is a private buffer
   * of fixed size; the screen is borrowed from the caller.
   */
  class GameOfLife {
    const x: nat
    const y: nat
    const state: array2<bool>
    const screen: Screen

    /** The shape is fixed at construction: x by y cells, both positive. */
    ghost predicate Valid() {
      0 < x && 0 < y && state.Length0 == x && state.Length1 == y
    }

    /** The current generation. */
    ghost function Cells(): (g: Grid)
      reads state
      requires Valid()
      ensures IsGrid(g, x, y)
    {
      Snapshot(state)
    }

    /**
     * Starts a simulation from a copy of `initial`: the engine's grid is a
     * fresh array, so later writes to `initial` do not reach it.
     */
    constructor (initial: array2<bool>, screen: Screen)
      requires 0 < initial.Length0 && 0 < initial.Length1
      ensures Valid() && x == initial.Length0 && y == initial.Length1
      ensures this.screen == screen && fresh(state)
      ensures Cells() == Snapshot(initial)
    {
      var buffer := new bool[initial.Length0, initial.Length1];
      CopyCells(buffer, initial);
      x, y := initial.Length0, initial.Length1;
      state := buffer;
      this.screen := screen;
    }

    /**
     * Draws the current generation (one SetPixel per cell, row-major, then
     * one Refresh) and steps; returns true when the generation is final.
     */
    method ShowGeneration() returns (finalGeneration: bool)
      requires Valid()
      modifies screen, state
      ensures screen.log == old(screen.log) + Paint(old(Cells()), x, y) + [Refresh]
      ensures finalGeneration <==> NextGrid(old(Cells()), x, y) == old(Cells())
      ensures finalGeneration ==> Cells() == old(Cells())
      ensures !finalGeneration ==> Cells() == NextGrid(old(Cells()), x, y)
    {
      DrawCells(Cells());
      screen.Refresh();
      finalGeneration := GenerateNextGeneration();
    }

    /** The drawing loop of ShowGeneration: one SetPixel per cell of `g`, the grid held in `state`. */
    method DrawCells(ghost g: Grid)
      requires Valid() && IsGrid(g, x, y)
      requires forall i, j :: 0 <= i < x && 0 <= j < y ==> state[i, j] == g[i][j]
      modifies screen
      ensures screen.log == old(screen.log) + Paint(g, x, y)
    {
      for i := 0 to x
        modifies screen
        invariant screen.log == old(screen.log) + PaintRows(g, x, y, i)
        invariant forall a, b :: 0 <= a < x && 0 <= b < y ==> state[a, b] == g[a][b]
      {
        ghost var before := screen.log;
        for j := 0 to y
          modifies screen
          invariant screen.log == before + PaintRow(g, i, j)
          invariant forall b :: 0 <= b < y ==> state[i, b] == g[i][b]
        {
          screen.SetPixel(i, j, ColorOf(state[i, j]));
        }
      }
    }

    /** Paints every cell black; the grid is left as it is. */
    method ClearScreen()
      requires Valid()
      modifies screen
      ensures screen.log == old(screen.log) + Paint(AllDead(x, y), x, y)
      ensures Cells() == old(Cells())
    {
      ghost var dead := AllDead(x, y);
      for i := 0 to x
        modifies screen
        invariant screen.log == old(screen.log) + PaintRows(dead, x, y, i)
      {
        ghost var before := screen.log;
        for j := 0 to y
          modifies screen
          invariant screen.log == before + PaintRow(dead, i, j)
        {
          screen.SetPixel(i, j, Black);
        }
      }
    }

    /**
     * Computes the next generation and, unless it equals the current grid,
     * commits it; returns true when it equals the current grid, which is then
     * left unchanged.
     */
    method GenerateNextGeneration() returns (finalGeneration: bool)
      requires Valid()
      modifies state
      ensures finalGeneration <==> NextGrid(old(Cells()), x, y) == old(Cells())
      ensures finalGeneration ==> Cells() == old(Cells())
      ensures !finalGeneration ==> Cells() == NextGrid(old(Cells()), x, y)
    {
      var newState := FillNextGeneration();
      finalGeneration := SameCells(state, newState);
      if finalGeneration {
        return;
      }
      CopyCells(state, newState);
    }

    /**
     * Fills a new buffer with the next generation, every cell decided from
     * the current grid, which this method cannot change.
     */
    method FillNextGeneration() returns (newState: array2<bool>)
      requires Valid()
      ensures fresh(newState)
      ensures newState.Length0 == x && newState.Length1 == y
      ensures Snapshot(newState) == NextGrid(Cells(), x, y)
    {
      ghost var next := NextGrid(Cells(), x, y);
      newState := new bool[x, y];
      for i := 0 to x
        modifies newState
        invariant forall a, b :: 0 <= a < i && 0 <= b < y ==> newState[a, b] == next[a][b]
      {
        for j := 0 to y
          modifies newState
          invariant forall a, b :: 0 <= a < i && 0 <= b < y ==> newState[a, b] == next[a][b]
          invariant forall b :: 0 <= b < j ==> newState[i, b] == next[i][b]
        {
          newState[i, j] := GetNewCellValue(i, j);
        }
      }
      SnapshotIs(newState, next);
    }

    /** Whether cell (i, j) is alive in the next generation. */
    method GetNewCellValue(i: nat, j: nat) returns (alive: bool)
      requires Valid() && i < x && j < y
      ensures alive == NextCell(Cells(), x, y, i, j)
    {
      var neighbors := GetNeighboringPositives(i, j);
      alive := NewCellValue(state[i, j], neighbors);
    }

    /**
     * Counts the live cells of the 3x3 window around (i, j), each position
     * wrapped modulo the grid's sides, skipping every position that wraps
     * onto (i, j).
     */
    method GetNeighboringPositives(i: nat, j: nat) returns (count: nat)
      requires Valid() && i < x && j < y
      ensures count == NeighborCount(Cells(), x, y, i, j)
      ensures count <= 8
    {
      ghost var g := Cells();
      count := 0;
      var leftmost := i + x - 1;
      while leftmost <= i + x + 1
        invariant i + x - 1 <= leftmost <= i + x + 2
        invariant count == Window(g, x, y, i, j, leftmost - (i + x - 1))
      {
        ghost var dx := leftmost - (i + x - 1);
        var upmost := j + y - 1;
        while upmost <= j + y + 1
          invariant j + y - 1 <= upmost <= j + y + 2
          invariant count == Window(g, x, y, i, j, dx) + WindowRow(g, x, y, i, j, dx, upmost - (j + y - 1))
        {
          ghost var dy := upmost - (j + y - 1);
          var actualX := leftmost % x;
          var actualY := upmost % y;
          assert actualX == WindowIndex(i, x, dx) && actualY == WindowIndex(j, y, dy);
          if !(i == actualX && j == actualY) {
            count := count + if state[actualX, actualY] then 1 else 0;
          }
          upmost := upmost + 1;
        }
        leftmost := leftmost + 1;
      }
      NeighborCountBound(g, x, y, i, j);
    }
  }
}
