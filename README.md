# Conway's Game of Life engine, modelled in Dafny

This project models the engine of a Game of Life program, the class template
`GameOfLife<x, y>` in `GameOfLife.h`. The engine owns a fixed `x`-by-`y` boolean
grid on a torus. It draws each generation through an abstract screen and then
computes the next generation with the classical B3/S23 rule. It reports the
final generation: the one whose successor is identical to it.

Files and modules:

- `display.dfy`, module `Display`. The screen interface as a recording sink.
  `Screen` keeps a ghost log of the `SetPixel(i, j, color)` and `Refresh`
  calls it receives. `Color` takes two values, `White` and `Black`.
- `life_rules.dfy`, module `LifeRules`. The rule stated on values:
  - `Grid` is `seq<seq<bool>>`.
  - `NeighborCount` follows the engine's 3x3 window, partial sum by partial sum.
  - `NewCellValue` is the threshold decision with its named constants.
  - `NextGrid` gives the next generation and `Generations` repeats it.
  - `Paint` is the row-major list of calls that draws a grid.
  - The lemmas cover these definitions. One of them relates the window count
    to the eight toroidal neighbour positions `((i+di) mod x, (j+dj) mod y)`.
- `engine.dfy`, module `Engine`. The class `GameOfLife`:
  - The grid is an `array2<bool>` fixed at construction, and the screen is borrowed.
  - The methods keep the source's nested loops.
  - Two loop helpers stand for `memcpy` (`CopyCells`) and `memcmp`
    (`SameCells`).
  - `Cells()` is the current grid as a value. Every method is proved against
    `LifeRules`.
- `patterns.dfy`, module `Patterns`. Concrete grids: an isolated cell, a row of
  three on the 3x3 torus, the block and the blinker. It also covers what the
  count does on tori narrower than three cells.
- `scenarios.dfy`, module `Scenarios`. Callers that use only the engine's
  contracts: no aliasing of the caller's array, a still life is final on the
  first call, a blinker never is, and clearing before showing.

The usual statement of the rule counts the 8 adjacent cells.
`GetNeighboringPositives` instead visits all nine window positions and skips
every position that wraps onto the cell. On axes of length 1 this skips more than the centre, and on axes of
length 2 it counts the same cell more than once. "Exactly the 8 distinct
neighbours" holds only when both sides have at least 3 cells
(`NeighborPositionsDistinct`). The count equals the sum over the eight offsets
as soon as both sides have at least 2 cells (`NeighborCountIsLiveNeighbors`).
`SingleCellTorus` and `TwoByTwoCountsRepeats` show the smaller cases.

## Model

| member | source | states |
|---|---|---|
| `Engine.GameOfLife.constructor` | GameOfLife.h:79-82 | the grid is a fresh x-by-y array whose cells equal the caller's array cell for cell; x and y are positive and fixed |
| `Scenarios.CallerArrayIsNotShared` | GameOfLife.h:79-82 | a write to the caller's array after construction leaves the engine's grid as it was copied |
| `Engine.CopyCells` | GameOfLife.h:117 | after the copy, the destination holds exactly the source's cells |
| `Engine.SameCells` | GameOfLife.h:112 | returns true exactly when the two arrays agree in every cell |
| `Engine.GameOfLife.ShowGeneration` | GameOfLife.h:85-97 | the log grows by one SetPixel per cell of the pre-step grid, row-major, each coloured White if alive and Black if dead, then exactly one Refresh; the result and the new grid are those of GenerateNextGeneration |
| `Engine.GameOfLife.DrawCells` | GameOfLife.h:87-93 | the drawing loop appends exactly the row-major SetPixel calls of the grid held in the array |
| `Engine.GameOfLife.ClearScreen` | GameOfLife.h:163-173 | the log grows by one black SetPixel per cell, row-major, and the grid is unchanged |
| `Engine.GameOfLife.GenerateNextGeneration` | GameOfLife.h:99-119 | returns true exactly when the next generation equals the current grid; then the grid is unchanged, otherwise it becomes the next generation |
| `Engine.GameOfLife.FillNextGeneration` | GameOfLife.h:102-110 | the new buffer is a fresh array holding the next generation of the current grid, computed while the grid cannot change |
| `Engine.GameOfLife.GetNewCellValue` | GameOfLife.h:122-139 | the result is the rule applied to the cell's current state and its neighbour count |
| `Engine.GameOfLife.GetNeighboringPositives` | GameOfLife.h:142-161 | the loop's count is the window count of the current grid, and it is at most 8 |
| `LifeRules.NewCellValue` | GameOfLife.h:122-139 | with thresholds 2, 3 and 3, a cell is alive next exactly when it is alive with 2 or 3 neighbours or dead with exactly 3 |
| `LifeRules.NeighborCountSum` | GameOfLife.h:146-158 | the count is the sum of the eight non-centre window steps; the centre step always wraps onto the cell and adds nothing |
| `LifeRules.NeighborCountBound` | GameOfLife.h:142-161 | the count of any in-bounds cell is at most 8 |
| `LifeRules.WindowIndexValue` | GameOfLife.h:146-151 | the window index `(i + n - 1 + d) % n` is `(i + d - 1) mod n`: the previous, the same or the next index, wrapping at the edges |
| `LifeRules.NeighborCountIsLiveNeighbors` | GameOfLife.h:142-161 | when both sides have at least 2 cells, the count equals the number of live cells among the eight positions `((i+di) mod x, (j+dj) mod y)` with `(di, dj) != (0, 0)` |
| `LifeRules.NeighborPositionsDistinct` | GameOfLife.h:146-156 | when both sides have at least 3 cells, the eight neighbour positions are pairwise distinct and none is the cell itself |
| `LifeRules.AllDeadIsFixed` | GameOfLife.h:99-119 | the empty grid is its own next generation on every torus |
| `LifeRules.FixedPointIsFinal` | GameOfLife.h:26-31 | once the next generation equals the grid, every later generation equals it too |
| `LifeRules.PeriodTwo` | GameOfLife.h:99-119 | two grids that are each other's next generation alternate forever |
| `LifeRules.GenerationsSplit` | GameOfLife.h:99-119 | m generations followed by n more are m + n generations |
| `LifeRules.PaintLength` | GameOfLife.h:87-93 | drawing a grid is exactly x * y calls |
| `LifeRules.PaintAt` | GameOfLife.h:87-93 | the call at position i * y + j is SetPixel(i, j, c), with c White for a live cell and Black for a dead one |
| `LifeRules.PaintIsRowMajor` | GameOfLife.h:87-93 | every call of a drawing is the SetPixel of cell (k / y, k % y) |
| `LifeRules.ClearPaintIsBlack` | GameOfLife.h:166-172 | clearing paints cell (i, j) black at position i * y + j |
| `LifeRules.ColorOf` | GameOfLife.h:69-70 | a cell is drawn White exactly when it is alive |
| `LifeRules.GridEquality` | GameOfLife.h:112 | two grids of one shape are equal exactly when they agree in every cell |
| `Patterns.LoneCellDies` | GameOfLife.h:127-130 | on a 3x3 torus an isolated cell dies and the grid empties |
| `Patterns.RowOfThreeCounts` | GameOfLife.h:142-161 | on a 3x3 torus with one full row, each cell of the row has 2 live neighbours and each other cell has 3 |
| `Patterns.RowOfThreeFills` | GameOfLife.h:122-139 | on a 3x3 torus a full row becomes a full grid |
| `Patterns.FullGridDies` | GameOfLife.h:127-130 | a full 3x3 torus dies of over-population |
| `Patterns.BlockIsStill` | GameOfLife.h:112-115 | the 2x2 block on a 4x4 torus is its own next generation |
| `Patterns.BlockStaysForever` | GameOfLife.h:112-115 | the block is unchanged in every later generation |
| `Patterns.BlinkerTurns` | GameOfLife.h:99-119 | the horizontal blinker on a 5x5 torus becomes the vertical one |
| `Patterns.BlinkerTurnsBack` | GameOfLife.h:99-119 | the vertical blinker becomes the horizontal one |
| `Patterns.BlinkerNeverFinal` | GameOfLife.h:112-118 | the blinker alternates between its two phases, and no generation of it equals its successor |
| `Patterns.SingleCellTorus` | GameOfLife.h:146-158 | on a 1x1 torus every window step wraps onto the cell, so the count is 0 while the eight offsets name a live cell, and a live cell dies |
| `Patterns.TwoByTwoCountsRepeats` | GameOfLife.h:146-158 | on a 2x2 torus a single diagonal live cell is counted four times |
| `Patterns.CornerWraps` | GameOfLife.h:146-151 | on a 3x3 torus the neighbours of (0, 0) include (2, 2), (2, 0) and (0, 2) |
| `Scenarios.StillLifeIsFinal` | GameOfLife.h:112-115 | ShowGeneration on the block returns true and leaves the grid as it was |
| `Scenarios.BlinkerKeepsRunning` | GameOfLife.h:85-97 | two ShowGenerations on the blinker both return false, draw both phases and bring the grid back to the start |
| `Scenarios.ClearThenShow` | GameOfLife.h:163-173 | after ClearScreen, ShowGeneration draws the grid as it was before the clear, reports whether it is final, and leaves it unchanged if so and its next generation otherwise |
| `Display.Screen.SetPixel` | IScreen.h:17 | the call is appended to the screen's log |
| `Display.Screen.Refresh` | IScreen.h:22 | the call is appended to the screen's log |

## Left out

- `CMDScreen.h`, the console backend, is not part of this model. It makes
  foreign Win32 drawing calls, and its pixel-scaling loop only plots to a
  device context. The screen is modelled only by the calls it receives.
- `Main.cpp`, the driver, is not part of this model. It covers random seeding,
  the delay between generations, console output and the loop that runs until
  `ShowGeneration` returns true. `Patterns.BlinkerNeverFinal` illustrates, on a
  5x5 torus, that this loop need not terminate.
- Colours: `COLORREF` and `RGB` are reduced to the two values the engine
  passes, `White` and `Black`.
- Integer width: the grid sides are template parameters in the source. Here
  they are constant fields, and indices are unbounded naturals, so a `size_t`
  overflow of `i + x + 1` is not modelled.
- Both sides are required to be positive. A zero-length array is ill-formed in
  C++, and the window arithmetic takes remainders modulo each side.
- `memcpy` and `memcmp` work on bytes in the source. Here they are loops over
  cells (`Engine.CopyCells`, `Engine.SameCells`). `Engine.CopyCells` requires
  distinct arrays, as `memcpy` does, and the engine never copies an array onto
  itself.
- The zero-initialisation of the next-generation buffer is not modelled: every
  cell of it is written before it is read.
- The screen reference must outlive the engine in the source. Object
  lifetimes are not modelled.
