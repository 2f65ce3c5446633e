/**
 * What a caller of the engine can conclude from its contracts alone: the
 * grid is a copy of the caller's array, a still life is final at once, an
 * oscillator never is, and clearing the screen leaves the next frame as it was.
 */
module Scenarios {
  import opened Display
  import opened LifeRules
  import opened Engine
  import opened Patterns

  /** Writing to the caller's array after construction does not reach the engine's grid. */
  method CallerArrayIsNotShared(initial: array2<bool>, screen: Screen) returns (game: GameOfLife)
    requires 0 < initial.Length0 && 0 < initial.Length1
    modifies initial
    ensures game.Valid() && game.Cells() == old(Snapshot(initial))
    ensures initial[0, 0] == !old(initial[0, 0])
  {
    game := new GameOfLife(initial, screen);
    initial[0, 0] := !initial[0, 0];
  }

  /** Showing the block reports the final generation at once and keeps the grid. */
  method StillLifeIsFinal(game: GameOfLife) returns (finalGeneration: bool)
    requires game.Valid() && game.x == 4 && game.y == 4 && game.Cells() == Block
    modifies game.screen, game.state
    ensures finalGeneration && game.Cells() == Block
  {
    BlockIsStill();
    finalGeneration := game.ShowGeneration();
  }

  /** Showing the blinker twice reports no final generation and brings the grid back to where it was. */
  method BlinkerKeepsRunning(game: GameOfLife) returns (first: bool, second: bool)
    requires game.Valid() && game.x == 5 && game.y == 5 && game.Cells() == BlinkerH
    modifies game.screen, game.state
    ensures !first && !second && game.Cells() == BlinkerH
    ensures game.screen.log ==
      old(game.screen.log) + Paint(BlinkerH, 5, 5) + [Refresh] + Paint(BlinkerV, 5, 5) + [Refresh]
  {
    BlinkerTurns();
    BlinkerTurnsBack();
    assert BlinkerH[2][1] != BlinkerV[2][1];
    first := game.ShowGeneration();
    second := game.ShowGeneration();
  }

  /** Clearing the screen first changes nothing that the following ShowGeneration reads. */
  method ClearThenShow(game: GameOfLife) returns (finalGeneration: bool)
    requires game.Valid()
    modifies game.screen, game.state
    ensures game.screen.log ==
      old(game.screen.log) + Paint(AllDead(game.x, game.y), game.x, game.y) + Paint(old(game.Cells()), game.x, game.y) + [Refresh]
    ensures finalGeneration <==> NextGrid(old(game.Cells()), game.x, game.y) == old(game.Cells())
    ensures finalGeneration ==> game.Cells() == old(game.Cells())
    ensures !finalGeneration ==> game.Cells() == NextGrid(old(game.Cells()), game.x, game.y)
  {
    game.ClearScreen();
    finalGeneration := game.ShowGeneration();
  }
}
