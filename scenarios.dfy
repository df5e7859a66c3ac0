// Concrete sessions of the engine: the parameters the desktop front end
// starts with, the no-reversal rule at work, and the food placement that
// follows a game over for length.

module Scenarios {
  import opened Types
  import opened Game

  /** The parameters of the desktop front end: a 25 x 25 map, a two-segment
      snake at (10, 10) heading right, food at (20, 10), ten waiting calls
      per move. */
  function FrontEndParams(): (params: GameParams)
    ensures params.mapBottomRight == Coordinate(24, 24)
    ensures params.snakeLength == 2 && params.initialIterationCount == 10
  {
    GameParams(Coordinate(24, 24), Coordinate(10, 10), RIGHT, 2, Coordinate(20, 10), 10, 5, 1, 1)
  }

  /** With threshold 10 the first ten calls only count; the eleventh moves
      the head one cell right and resets the counter. */
  method FirstMoveAfterEleventhCall() returns (status: GameStatus, head: Coordinate, second: Coordinate, counter: int)
    ensures status == RUNNING
    ensures head == Coordinate(11, 10) && second == Coordinate(10, 10)
    ensures counter == 0
  {
    var g := new Game(FrontEndParams());
    assert g.Body() == [Coordinate(10, 10), Coordinate(9, 10)];
    var calls := 0;
    while calls < 10
      invariant 0 <= calls <= 10
      invariant fresh(g.snake)
      invariant g.Valid() && g.gameStatus == RUNNING && g.iterationCounter == calls
      invariant g.numIterationsBeforeUpdating == 10 && g.mapMaxCoordinate == Coordinate(24, 24)
      invariant g.snakeDirection == RIGHT && g.newSnakeDirection == NONE
      invariant g.foodPosition == Coordinate(20, 10)
      invariant g.Body() == [Coordinate(10, 10), Coordinate(9, 10)]
    {
      status := g.RunSingleIteration();
      calls := calls + 1;
    }
    status := g.RunSingleIteration();
    head := g.GetSnakePosition(0);
    second := g.GetSnakePosition(1);
    counter := g.iterationCounter;
  }

  /** A request to reverse is ignored: heading up, DOWN is refused and the
      next move still goes up. */
  method ReversalIgnored() returns (status: GameStatus, head: Coordinate)
    ensures status == RUNNING && head == Coordinate(5, 4)
  {
    var g := new Game(GameParams(Coordinate(9, 9), Coordinate(5, 5), UP, 2, Coordinate(0, 0), 0, 1, 0, 1));
    g.SetSnakeDirection(DOWN);
    status := g.RunSingleIteration();
    head := g.GetSnakePosition(0);
  }

  /** game.cc calls CreateNewFood right after ExtendSnake whatever it
      returned. On a 2 x 1 map, a one-segment snake at (1, 0) heading left
      eats the food at (0, 0) and reaches the map's size; the scan then
      counts the stale buffer slot past the old tail, which holds (0, 0),
      so no cell is free and the source draws from an empty range. */
  method FoodAfterTooLongAsWritten() returns (status: GameStatus, placed: bool)
    ensures status == GAME_OVER_SNAKE_TOO_LONG
    ensures !placed
  {
    var g := new Game(GameParams(Coordinate(1, 0), Coordinate(1, 0), LEFT, 1, Coordinate(0, 0), 0, 1, 0, 1));
    assert g.snake[..] == [Coordinate(1, 0), Coordinate(0, 0)];
    status := g.RunSingleIteration();
    placed := g.CreateNewFood();
  }
}
