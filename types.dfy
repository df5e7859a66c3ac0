// The value types of the snake engine: directions, statuses, grid
// coordinates and the parameter bundle a game is built from.

module Types {

  /** The four headings and the "no direction" sentinel NONE. */
  datatype Direction = NONE | UP | DOWN | LEFT | RIGHT

  /** RUNNING is the only status from which the game can still change. */
  datatype GameStatus = RUNNING | GAME_OVER_COLLISION | GAME_OVER_SNAKE_TOO_LONG

  /** A grid cell; x grows to the right, y grows downwards. */
  datatype Coordinate = Coordinate(x: int, y: int)

  /** Everything a game is constructed from. */
  datatype GameParams = GameParams(
    mapBottomRight: Coordinate,
    snakeStartPosition: Coordinate,
    snakeStartDirection: Direction,
    snakeLength: int,
    initialFoodPosition: Coordinate,
    initialIterationCount: int,
    updateIterationCountFoodAmount: int,
    iterationCountDecrement: int,
    minIterationCount: int)

  datatype Option<T> = None | Some(value: T)

  /** Whether a status is final: nothing changes a game any more once it holds. */
  function IsTerminal(status: GameStatus): (terminal: bool)
    ensures terminal <==> status != RUNNING
  {
    match status
    case RUNNING => false
    case GAME_OVER_COLLISION => true
    case GAME_OVER_SNAKE_TOO_LONG => true
  }

  /** operator== on coordinates: compares x and y. */
  function Equal(lhs: Coordinate, rhs: Coordinate): (same: bool)
    ensures same <==> lhs == rhs
  {
    lhs.x == rhs.x && lhs.y == rhs.y
  }

  /** operator!= on coordinates: the negation of operator==. */
  function NotEqual(lhs: Coordinate, rhs: Coordinate): (differ: bool)
    ensures differ <==> lhs != rhs
  {
    !Equal(lhs, rhs)
  }
}
