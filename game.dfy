// The simulation engine: a game whose body lives in a fixed-capacity ring
// buffer, advanced one call at a time by RunSingleIteration and steered by
// SetSnakeDirection.

module Game {
  import opened Types
  import opened Grid
  import opened Seqs
  import opened Motion
  import opened Ring
  import opened Speed

  /** Every field of a game, for saying what a call leaves alone. */
  datatype Snapshot = Snapshot(
    slots: seq<Coordinate>,
    length: int,
    headIndex: int,
    direction: Direction,
    pending: Direction,
    food: Coordinate,
    mapMax: Coordinate,
    status: GameStatus,
    foodEaten: int,
    threshold: int,
    foodPerUpdate: int,
    counter: int)

  /** Parameters under which the game starts sound: the initial body and the
      initial food lie on the map and the food is off the body. */
  predicate SaneStart(params: GameParams)
    requires params.snakeStartDirection != NONE && params.snakeLength >= 0
  {
    var body := InitialBody(params.snakeStartPosition, params.snakeStartDirection, params.snakeLength);
    AllInBounds(body, params.mapBottomRight) &&
    InBounds(params.initialFoodPosition, params.mapBottomRight) &&
    params.initialFoodPosition !in body
  }

  /** After a meal the grown body is still on the map and free of overlaps,
      and the new food, picked from the cells off the ring's slots, is off
      the body. */
  lemma GrowthKeepsSound(body: seq<Coordinate>, newHead: Coordinate, slots: seq<Coordinate>,
                         head: int, length: int, food: Coordinate, mapMax: Coordinate)
    requires AllInBounds(body, mapMax) && Distinct(body)
    requires InBounds(newHead, mapMax) && newHead !in body
    requires 0 <= head < length <= |slots|
    requires View(slots, head, length) == [newHead] + body
    requires food in FreeCells(mapMax, slots[..length])
    ensures AllInBounds(View(slots, head, length), mapMax) && Distinct(View(slots, head, length))
    ensures InBounds(food, mapMax) && food !in View(slots, head, length)
  {
    ViewIsRotation(slots, head, length);
    DistinctCons(newHead, body);
  }

  /** After an ordinary move that hits nothing the body is still on the map
      and free of overlaps, and the food, which was not on the new head's
      cell, is still off the body. */
  lemma SlideKeepsSound(body: seq<Coordinate>, newHead: Coordinate, slid: seq<Coordinate>,
                        food: Coordinate, mapMax: Coordinate)
    requires AllInBounds(body, mapMax) && Distinct(body) && food !in body && food != newHead
    requires 1 <= |body| && slid == [newHead] + body[..|body| - 1]
    requires InBounds(newHead, mapMax) && newHead !in body[..|body| - 1]
    ensures AllInBounds(slid, mapMax) && Distinct(slid) && food !in slid
  {
    var rest := body[..|body| - 1];
    assert forall c :: c in rest ==> c in body;
    DistinctCons(newHead, rest);
  }

  /** A sane start leaves room to grow: the initial body and the food are
      distinct cells of the map, so the body is shorter than the map. */
  lemma SaneStartFits(params: GameParams)
    requires params.snakeStartDirection != NONE && params.snakeLength >= 0
    requires params.mapBottomRight.x >= 0 && params.mapBottomRight.y >= 0
    requires SaneStart(params)
    ensures params.snakeLength < Capacity(params.mapBottomRight)
  {
    var mapMax := params.mapBottomRight;
    var body := InitialBody(params.snakeStartPosition, params.snakeStartDirection, params.snakeLength);
    var cells := [params.initialFoodPosition] + body;
    DistinctCons(params.initialFoodPosition, body);
    forall v | v in cells ensures v in FreeCells(mapMax, []) {
      assert InBounds(v, mapMax);
    }
    DistinctWithin(cells, FreeCells(mapMax, []));
    CellCount(mapMax);
  }

  class Game {
    // The body buffer, sized to the number of cells; only the first
    // snakeLength slots form the ring.
    var snake: array<Coordinate>
    var snakeLength: int
    var snakeHeadIndex: int
    var snakeDirection: Direction
    var newSnakeDirection: Direction
    var foodPosition: Coordinate
    var mapMaxCoordinate: Coordinate
    var gameStatus: GameStatus
    var foodEaten: int
    var numIterationsBeforeUpdating: int
    var numFoodBeforeUpdatingIterationCount: int
    var iterationCounter: int
    const iterationDecrement: int
    const iterationMin: int
    // The construction-time length and threshold, to relate later states to.
    ghost const initialLength: int
    ghost const initialThreshold: int

    /** The representation invariant every call keeps. */
    ghost predicate Valid()
      reads this, snake
    {
      mapMaxCoordinate.x >= 0 && mapMaxCoordinate.y >= 0 &&
      snake.Length == Capacity(mapMaxCoordinate) &&
      0 <= snakeHeadIndex < snakeLength <= snake.Length &&
      (gameStatus == RUNNING ==> snakeLength < snake.Length) &&
      snakeDirection != NONE &&
      newSnakeDirection != Opposite(snakeDirection) &&
      iterationMin >= 1 &&
      numFoodBeforeUpdatingIterationCount != 0 &&
      foodEaten >= 0 &&
      snakeLength == initialLength + foodEaten &&
      numIterationsBeforeUpdating
        == ThresholdAfterMeals(initialThreshold, foodEaten, numFoodBeforeUpdatingIterationCount,
                               iterationDecrement, iterationMin)
    }

    /** The body from head to tail, as GetSnakePosition(0), GetSnakePosition(1), ... read it. */
    ghost function Body(): seq<Coordinate>
      reads this, snake
      requires 0 <= snakeHeadIndex < snakeLength <= snake.Length
    {
      View(snake[..], snakeHeadIndex, snakeLength)
    }

    /** While the game runs the body is on the map without overlapping itself
        and the food sits on a free cell of the map. */
    ghost predicate Sound()
      reads this, snake
      requires 0 <= snakeHeadIndex < snakeLength <= snake.Length
    {
      gameStatus == RUNNING ==>
        AllInBounds(Body(), mapMaxCoordinate) && Distinct(Body()) &&
        InBounds(foodPosition, mapMaxCoordinate) && foodPosition !in Body()
    }

    ghost function State(): Snapshot
      reads this, snake
    {
      Snapshot(snake[..], snakeLength, snakeHeadIndex, snakeDirection, newSnakeDirection,
               foodPosition, mapMaxCoordinate, gameStatus, foodEaten, numIterationsBeforeUpdating,
               numFoodBeforeUpdatingIterationCount, iterationCounter)
    }

    constructor (params: GameParams)
      requires params.mapBottomRight.x >= 0 && params.mapBottomRight.y >= 0
      requires 1 <= params.snakeLength < Capacity(params.mapBottomRight)
      requires params.snakeStartDirection != NONE
      requires params.updateIterationCountFoodAmount != 0
      ensures Valid() && fresh(snake) && snake.Length == Capacity(params.mapBottomRight)
      ensures snake[..] == InitialBody(params.snakeStartPosition, params.snakeStartDirection, params.snakeLength)
                         + seq(snake.Length - params.snakeLength, _ => Coordinate(0, 0))
      ensures snakeLength == params.snakeLength && snakeHeadIndex == 0
      ensures Body() == InitialBody(params.snakeStartPosition, params.snakeStartDirection, params.snakeLength)
      ensures snakeDirection == params.snakeStartDirection && newSnakeDirection == NONE
      ensures foodPosition == params.initialFoodPosition && mapMaxCoordinate == params.mapBottomRight
      ensures gameStatus == RUNNING && foodEaten == 0 && iterationCounter == 0
      ensures numIterationsBeforeUpdating == params.initialIterationCount
      ensures numFoodBeforeUpdatingIterationCount == params.updateIterationCountFoodAmount
      ensures iterationDecrement == params.iterationCountDecrement
      ensures iterationMin == if params.minIterationCount > 0 then params.minIterationCount else 1
      ensures SaneStart(params) ==> Sound()
    {
      snakeLength := params.snakeLength;
      snakeHeadIndex := 0;
      snakeDirection := params.snakeStartDirection;
      newSnakeDirection := NONE;
      foodPosition := params.initialFoodPosition;
      mapMaxCoordinate := params.mapBottomRight;
      gameStatus := RUNNING;
      foodEaten := 0;
      numIterationsBeforeUpdating := params.initialIterationCount;
      numFoodBeforeUpdatingIterationCount := params.updateIterationCountFoodAmount;
      iterationCounter := 0;
      iterationDecrement := params.iterationCountDecrement;
      iterationMin := if params.minIterationCount > 0 then params.minIterationCount else 1;
      initialLength := params.snakeLength;
      initialThreshold := params.initialIterationCount;
      snake := new Coordinate[Capacity(params.mapBottomRight)](_ => Coordinate(0, 0));
      new;
      InitSnake(params);
      ghost var body := InitialBody(params.snakeStartPosition, params.snakeStartDirection, params.snakeLength);
      assert snake[..snakeLength] == body;
      assert Body() == body;
    }

    /** InitSnake: lays the initial body into slots 0 .. length - 1. */
    method InitSnake(params: GameParams)
      requires params.snakeStartDirection != NONE
      requires 0 <= params.snakeLength <= snake.Length
      modifies snake
      ensures snake[..] == InitialBody(params.snakeStartPosition, params.snakeStartDirection, params.snakeLength)
                         + old(snake[params.snakeLength..])
    {
      ghost var body := InitialBody(params.snakeStartPosition, params.snakeStartDirection, params.snakeLength);
      var i := 0;
      while i < params.snakeLength
        invariant 0 <= i <= params.snakeLength
        invariant snake[..i] == body[..i]
        invariant snake[i..] == old(snake[i..])
      {
        snake[i] := SegmentBehind(params.snakeStartPosition, params.snakeStartDirection, i);
        i := i + 1;
      }
    }

    /** RunSingleIteration: one call of the game loop. */
    method RunSingleIteration() returns (status: GameStatus)
      requires Valid()
      modifies this, snake
      ensures Valid() && snake == old(snake) && status == gameStatus
      ensures old(Sound()) ==> Sound()
      ensures mapMaxCoordinate == old(mapMaxCoordinate)
      ensures numFoodBeforeUpdatingIterationCount == old(numFoodBeforeUpdatingIterationCount)
      // A finished game stays as it is.
      ensures old(gameStatus) != RUNNING ==> status == old(gameStatus) && State() == old(State())
      // The counter of a running game follows the speed controller.
      ensures old(gameStatus) == RUNNING ==>
                iterationCounter == CounterAfterCall(old(iterationCounter), old(numIterationsBeforeUpdating))
      // A call that does not move only counts.
      ensures old(gameStatus) == RUNNING && !MovesNow(old(iterationCounter), old(numIterationsBeforeUpdating)) ==>
                status == RUNNING && State() == old(State()).(counter := old(iterationCounter) + 1)
      // A moving call resets the counter and commits the pending heading.
      ensures old(gameStatus) == RUNNING && MovesNow(old(iterationCounter), old(numIterationsBeforeUpdating)) ==>
                iterationCounter == 0 && newSnakeDirection == NONE &&
                snakeDirection == (if old(newSnakeDirection) != NONE then old(newSnakeDirection) else old(snakeDirection)) &&
                snakeDirection != Opposite(old(snakeDirection))
      // Eating: one more segment, or too long.
      ensures old(gameStatus) == RUNNING && MovesNow(old(iterationCounter), old(numIterationsBeforeUpdating)) ==>
                var newHead := NewHead(old(Body())[0], snakeDirection).value;
                newHead == old(foodPosition) ==>
                  foodEaten == old(foodEaten) + 1 && snakeLength == old(snakeLength) + 1 &&
                  numIterationsBeforeUpdating
                    == NextThreshold(foodEaten, old(numIterationsBeforeUpdating), numFoodBeforeUpdatingIterationCount,
                                     iterationDecrement, iterationMin) &&
                  snakeHeadIndex == old(snakeHeadIndex) &&
                  status == (if snakeLength >= snake.Length then GAME_OVER_SNAKE_TOO_LONG else RUNNING) &&
                  (status == GAME_OVER_SNAKE_TOO_LONG ==>
                     snake[..] == old(snake[..]) && foodPosition == old(foodPosition)) &&
                  (status == RUNNING ==>
                     snake[..] == Shifted(old(snake[..]), snakeHeadIndex, snakeLength, newHead) &&
                     Body() == [newHead] + old(Body()) &&
                     foodPosition in FreeCells(mapMaxCoordinate, snake[..snakeLength]))
      // An ordinary move: the body slides and may collide.
      ensures old(gameStatus) == RUNNING && MovesNow(old(iterationCounter), old(numIterationsBeforeUpdating)) ==>
                var newHead := NewHead(old(Body())[0], snakeDirection).value;
                newHead != old(foodPosition) ==>
                  foodEaten == old(foodEaten) && snakeLength == old(snakeLength) &&
                  numIterationsBeforeUpdating == old(numIterationsBeforeUpdating) &&
                  foodPosition == old(foodPosition) &&
                  snakeHeadIndex == SlideHead(old(snakeHeadIndex), snakeLength) &&
                  snake[..] == old(snake[..])[snakeHeadIndex := newHead] &&
                  Body() == [newHead] + old(Body())[..snakeLength - 1] &&
                  status == (if !InBounds(newHead, mapMaxCoordinate) || newHead in old(Body())[..snakeLength - 1]
                             then GAME_OVER_COLLISION else RUNNING)
    {
      if gameStatus != RUNNING {
        return gameStatus;
      }

      iterationCounter := iterationCounter + 1;
      if iterationCounter <= numIterationsBeforeUpdating {
        return gameStatus;
      }
      iterationCounter := 0;
      status := Advance();
    }

    /** The moving part of RunSingleIteration: commit the pending heading,
        step, then eat or slide. */
    method Advance() returns (status: GameStatus)
      requires Valid() && gameStatus == RUNNING
      modifies this`snakeDirection, this`newSnakeDirection, this`foodEaten, this`numIterationsBeforeUpdating,
               this`snakeLength, this`gameStatus, this`foodPosition, this`snakeHeadIndex, snake
      ensures Valid() && status == gameStatus
      ensures old(Sound()) ==> Sound()
      ensures newSnakeDirection == NONE &&
              snakeDirection == (if old(newSnakeDirection) != NONE then old(newSnakeDirection) else old(snakeDirection)) &&
              snakeDirection != Opposite(old(snakeDirection))
      ensures var newHead := NewHead(old(Body())[0], snakeDirection).value;
              newHead == old(foodPosition) ==>
                foodEaten == old(foodEaten) + 1 && snakeLength == old(snakeLength) + 1 &&
                numIterationsBeforeUpdating
                  == NextThreshold(foodEaten, old(numIterationsBeforeUpdating), numFoodBeforeUpdatingIterationCount,
                                   iterationDecrement, iterationMin) &&
                snakeHeadIndex == old(snakeHeadIndex) &&
                status == (if snakeLength >= snake.Length then GAME_OVER_SNAKE_TOO_LONG else RUNNING) &&
                (status == GAME_OVER_SNAKE_TOO_LONG ==>
                   snake[..] == old(snake[..]) && foodPosition == old(foodPosition)) &&
                (status == RUNNING ==>
                   snake[..] == Shifted(old(snake[..]), snakeHeadIndex, snakeLength, newHead) &&
                   Body() == [newHead] + old(Body()) &&
                   foodPosition in FreeCells(mapMaxCoordinate, snake[..snakeLength]))
      ensures var newHead := NewHead(old(Body())[0], snakeDirection).value;
              newHead != old(foodPosition) ==>
                foodEaten == old(foodEaten) && snakeLength == old(snakeLength) &&
                numIterationsBeforeUpdating == old(numIterationsBeforeUpdating) &&
                foodPosition == old(foodPosition) &&
                snakeHeadIndex == SlideHead(old(snakeHeadIndex), snakeLength) &&
                snake[..] == old(snake[..])[snakeHeadIndex := newHead] &&
                Body() == [newHead] + old(Body())[..snakeLength - 1] &&
                status == (if !InBounds(newHead, mapMaxCoordinate) || newHead in old(Body())[..snakeLength - 1]
                           then GAME_OVER_COLLISION else RUNNING)
    {
      if newSnakeDirection != NONE {
        snakeDirection := newSnakeDirection;
        newSnakeDirection := NONE;
      }

      var newHead := GetNewSnakeHead();

      if Equal(newHead, foodPosition) {
        status := EatFood(newHead);
      } else {
        status := Slide(newHead);
      }
    }

    /** The eating branch of RunSingleIteration: one more meal, the speed
        update, then growth and new food. */
    method EatFood(newHead: Coordinate) returns (status: GameStatus)
      requires Valid() && gameStatus == RUNNING && newHead == foodPosition
      modifies this`foodEaten, this`numIterationsBeforeUpdating, this`snakeLength, this`gameStatus,
               this`foodPosition, snake
      ensures Valid() && status == gameStatus
      ensures old(Sound()) ==> Sound()
      ensures foodEaten == old(foodEaten) + 1 && snakeLength == old(snakeLength) + 1
      ensures numIterationsBeforeUpdating
           == NextThreshold(foodEaten, old(numIterationsBeforeUpdating), numFoodBeforeUpdatingIterationCount,
                            iterationDecrement, iterationMin)
      ensures status == if snakeLength >= snake.Length then GAME_OVER_SNAKE_TOO_LONG else RUNNING
      ensures status == GAME_OVER_SNAKE_TOO_LONG ==> snake[..] == old(snake[..]) && foodPosition == old(foodPosition)
      ensures status == RUNNING ==>
                snake[..] == Shifted(old(snake[..]), snakeHeadIndex, snakeLength, newHead) &&
                Body() == [newHead] + old(Body()) &&
                foodPosition in FreeCells(mapMaxCoordinate, snake[..snakeLength])
    {
      foodEaten := foodEaten + 1;
      UpdateIterationCheck();
      status := Grow(newHead);
    }

    /** ExtendSnake followed by CreateNewFood, which finds a free cell
        whenever the grown snake still fits. */
    method Grow(newHead: Coordinate) returns (status: GameStatus)
      requires 0 <= snakeHeadIndex < snakeLength < snake.Length
      requires mapMaxCoordinate.x >= 0 && mapMaxCoordinate.y >= 0
      requires snake.Length == Capacity(mapMaxCoordinate)
      requires gameStatus == RUNNING && newHead == foodPosition
      modifies this`snakeLength, this`gameStatus, this`foodPosition, snake
      ensures snakeLength == old(snakeLength) + 1 && status == gameStatus
      ensures old(Sound()) ==> Sound()
      ensures status == if snakeLength >= snake.Length then GAME_OVER_SNAKE_TOO_LONG else RUNNING
      ensures status == GAME_OVER_SNAKE_TOO_LONG ==> snake[..] == old(snake[..]) && foodPosition == old(foodPosition)
      ensures status == RUNNING ==>
                snake[..] == Shifted(old(snake[..]), snakeHeadIndex, snakeLength, newHead) &&
                Body() == [newHead] + old(Body()) &&
                foodPosition in FreeCells(mapMaxCoordinate, snake[..snakeLength])
    {
      gameStatus := ExtendSnake(newHead);
      if gameStatus == RUNNING {
        FreeCellExists(mapMaxCoordinate, snake[..snakeLength]);
        var placed := CreateNewFood();
        assert placed;
        if old(Sound()) {
          GrowthKeepsSound(old(Body()), newHead, snake[..], snakeHeadIndex, snakeLength,
                           foodPosition, mapMaxCoordinate);
        }
      }
      status := gameStatus;
    }

    /** The moving branch of RunSingleIteration: the body slides one cell and
        the game ends if the head hits the wall or the body. */
    method Slide(newHead: Coordinate) returns (status: GameStatus)
      requires Valid() && gameStatus == RUNNING && newHead != foodPosition
      modifies this`snakeHeadIndex, this`gameStatus, snake
      ensures Valid() && status == gameStatus
      ensures old(Sound()) ==> Sound()
      ensures snakeHeadIndex == SlideHead(old(snakeHeadIndex), snakeLength)
      ensures snake[..] == old(snake[..])[snakeHeadIndex := newHead]
      ensures Body() == [newHead] + old(Body())[..snakeLength - 1]
      ensures status == if !InBounds(newHead, mapMaxCoordinate) || newHead in old(Body())[..snakeLength - 1]
                        then GAME_OVER_COLLISION else RUNNING
    {
      gameStatus := MoveSnake(newHead);
      if old(Sound()) && gameStatus == RUNNING {
        SlideKeepsSound(old(Body()), newHead, Body(), foodPosition, mapMaxCoordinate);
      }
      status := gameStatus;
    }

    function GetGameStatus(): (status: GameStatus)
      reads this, snake
      requires Valid()
      ensures status == RUNNING ==> snakeLength < GetMaxSnakeLength()
    {
      gameStatus
    }

    function GetSnakeLength(): (length: int)
      reads this, snake
      requires Valid()
      ensures length == |Body()| && 1 <= length <= GetMaxSnakeLength()
    {
      snakeLength
    }

    /** The number of cells of the map, which is the size of the body buffer. */
    function GetMaxSnakeLength(): (cells: int)
      reads this
      requires mapMaxCoordinate.x >= 0 && mapMaxCoordinate.y >= 0
      ensures cells == Capacity(mapMaxCoordinate) == |FreeCells(mapMaxCoordinate, [])|
    {
      CellCount(mapMaxCoordinate);
      (mapMaxCoordinate.x + 1) * (mapMaxCoordinate.y + 1)
    }

    /** The meals so far, each of which added one segment. */
    function GetFoodEaten(): (eaten: int)
      reads this, snake
      requires Valid()
      ensures eaten >= 0 && eaten == snakeLength - initialLength
    {
      foodEaten
    }

    function GetSnakeDirection(): (heading: Direction)
      reads this, snake
      requires Valid()
      ensures heading != NONE && newSnakeDirection != Opposite(heading)
    {
      snakeDirection
    }

    /** Segment `index` counted from the head; an index past the tail wraps
        around the ring. */
    function GetSnakePosition(index: int): (position: Coordinate)
      reads this, snake
      requires Valid()
      requires 0 <= index
      ensures index < snakeLength ==> position == Body()[index]
      ensures position == Body()[index % snakeLength]
    {
      var slot := (snakeHeadIndex + index) % snakeLength;
      ViewAt(snake[..], snakeHeadIndex, snakeLength, index);
      assert snake[..][slot] == snake[slot];
      snake[slot]
    }

    function GetFoodPosition(): (food: Coordinate)
      reads this, snake
      requires Valid()
      ensures Sound() && gameStatus == RUNNING ==> InBounds(food, mapMaxCoordinate) && food !in Body()
    {
      foodPosition
    }

    function GetMaxMapCoordinate(): (corner: Coordinate)
      reads this, snake
      requires Valid()
      ensures corner.x >= 0 && corner.y >= 0 && Capacity(corner) == snake.Length
    {
      mapMaxCoordinate
    }

    /** SetSnakeDirection: records a request unless it is NONE or the reverse
        of the committed heading. */
    method SetSnakeDirection(direction: Direction)
      requires Valid()
      modifies this`newSnakeDirection
      ensures Valid() && Sound() == old(Sound())
      ensures newSnakeDirection == if Accepts(snakeDirection, direction) then direction else old(newSnakeDirection)
    {
      match direction {
        case NONE =>
        case LEFT =>
          if snakeDirection != RIGHT {
            newSnakeDirection := direction;
          }
        case RIGHT =>
          if snakeDirection != LEFT {
            newSnakeDirection := direction;
          }
        case UP =>
          if snakeDirection != DOWN {
            newSnakeDirection := direction;
          }
        case DOWN =>
          if snakeDirection != UP {
            newSnakeDirection := direction;
          }
      }
    }

    /** GetNewSnakeHead: the cell ahead of the head. */
    function GetNewSnakeHead(): (newHead: Coordinate)
      reads this, snake
      requires Valid()
      ensures NewHead(Body()[0], snakeDirection) == Some(newHead)
    {
      NewHead(snake[snakeHeadIndex], snakeDirection).value
    }

    /** ExtendSnake: grows the body by one segment at the head, or reports
        that it has become too long. */
    method ExtendSnake(newHead: Coordinate) returns (status: GameStatus)
      requires 0 <= snakeHeadIndex < snakeLength < snake.Length
      requires mapMaxCoordinate.x >= 0 && mapMaxCoordinate.y >= 0
      requires snake.Length == Capacity(mapMaxCoordinate)
      modifies this`snakeLength, snake
      ensures snakeLength == old(snakeLength) + 1
      ensures status == if snakeLength >= snake.Length then GAME_OVER_SNAKE_TOO_LONG else RUNNING
      ensures status == GAME_OVER_SNAKE_TOO_LONG ==> snake[..] == old(snake[..])
      ensures status == RUNNING ==>
                snake[..] == Shifted(old(snake[..]), snakeHeadIndex, snakeLength, newHead) &&
                Body() == [newHead] + old(Body())
    {
      snakeLength := snakeLength + 1;
      if snakeLength >= GetMaxSnakeLength() {
        return GAME_OVER_SNAKE_TOO_LONG;
      }
      var i := snakeLength - 1;
      while i >= snakeHeadIndex
        invariant snakeLength == old(snakeLength) + 1 && snakeLength < snake.Length
        invariant snakeHeadIndex - 1 <= i <= snakeLength - 1
        invariant forall j :: i + 2 <= j <= snakeLength ==> snake[j] == old(snake[j - 1])
        invariant forall j :: 0 <= j < snake.Length && (j <= i + 1 || snakeLength < j) ==> snake[j] == old(snake[j])
      {
        snake[i + 1] := snake[i];
        i := i - 1;
      }
      snake[snakeHeadIndex] := newHead;
      ShiftedFrom(snake[..], old(snake[..]), snakeHeadIndex, snakeLength, newHead);
      return RUNNING;
    }

    /** MoveSnake: slides the body one cell without growing it and reports a
        collision with the body or the wall. */
    method MoveSnake(newHead: Coordinate) returns (status: GameStatus)
      requires 0 <= snakeHeadIndex < snakeLength <= snake.Length
      modifies this`snakeHeadIndex, snake
      ensures snakeHeadIndex == SlideHead(old(snakeHeadIndex), snakeLength)
      ensures snake[..] == old(snake[..])[snakeHeadIndex := newHead]
      ensures Body() == [newHead] + old(Body())[..snakeLength - 1]
      ensures status == if !InBounds(newHead, mapMaxCoordinate) || newHead in old(Body())[..snakeLength - 1]
                        then GAME_OVER_COLLISION else RUNNING
    {
      snakeHeadIndex := if snakeHeadIndex != 0 then snakeHeadIndex - 1 else snakeLength - 1;
      snake[snakeHeadIndex] := newHead;
      SlideView(old(snake[..]), old(snakeHeadIndex), snakeLength, newHead);
      var hitBody := HasCollidedWithSnake();
      if hitBody || HasCollidedWithWall() {
        return GAME_OVER_COLLISION;
      }
      return RUNNING;
    }

    /** CreateNewFood: collects the free cells, x outer and y inner, and puts
        the food on one of them, chosen arbitrarily. `placed` is false when
        there is no free cell; the random pick is then undefined and the food
        is left where it was. */
    method CreateNewFood() returns (placed: bool)
      requires 0 <= snakeLength <= snake.Length
      requires mapMaxCoordinate.x >= 0 && mapMaxCoordinate.y >= 0
      modifies this`foodPosition
      ensures placed <==> FreeCells(mapMaxCoordinate, snake[..snakeLength]) != []
      ensures placed ==> foodPosition in FreeCells(mapMaxCoordinate, snake[..snakeLength])
      ensures !placed ==> foodPosition == old(foodPosition)
    {
      ghost var occupied := snake[..snakeLength];
      var valid: seq<Coordinate> := [];
      var x := 0;
      while x <= mapMaxCoordinate.x
        invariant 0 <= x <= mapMaxCoordinate.x + 1
        invariant valid == GridFree(occupied, x, mapMaxCoordinate.y)
        invariant foodPosition == old(foodPosition)
      {
        var y := 0;
        while y <= mapMaxCoordinate.y
          invariant 0 <= y <= mapMaxCoordinate.y + 1
          invariant valid == GridFree(occupied, x, mapMaxCoordinate.y) + ColumnFree(occupied, x, y)
          invariant foodPosition == old(foodPosition)
        {
          var free := IsFree(x, y);
          assert ColumnFree(occupied, x, y + 1)
              == ColumnFree(occupied, x, y) + (if free then [Coordinate(x, y)] else []);
          if free {
            valid := valid + [Coordinate(x, y)];
          }
          y := y + 1;
        }
        assert GridFree(occupied, x + 1, mapMaxCoordinate.y)
            == GridFree(occupied, x, mapMaxCoordinate.y) + ColumnFree(occupied, x, mapMaxCoordinate.y + 1);
        x := x + 1;
      }
      if valid == [] {
        return false;
      }
      var k :| 0 <= k < |valid|;
      foodPosition := valid[k];
      return true;
    }

    /** The innermost loop of CreateNewFood: whether no segment slot holds
        the cell (x, y). */
    method IsFree(x: int, y: int) returns (free: bool)
      requires 0 <= snakeLength <= snake.Length
      ensures free <==> Coordinate(x, y) !in snake[..snakeLength]
    {
      var i := 0;
      while i < snakeLength
        invariant 0 <= i <= snakeLength
        invariant Coordinate(x, y) !in snake[..i]
      {
        if snake[i].x == x && snake[i].y == y {
          assert snake[..snakeLength][i] == Coordinate(x, y);
          return false;
        }
        i := i + 1;
      }
      return true;
    }

    /** HasCollidedWithSnake: whether the head slot equals any other slot of
        the ring. */
    method HasCollidedWithSnake() returns (collided: bool)
      requires 0 <= snakeHeadIndex < snakeLength <= snake.Length
      ensures collided <==> Body()[0] in Body()[1..]
    {
      SelfCollision(snake[..], snakeHeadIndex, snakeLength);
      var i := 0;
      while i < snakeLength
        invariant 0 <= i <= snakeLength
        invariant forall j :: 0 <= j < i && j != snakeHeadIndex ==> snake[j] != snake[snakeHeadIndex]
      {
        if i != snakeHeadIndex && Equal(snake[i], snake[snakeHeadIndex]) {
          assert snake[..][i] == snake[..][snakeHeadIndex];
          return true;
        }
        i := i + 1;
      }
      return false;
    }

    /** HasCollidedWithWall: whether the head has left the map. */
    function HasCollidedWithWall(): (hit: bool)
      reads this, snake
      requires 0 <= snakeHeadIndex < snakeLength <= snake.Length
      ensures hit <==> !InBounds(Body()[0], mapMaxCoordinate)
    {
      snake[snakeHeadIndex].x < 0 || snake[snakeHeadIndex].x > mapMaxCoordinate.x ||
      snake[snakeHeadIndex].y < 0 || snake[snakeHeadIndex].y > mapMaxCoordinate.y
    }

    /** UpdateIterationCheck: lowers the threshold after every
        numFoodBeforeUpdatingIterationCount-th meal, clamped at iterationMin. */
    method UpdateIterationCheck()
      requires numFoodBeforeUpdatingIterationCount != 0
      modifies this`numIterationsBeforeUpdating
      ensures numIterationsBeforeUpdating
           == NextThreshold(foodEaten, old(numIterationsBeforeUpdating), numFoodBeforeUpdatingIterationCount,
                            iterationDecrement, iterationMin)
    {
      if foodEaten % numFoodBeforeUpdatingIterationCount == 0 {
        numIterationsBeforeUpdating := numIterationsBeforeUpdating - iterationDecrement;
        if numIterationsBeforeUpdating < iterationMin {
          numIterationsBeforeUpdating := iterationMin;
        }
      }
    }
  }
}
