# Snake engine model

A Dafny model of the simulation engine of a desktop snake game: the class
`snake::Game` and the value types it works on. A game holds:

- the snake's body in a buffer with one slot per map cell, used as a ring
  whose size is the current length;
- the committed heading and a pending one;
- the food cell and the count of meals;
- a tick counter and a threshold that set the pace;
- a status that ends the game on a collision or when the snake fills the map.

`RunSingleIteration` advances the game by one call. `SetSnakeDirection`
records a turn unless it would reverse the snake.

Files and modules:

- `types.dfy` (`Types`): directions, statuses, coordinates and their
  `==`/`!=`, and the parameter bundle.
- `motion.dfy` (`Motion`): the no-reversal rule, the one-cell step and the
  straight initial layout.
- `ring.dfy` (`Ring`): the body as a list read off the ring. `View(slots,
  head, length)` is `[GetSnakePosition(0), ..., GetSnakePosition(length-1)]`.
  The module also holds what a slide and a growth do to that list.
- `grid.dfy` (`Grid`): map bounds and the map's cell count. It holds the
  food scan, which lists the free cells x outer and y inner. It also holds
  the counting argument that a free cell exists while the body is shorter
  than the map.
- `speed.dfy` (`Speed`): the tick gate and the threshold update.
- `arith.dfy` (`Arith`): facts about `%` used by the ring and the counter.
- `seqs.dfy` (`Seqs`): sequences without repeated elements, and the
  pigeonhole fact that such a sequence drawn from another is no longer.
- `game.dfy` (`Game`): the class `Game`, with the same fields as the source.
  It has three predicates:
  - `Valid()` is the representation invariant. It includes the link between
    the threshold and the number of meals.
  - `Sound()` says that while the game runs, the body lies on the map
    without overlaps and the food sits on a free cell.
  - `Body()` is the body read from the ring.
- `scenarios.dfy` (`Scenarios`): concrete sessions. One uses the desktop
  front end's parameters. One shows the no-reversal rule. One shows the
  food placement after a too-long game over.

`RunSingleIteration` is split into `Advance` (commit the turn and step),
`EatFood`/`Grow` (game.cc:52-56) and `Slide` (game.cc:57-59). The
innermost loop of `CreateNewFood` is the method `IsFree`. These methods
keep the source's statements in the source's order. They exist only so
that each proof stays small.

The random pick of a food cell is a nondeterministic choice among the
collected candidates. `GetNewSnakeHead` throws on a NONE heading; this is
the `None` of `Motion.NewHead`, and `Valid()` rules it out for a game.

## Model

| member | source | states |
|---|---|---|
| Types.IsTerminal | snake/snake/types.h:44-48 | RUNNING is the only non-terminal status |
| Types.Equal | snake/snake/types.h:50-52 | coordinate `==` holds exactly when the two coordinates are the same value (x and y both agree) |
| Types.NotEqual | snake/snake/types.h:54-56 | `!=` holds exactly when the coordinates differ, the negation of `==` |
| Motion.Opposite | snake/snake/game.cc:81-107 | the reverse heading is NONE only for NONE and never the heading itself |
| Motion.OppositeInvolution | snake/snake/game.cc:81-107 | reversing a heading twice gives it back |
| Motion.Accepts | snake/snake/game.cc:81-107 | the switch accepts a request exactly when it is not NONE and not the reverse of the current heading, for all four headings including the DOWN fall-through |
| Motion.NewHead | snake/snake/game.cc:135-148 | the next head is adjacent to the old one and keeps x for UP/DOWN and y for LEFT/RIGHT; there is no next head exactly for NONE, where the source throws |
| Motion.StepThenBack | snake/snake/game.cc:135-148 | one step along a heading followed by one along its reverse returns to the start |
| Motion.StepsDiffer | snake/snake/game.cc:135-148 | different headings lead from the same cell to different cells |
| Motion.InitialBody | snake/snake/game.cc:109-133 | the initial body has the requested length, starts at the start cell, has each segment one step behind the previous one along the start heading, and has no repeated cell |
| Ring.ViewAt | snake/snake/game.cc:72-75 | reading slot (head + i) % length gives segment i of the body, and an index past the tail wraps around |
| Ring.ViewIsRotation | snake/snake/game.cc:183-188 | the body read from the ring is a permutation of slots 0 .. length-1, so scanning those slots scans the body |
| Ring.SlideHead | snake/snake/game.cc:164-165 | the new head slot stays in the ring and is the old one minus 1, wrapping at 0 |
| Ring.SlideView | snake/snake/game.cc:163-166 | after the slide the body is the new head followed by the old body without its last segment |
| Ring.Shifted | snake/snake/game.cc:156-159 | the shifted buffer keeps the buffer's size |
| Ring.ShiftedAt | snake/snake/game.cc:156-159 | slots below the head keep their value, the head slot takes the new head, slots up to the new length take their lower neighbour's value, the rest are unchanged |
| Ring.ShiftedFrom | snake/snake/game.cc:156-159 | a buffer holding the new head in the head slot, the old slots head .. newLength-1 one place up and the old values elsewhere is the shifted buffer, and its ring is the grown body |
| Ring.GrowView | snake/snake/game.cc:151-161 | after growth the body is the new head followed by the whole old body |
| Ring.SelfCollision | snake/snake/game.cc:203-214 | some other ring slot equals the head slot exactly when the head cell recurs later in the body |
| Grid.FreeCells | snake/snake/game.cc:175-195 | a cell is a food candidate exactly when it lies on the map and no scanned slot holds it |
| Grid.FreeCellsInScanOrder | snake/snake/game.cc:177-178 | the candidates are listed x outer and y inner, each once |
| Grid.CellCount | snake/snake/game.cc:223-225 | the map has exactly (max.x+1)(max.y+1) cells |
| Seqs.DistinctWithin | snake/snake/game.cc:175-195 | a list of distinct cells all taken from another list is no longer than it |
| Grid.FreeCellExists | snake/snake/game.cc:197-200 | while fewer slots are scanned than the map has cells, some candidate exists, so the random range is not empty |
| Speed.CounterPeriod | snake/snake/game.cc:39-43 | with threshold T, the counter after k calls is k mod (T+1) |
| Speed.MovesEveryPeriod | snake/snake/game.cc:39-43 | call k moves exactly when k is a multiple of T+1, so threshold 10 moves on the 11th call |
| Speed.NextThreshold | snake/snake/game.cc:227-234 | the threshold stays put unless the meal count is a multiple of n. Then it drops by the decrement, or becomes exactly the minimum when the drop would go below it. It stays between the minimum and its old value when the decrement is non-negative |
| Speed.ThresholdNonIncreasing | snake/snake/game.cc:227-234 | over a session the threshold never rises and never drops below the minimum, when the decrement is non-negative and the start is at least the minimum |
| Game.SaneStartFits | snake/snake/game.cc:10-32 | when the initial body and food are distinct cells of the map, the initial length is below the cell count |
| Game.GrowthKeepsSound | snake/snake/game.cc:151-161 | growing onto the food cell, which is on the map and off the body, keeps the body on the map and free of overlaps, and the new food is off the grown body |
| Game.SlideKeepsSound | snake/snake/game.cc:163-172 | a slide that hits neither wall nor body keeps the body on the map and free of overlaps, and the food stays off the body |
| Game.Game.constructor | snake/snake/game.cc:10-32 | the game starts running with the initial body in slots 0 .. length-1 and head slot 0. The rest of the buffer is filled with (0, 0). The minimum threshold is clamped to at least 1. When the start is sane, the game starts sound |
| Game.Game.InitSnake | snake/snake/game.cc:109-133 | the first length slots hold the initial body and the others are unchanged |
| Game.Game.RunSingleIteration | snake/snake/game.cc:34-62 | the invariant and soundness are kept. A finished game returns its status and changes nothing. A running game's counter follows the speed gate, and a waiting call changes only the counter. A moving call resets the counter and commits the pending heading, which is never the reverse of the old one. Eating adds one meal and one segment, updates the speed, ends the game once the length reaches the cell count, and otherwise grows the body and puts the food on a free cell. Otherwise the body slides, and the game ends exactly when the new head is off the map or on a segment that stays |
| Game.Game.Advance | snake/snake/game.cc:45-60 | the moving part of a call: the pending heading is committed and cleared, then the eat and slide outcomes as for RunSingleIteration |
| Game.Game.EatFood | snake/snake/game.cc:52-56 | one more meal and segment, the speed update, too long exactly when the length reaches the buffer size (nothing else moves then), and otherwise growth plus food on a free cell |
| Game.Game.Grow | snake/snake/game.cc:55-56 | growth, and new food placed on a free cell only while the game still runs; after a too-long result the buffer and the food are left unchanged |
| Game.Game.Slide | snake/snake/game.cc:57-59 | the ordinary move keeps the invariant and soundness, and slides the body |
| Game.Game.GetGameStatus | snake/snake/game.cc:64 | a running game is shorter than the maximum length |
| Game.Game.GetSnakeLength | snake/snake/game.cc:66 | the length is the number of body segments, between 1 and the maximum length |
| Game.Game.GetMaxSnakeLength | snake/snake/game.cc:223-225 | the maximum length is the number of map cells |
| Game.Game.GetFoodEaten | snake/snake/game.cc:68 | each meal added exactly one segment |
| Game.Game.GetSnakeDirection | snake/snake/game.cc:70 | the heading is never NONE and the pending heading never reverses it |
| Game.Game.GetSnakePosition | snake/snake/game.cc:72-75 | index i below the length gives segment i from the head; larger indices wrap around the body |
| Game.Game.GetFoodPosition | snake/snake/game.cc:77 | in a sound running game the food is on the map and off the body |
| Game.Game.GetMaxMapCoordinate | snake/snake/game.cc:79 | the corner is non-negative and its cell count is the buffer size |
| Game.Game.SetSnakeDirection | snake/snake/game.cc:81-107 | only the pending heading changes, and only to an accepted request; the invariant and soundness are kept |
| Game.Game.GetNewSnakeHead | snake/snake/game.cc:135-149 | the result is the step from the current head along the heading |
| Game.Game.ExtendSnake | snake/snake/game.cc:151-161 | the length grows by one. Too long is reported exactly when the length reaches the buffer size, and then the buffer is untouched. Otherwise the slots from the head up shift by one and the body becomes the new head followed by the old body |
| Game.Game.MoveSnake | snake/snake/game.cc:163-173 | the head slot moves back one place around the ring and takes the new head. The body is the new head followed by the old body without its tail. A collision is reported exactly when the head is off the map or on a remaining segment |
| Game.Game.CreateNewFood | snake/snake/game.cc:175-201 | a cell is chosen exactly when a free cell exists, and then the food is on one; otherwise the food stays where it was |
| Game.Game.IsFree | snake/snake/game.cc:183-188 | the cell is free exactly when no slot of the ring holds it |
| Game.Game.HasCollidedWithSnake | snake/snake/game.cc:203-214 | a collision is reported exactly when the head cell recurs later in the body |
| Game.Game.HasCollidedWithWall | snake/snake/game.cc:216-221 | reported exactly when the head is off the map |
| Game.Game.UpdateIterationCheck | snake/snake/game.cc:227-234 | the threshold becomes NextThreshold of the meal count |
| Scenarios.FrontEndParams | snake/snake/main.cc:53-62 | the desktop parameters: a 25 x 25 map, two segments, threshold 10 |
| Scenarios.FirstMoveAfterEleventhCall | snake/snake/game.cc:39-43 | with the desktop parameters the first ten calls wait; the eleventh moves the head from (10, 10) to (11, 10) and resets the counter |
| Scenarios.ReversalIgnored | snake/snake/game.cc:81-107 | heading up, a request for DOWN is ignored and the next move still goes up |
| Scenarios.FoodAfterTooLongAsWritten | snake/snake/game.cc:52-56 | calling CreateNewFood after a too-long result, as the source does, can find no free cell |

## Left out

- The random device, engine and distribution (game.cc:197-199) are not
  modelled. The pick is any index into the candidate list.
- `valid_food_positions_buffer_` is a local sequence in `CreateNewFood`.
  In the source it is a field, but only `CreateNewFood` uses it, as
  scratch space.
- The exception object and its message (game.cc:147) are not modelled.
  `Motion.NewHead` returns `None` for NONE, and `Valid()` keeps the heading
  from ever being NONE.
- The `bool valid` block that does nothing (game.cc:179-181) is not
  modelled.
- C++ `int` overflow is not modelled. Coordinates and counters are
  mathematical integers.
- The window, keyboard, clock and drawing of main.cc are not modelled.
  Only its parameter bundle is used, in `Scenarios.FrontEndParams`.
- Game.Game.constructor: requires a map corner of at least (0, 0) and a
  start length from 1 up to one less than the cell count. A start length
  above the cell count makes `InitSnake` write past the buffer. A start
  length equal to the cell count gives a full-length game. Its first meal
  raises the length past the buffer, and `CreateNewFood` then reads the
  slot past the end (game.cc:152-153, 183). No sane start has that length
  (`Game.SaneStartFits`). The constructor also requires a start heading
  other than NONE. With NONE, `InitSnake` takes its do-nothing default
  (game.cc:128-130), so no body is laid out and every slot stays (0, 0).
  The first moving call then throws (game.cc:147) unless a turn was
  requested before it: `SetSnakeDirection` accepts any turn while the
  heading is NONE, and the moving call commits it. It requires a meal step
  n other than 0, because the source would take a remainder by zero.
- Game.Game.GetSnakePosition: requires a non-negative index, following
  the range [0, length) that game.h:33-34 documents. Indices past the tail
  are kept and wrap as the source does. A negative index is not modelled.
  In the source a negative index reads slot (head + index) % length with
  C++'s truncating `%`. That is an in-ring slot when head + index >= 0
  (head slot 2 and index -1 give slot 1) or when head + index is a
  multiple of the length (slot 0). Otherwise it is a negative slot,
  outside the buffer.
- Game.Game.RunSingleIteration: it does not call `CreateNewFood` after a
  too-long result (see Findings). `Scenarios.FoodAfterTooLongAsWritten`
  models the source as written.
- Soundness is promised only when the start is sane (`SaneStart`). That
  means the initial body and food are on the map and the food is off the
  body. The source does not check this, and growth does no wall or body
  check.

## Findings

| source | as written | input that shows it | evidently intended | confidence | as-written member | corrected member |
|---|---|---|---|---|---|---|
| snake/snake/game.cc:55-56 | `CreateNewFood` runs even when `ExtendSnake` returned GAME_OVER_SNAKE_TOO_LONG. The length has then reached the cell count, so the scan also counts the stale slot past the old tail. | A 2 x 1 map (corner (1, 0)) with a one-segment snake at (1, 0) heading LEFT, food at (0, 0) and threshold 0. The first call eats and ends the game. The scan sees (1, 0) and the stale (0, 0), so it finds no free cell, and `uniform_int_distribution(0, -1)` is undefined. | Place new food only while the game still runs, which is always possible because a running snake is shorter than the map. | not executed | Scenarios.FoodAfterTooLongAsWritten | Game.Game.Grow |
