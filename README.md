# Snake game engine, modelled in Dafny

This project models `SnakeGame`, the game-state engine of a C++ Snake game.
The engine owns:

- the snake's body, a sequence of grid cells with the head first;
- the food cell;
- the direction in effect and a buffered next direction;
- the score;
- the game-over and paused flags.

It offers one tick (`update`), a buffered turn with an anti-reversal rule
(`changeDirection`), `togglePause`, `resetGame`, food placement by rejection
sampling (`generateFood`), the wall and self collision test (`checkCollision`)
and read-only getters. The board is 30 × 30 cells.

Files:

- `snake_types.dfy` (module `SnakeTypes`): the header's value types. This is
  `Point` with its equality operator, the five-valued `Direction`, the grid
  side `GridSize` and the on-board test `InBounds`.
- `grid.dfy` (module `Grid`): counting the board's cells. Its main fact is the
  pigeonhole lemma: a body shorter than the board leaves a free cell. That is
  why food placement ends.
- `snake_rules.dfy` (module `SnakeRules`): the engine's rules on plain values.
  A `GameState` holds what the engine stores. There is one function per state
  change (`Tick`, `ChangeDirection`, `TogglePause`, `InitialState`). `Inv` is
  the invariant every reachable state keeps. The lemmas state what each change
  promises.
- `snake_game.dfy` (module `SnakeEngine`): class `SnakeGame`, with the same
  fields the C++ class updates in place. Each public method that changes
  state (`ResetGame`, `Update`, `ChangeDirection`, `TogglePause`) is proved to
  turn `State()` into the value the matching `SnakeRules` function gives, and
  to keep `Valid()`. The private `GenerateFood` is the exception: it has no
  `SnakeRules` counterpart and is called while the invariant is broken (the
  new head sits on the old food). It changes only `food` and ensures the new
  food is on the board and off the current body. It keeps the source's retry
  loop and its scan over the body. `CheckCollision` keeps its indexed loop
  from 1.

The invariant says the following.

While alive:

- the body has at least two cells, pairwise different and all on the board;
- the food is on the board and off the body;
- the score is 10 × (length − 2);
- a real direction is in effect;
- the neck lies one cell behind the head in that direction;
- the buffered direction does not reverse the direction in effect.

After the game ends, the body is the last living body with the fatal head in
front of it, and that head collides. The fatal head is one cell from the old
head in the last direction when that direction is a real one, and the old
head's own cell when it is `None`.

Randomness is modelled as a free choice. Each draw of `generateFood` picks any
on-board cell that an earlier draw of the same call has not already rejected.
This can land on every cell the source's sampler can accept, and it lets the
loop be proved to end. The time-based seeding is not modelled.

## Model

| member | source | states |
|---|---|---|
| SnakeTypes.PointEq | include/SnakeGame.hpp:11-13 | the operator is true exactly when both coordinates agree, i.e. when the two points are equal |
| SnakeTypes.DirectionValues | include/SnakeGame.hpp:19-21 | a direction is one of Up, Down, Left, Right, None, and these five are pairwise different |
| SnakeEngine.SnakeGame.GetGridSize | include/SnakeGame.hpp:38 | returns the grid side 30, whose square is the number of cells |
| SnakeEngine.SnakeGame.GetSnakeBody | include/SnakeGame.hpp:33 | returns the stored body head-first; under the invariant it has at least two cells, and while alive they are distinct, on the board, and number 2 + score/10 |
| SnakeEngine.SnakeGame.GetFoodPosition | include/SnakeGame.hpp:34 | returns the stored food, which under the invariant is on the board and not on the body, even after a fatal tick |
| SnakeEngine.SnakeGame.GetScore | include/SnakeGame.hpp:35 | returns the stored score, which under the invariant is a multiple of ten in [0, MaxScore] |
| SnakeEngine.SnakeGame.IsGameOver | include/SnakeGame.hpp:36 | returns the stored flag; when set under the invariant, the stored head collides |
| SnakeEngine.SnakeGame.IsPaused | include/SnakeGame.hpp:37 | returns the stored paused flag |
| SnakeEngine.SnakeGame.constructor | src/SnakeGame.cpp:5-9 | a new engine is in the state resetGame builds and satisfies the invariant |
| SnakeEngine.SnakeGame.ResetGame | src/SnakeGame.cpp:11-22 | the state becomes the initial state around the freshly placed food, and the invariant holds |
| SnakeRules.Offset | src/SnakeGame.cpp:33-50 | the new-head switch: Up adds one to y, Down subtracts one from y, Left subtracts one from x, Right adds one to x, None keeps the cell |
| SnakeRules.Collides | src/SnakeGame.cpp:110-128 | the collision condition on a body whose head was just pushed: the head is outside [0,29]², or it equals an element at index 1 or later |
| SnakeRules.InitialState | src/SnakeGame.cpp:11-22 | what resetGame builds around the placed food: body [(16,15), (15,15)], both directions Right, score 0, both flags false |
| SnakeRules.Tick | src/SnakeGame.cpp:24-69 | one update, with three outcomes: halted (game over or paused) leaves the state unchanged; otherwise the buffered direction becomes current and the new head is pushed, then a collision sets game over and keeps the head; eating adds 10 points and takes the placed food; any other move drops the tail |
| SnakeRules.ChangeDirection | src/SnakeGame.cpp:71-80 | changeDirection on values: a reversal of the current direction is ignored, any other request becomes the buffered direction |
| SnakeRules.TogglePause | src/SnakeGame.cpp:82-84 | togglePause on values: the paused flag is negated |
| SnakeRules.Inv | include/SnakeGame.hpp:41-47 | the invariant over the stored fields: while alive, a distinct on-board body of at least two cells, food on the board and off it, score 10 × (length − 2), a real current direction with the neck behind the head and an unreversed buffer; after the fatal tick, the last living body with the fatal head in front of it (one cell away in a real direction, the same cell for None), colliding |
| SnakeRules.InitialStateValid | src/SnakeGame.cpp:11-22 | the initial body is exactly [(16,15), (15,15)]; both directions are Right; score is 0; both flags are false; with food on the board and off the body, the invariant holds |
| SnakeEngine.SnakeGame.Update | src/SnakeGame.cpp:24-69 | one tick turns the stored state into Tick of the old state (with the food it placed) and keeps the invariant; it is excluded only on a tick whose eating would fill the board |
| SnakeRules.TickHalted | src/SnakeGame.cpp:24-27 | a tick changes nothing when the game is over or paused |
| SnakeRules.PausedTicksChangeNothing | src/SnakeGame.cpp:24-27 | any run of ticks while paused leaves the state unchanged |
| SnakeRules.TickMovesHead | src/SnakeGame.cpp:29-53 | a live tick makes the buffered direction current, keeps the buffer, and puts the new head where that direction leads from the old head (one cell away in a real direction, the same cell for None), with the old head behind it |
| SnakeRules.OffsetInverse | src/SnakeGame.cpp:33-50 | Up, Down, Left and Right move exactly one cell, and the opposite move undoes it; None leaves the cell unchanged |
| SnakeRules.NoneDirectionCollides | src/SnakeGame.cpp:47-53 | with None buffered the new head equals the old head, now at index 1, so the tick ends the game |
| SnakeRules.TickCollision | src/SnakeGame.cpp:55-59 | a colliding tick sets game over and keeps the extra head untrimmed: length grows by one; score and food are unchanged |
| SnakeRules.EnteringTailCollides | src/SnakeGame.cpp:52-68 | the test runs before the tail is dropped, so entering the cell the tail occupies ends the game with the grown body |
| SnakeRules.EnteringBodyCollides | src/SnakeGame.cpp:121-125 | entering any cell of the current body ends the game, and the body becomes that cell followed by the old body |
| SnakeRules.WallCollision | src/SnakeGame.cpp:114-117 | a head at x = 29 moving Right ends the game |
| SnakeRules.TickEats | src/SnakeGame.cpp:61-64 | eating raises the score by exactly 10 and the length by exactly 1; the new food is the placed cell; a valid placement puts it on the board and off the grown body |
| SnakeRules.FoodIsSafe | src/SnakeGame.cpp:55-64 | from a valid live state, moving onto the food never collides, so that tick always eats |
| SnakeRules.TickMoves | src/SnakeGame.cpp:65-68 | otherwise the head is pushed and the last cell dropped: length, score and food are unchanged and the game goes on |
| SnakeRules.TickPreservesInv | src/SnakeGame.cpp:24-68 | a tick keeps the invariant, given a food placement on the board and off the grown body |
| SnakeRules.InvBounds | src/SnakeGame.cpp:62-64 | under the invariant a live body is shorter than the board; every stored coordinate is in [-1, 30]; the score is a multiple of ten in [0, 8970], far inside the source's int; the food is never on the body |
| SnakeRules.FirstTick | src/SnakeGame.cpp:11-68 | after reset (food elsewhere) the first tick moves the head from (16,15) to (17,15), keeps length two and does not end the game |
| SnakeEngine.SnakeGame.ChangeDirection | src/SnakeGame.cpp:71-80 | the stored state becomes ChangeDirection of the old one; only the buffered direction can change; the invariant is kept |
| SnakeRules.ReversalIsOpposite | src/SnakeGame.cpp:73-76 | the four rejected pairs are exactly the requests that are the opposite of a real current direction |
| SnakeRules.ChangeDirectionEffect | src/SnakeGame.cpp:71-80 | a reversal of the current (not buffered) direction leaves the state unchanged; any other request becomes the buffered direction; nothing else changes |
| SnakeRules.AntiReversalExample | src/SnakeGame.cpp:76-79 | with Right in effect, Left leaves the buffer unchanged and Up is buffered |
| SnakeRules.ChangeDirectionPreservesInv | src/SnakeGame.cpp:71-80 | a direction request keeps the invariant |
| SnakeRules.ReversalHitsNeck | src/SnakeGame.cpp:72-79 | while alive, a move enters the neck exactly when it reverses the current direction |
| SnakeRules.NeverHitsNeck | src/SnakeGame.cpp:71-80 | so no live tick from a valid state enters the neck |
| SnakeEngine.SnakeGame.TogglePause | src/SnakeGame.cpp:82-84 | the stored state becomes the old one with the paused flag flipped, and the invariant is kept |
| SnakeRules.TogglePauseTwice | src/SnakeGame.cpp:82-84 | toggling flips only the paused flag, two toggles restore the state, and the invariant is kept |
| SnakeEngine.SnakeGame.GenerateFood | src/SnakeGame.cpp:86-108 | with a body shorter than the board, the retry loop ends with the food on the board and off the body; only the food changes |
| Grid.FreeCellExists | src/SnakeGame.cpp:91-107 | a body shorter than the 900-cell board leaves at least one free on-board cell, so some draw is accepted |
| SnakeEngine.SnakeGame.CheckCollision | src/SnakeGame.cpp:110-128 | returns true exactly when the head is outside [0,29]² or equals some body element at index 1 or later |

## Left out

- SnakeEngine.SnakeGame.GenerateFood: the source draws both coordinates uniformly from a seeded `std::mt19937`. The model makes each draw a free choice among the on-board cells not yet rejected in this call. It proves where the food can land, but not the distribution and not that a rejected cell can be drawn again.
- SnakeEngine.SnakeGame.Update: the tick on which eating would fill all 900 cells is excluded by a precondition. On that tick the source's sampler can never succeed and `update` never returns.
- The random source and its time-based seeding in the constructor are not modelled, because they are clock input and a library engine.
- The window, drawing, text, timer and key handling (`GameWindow`, `main`) are not part of this model. They are presentation code that calls the engine's API.
- The body is a `seq`, so the deque's constant-time push-front and pop-back are not modelled.
- `getSnakeBody` and `getFoodPosition` return const references in the source. Here they return values, so aliasing is not modelled.
- Integer width: the model uses unbounded integers. It proves that stored coordinates stay in [-1, 30] and the score in [0, 8970] (`SnakeRules.InvBounds`), so the source's `int` never wraps.

`changeDirection` accepts `None` and writes the buffer even after the game
has ended. The model does the same.
