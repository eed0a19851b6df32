/** The engine's rules on plain values: one function per state change of
    SnakeGame, the invariant every reachable state keeps, and what each
    change promises. The class in snake_game.dfy is proved against these. */
module SnakeRules {
  import opened SnakeTypes
  import opened Grid

  // ---------------------------------------------------------------- moves

  /** The cell one step from p in direction d; y grows upwards. The sentinel
      None leaves the cell where it is. */
  function Offset(p: Point, d: Direction): Point {
    match d
    case Up => p.(y := p.y + 1)
    case Down => p.(y := p.y - 1)
    case Left => p.(x := p.x - 1)
    case Right => p.(x := p.x + 1)
    case None => p
  }

  /** The reverse of a direction (None has none). */
  function Opposite(d: Direction): Direction {
    match d
    case Up => Down
    case Down => Up
    case Left => Right
    case Right => Left
    case None => None
  }

  /** The anti-reversal rule: the request is the exact reverse of the
      direction now in effect. */
  predicate IsReversal(current: Direction, requested: Direction) {
    || (current == Up && requested == Down)
    || (current == Down && requested == Up)
    || (current == Left && requested == Right)
    || (current == Right && requested == Left)
  }

  /** The four rejected pairs are exactly "requested is the opposite of a
      real direction". */
  lemma ReversalIsOpposite(current: Direction, requested: Direction)
    ensures IsReversal(current, requested) <==> current != None && requested == Opposite(current)
  {
  }

  /** A step followed by a step in the opposite direction returns to the
      start; a real direction moves exactly one cell, None none. */
  lemma OffsetInverse(p: Point, d: Direction)
    ensures Offset(Offset(p, d), Opposite(d)) == p
    ensures d == None <==> Offset(p, d) == p
    ensures d != None ==> Abs(Offset(p, d).x - p.x) + Abs(Offset(p, d).y - p.y) == 1
  {
  }

  function Abs(n: int): nat {
    if n < 0 then -n else n
  }

  // ------------------------------------------------------------ collision

  /** The collision test on a body whose head is the cell just entered: the
      head is off the board, or it equals some later segment. */
  predicate Collides(body: seq<Point>)
    requires body != []
  {
    !InBounds(body[0]) || body[0] in body[1..]
  }

  // ---------------------------------------------------------------- state

  /** Everything the engine stores, except its random source. */
  datatype GameState = GameState(
    body: seq<Point>,   // head first
    food: Point,
    current: Direction,
    next: Direction,    // buffered for the next tick
    score: int,
    gameOver: bool,
    paused: bool)

  /** The state resetGame builds, given the cell food placement picked. */
  function InitialState(food: Point): GameState {
    GameState([Point(GridSize / 2 + 1, GridSize / 2), Point(GridSize / 2, GridSize / 2)],
              food, Right, Right, 0, false, false)
  }

  /** A tick does nothing in these states. */
  predicate Halted(s: GameState) {
    s.gameOver || s.paused
  }

  /** The cell the head enters on the next tick. */
  function NewHead(s: GameState): Point
    requires s.body != []
  {
    Offset(s.body[0], s.next)
  }

  /** The next tick moves the head onto the food without colliding. */
  predicate Eats(s: GameState)
    requires s.body != []
  {
    !Halted(s) && !Collides([NewHead(s)] + s.body) && NewHead(s) == s.food
  }

  /** One tick of update: commit the buffered direction, push the new head,
      then either end the game, grow onto the food (which moves to newFood),
      or drop the tail. */
  function Tick(s: GameState, newFood: Point): GameState
    requires s.body != []
  {
    if Halted(s) then s
    else
      var head := NewHead(s);
      var grown := [head] + s.body;
      if Collides(grown) then
        s.(current := s.next, body := grown, gameOver := true)
      else if head == s.food then
        s.(current := s.next, body := grown, score := s.score + 10, food := newFood)
      else
        s.(current := s.next, body := grown[..|grown| - 1])
  }

  /** A run of ticks, the i-th drawing foods[i] if it eats. */
  function Ticks(s: GameState, foods: seq<Point>): GameState
    requires s.body != []
    decreases |foods|
  {
    if foods == [] then s else Ticks(Tick(s, foods[0]), foods[1..])
  }

  /** What food placement delivers on a tick: when the snake eats, a cell on
      the board and off the grown body. */
  predicate FoodChoiceOk(s: GameState, f: Point)
    requires s.body != []
  {
    Eats(s) ==> InBounds(f) && f !in [NewHead(s)] + s.body
  }

  /** The tick on which eating would leave no free cell, so that food
      placement by rejection sampling would never finish. */
  predicate FillsBoard(s: GameState)
    requires s.body != []
  {
    Eats(s) && |s.body| + 1 >= GridCells
  }

  /** changeDirection: buffer the request unless it reverses the direction
      now in effect. */
  function ChangeDirection(s: GameState, d: Direction): GameState {
    if IsReversal(s.current, d) then s else s.(next := d)
  }

  /** togglePause. */
  function TogglePause(s: GameState): GameState {
    s.(paused := !s.paused)
  }

  // ------------------------------------------------------------ invariant

  /** A living snake: at least two pairwise different on-board cells, food
      on the board and off the body, ten points per segment beyond two. */
  predicate LiveBody(body: seq<Point>, food: Point, score: int) {
    && |body| >= 2
    && Distinct(body)
    && (forall i :: 0 <= i < |body| ==> InBounds(body[i]))
    && InBounds(food)
    && food !in body
    && score == 10 * (|body| - 2)
  }

  /** What holds of every state the engine reaches. While alive: a living
      body, a real direction in effect with the neck right behind the head,
      and a buffered direction that does not reverse it. After the game
      ends: the fatal head where the last direction leads from the last
      living body's head (one cell away in a real direction, the same cell
      for None) in front of that body, and it collides. */
  predicate Inv(s: GameState) {
    if s.gameOver then
      && |s.body| >= 3
      && LiveBody(s.body[1..], s.food, s.score)
      && s.body[0] == Offset(s.body[1], s.current)
      && Collides(s.body)
    else
      && LiveBody(s.body, s.food, s.score)
      && s.current != None
      && s.body[1] == Offset(s.body[0], Opposite(s.current))
      && !IsReversal(s.current, s.next)
  }

  /** The highest score a reachable state can hold. */
  const MaxScore: int := 10 * (GridCells - 3)

  // --------------------------------------------------------------- lemmas

  /** resetGame: the two-cell body at the centre, head first and to the
      right, both directions Right, score 0, both flags clear; with a food
      cell placed off the body, the invariant holds. */
  lemma InitialStateValid(f: Point)
    requires InBounds(f) && f !in InitialState(f).body
    ensures InitialState(f).body == [Point(16, 15), Point(15, 15)]
    ensures InitialState(f).current == Right && InitialState(f).next == Right
    ensures InitialState(f).score == 0
    ensures !InitialState(f).gameOver && !InitialState(f).paused
    ensures Inv(InitialState(f))
  {
  }

  /** update returns at once when the game is over or paused. */
  lemma TickHalted(s: GameState, f: Point)
    requires s.body != [] && Halted(s)
    ensures Tick(s, f) == s
  {
  }

  /** Any number of ticks while paused leave the state as it was. */
  lemma {:induction false} PausedTicksChangeNothing(s: GameState, foods: seq<Point>)
    requires s.body != [] && s.paused
    ensures Ticks(s, foods) == s
  {
    if foods != [] {
      TickHalted(s, foods[0]);
      PausedTicksChangeNothing(s, foods[1..]);
    }
  }

  /** A live tick commits the buffered direction and puts the new head where
      it leads from the old head (one cell away in a real direction, the same
      cell for None); the buffer is kept and the game stays unpaused. */
  lemma TickMovesHead(s: GameState, f: Point)
    requires s.body != [] && !Halted(s)
    ensures Tick(s, f).current == s.next && Tick(s, f).next == s.next
    ensures Tick(s, f).body != [] && Tick(s, f).body[0] == Offset(s.body[0], s.next)
    ensures |Tick(s, f).body| >= 2 ==> Tick(s, f).body[1] == s.body[0]
    ensures !Tick(s, f).paused
  {
  }

  /** A colliding tick ends the game and keeps the extra head: the body is
      one longer, and score and food are unchanged. */
  lemma TickCollision(s: GameState, f: Point)
    requires s.body != [] && !Halted(s)
    requires Collides([NewHead(s)] + s.body)
    ensures Tick(s, f).gameOver
    ensures Tick(s, f).body == [NewHead(s)] + s.body
    ensures |Tick(s, f).body| == |s.body| + 1
    ensures Tick(s, f).score == s.score && Tick(s, f).food == s.food
  {
  }

  /** Entering any cell of the current body is fatal, the collision test
      running before the tail is dropped. */
  lemma EnteringBodyCollides(s: GameState, f: Point, i: int)
    requires 0 <= i < |s.body| && !Halted(s)
    requires NewHead(s) == s.body[i]
    ensures Tick(s, f).gameOver
    ensures Tick(s, f).body == [s.body[i]] + s.body
  {
  }

  /** In particular the cell the tail occupies counts, although the tail
      would have moved away on this tick. */
  lemma EnteringTailCollides(s: GameState, f: Point)
    requires s.body != [] && !Halted(s)
    requires NewHead(s) == s.body[|s.body| - 1]
    ensures Tick(s, f).gameOver
    ensures |Tick(s, f).body| == |s.body| + 1
  {
  }

  /** A head at the right wall moving Right ends the game. */
  lemma WallCollision(s: GameState, f: Point)
    requires s.body != [] && !Halted(s)
    requires s.body[0].x == GridSize - 1 && s.next == Right
    ensures Tick(s, f).gameOver
  {
  }

  /** With the sentinel None buffered, the new head is the old one, which now
      sits at index 1: a self collision. */
  lemma NoneDirectionCollides(s: GameState, f: Point)
    requires s.body != [] && !Halted(s) && s.next == None
    ensures Tick(s, f).gameOver
  {
  }

  /** Eating: ten more points, one more segment, the new food taken from the
      placement; from a valid state the food lands on the board, off the
      grown body. */
  lemma TickEats(s: GameState, f: Point)
    requires s.body != [] && Eats(s)
    ensures Tick(s, f).score == s.score + 10
    ensures Tick(s, f).body == [NewHead(s)] + s.body
    ensures |Tick(s, f).body| == |s.body| + 1
    ensures Tick(s, f).food == f && !Tick(s, f).gameOver
    ensures FoodChoiceOk(s, f) ==> InBounds(Tick(s, f).food) && Tick(s, f).food !in Tick(s, f).body
  {
  }

  /** Moving without eating: the head is pushed and the tail dropped, so the
      length, the score and the food stay as they were. */
  lemma TickMoves(s: GameState, f: Point)
    requires s.body != [] && !Halted(s)
    requires !Collides([NewHead(s)] + s.body) && NewHead(s) != s.food
    ensures Tick(s, f).body == [NewHead(s)] + s.body[..|s.body| - 1]
    ensures |Tick(s, f).body| == |s.body|
    ensures Tick(s, f).score == s.score && Tick(s, f).food == s.food
    ensures !Tick(s, f).gameOver
  {
  }

  /** In a valid live state, heading onto the food never collides, so such a
      tick always eats. */
  lemma FoodIsSafe(s: GameState)
    requires Inv(s) && !Halted(s) && NewHead(s) == s.food
    ensures Eats(s)
  {
  }

  /** While alive, a move hits the neck exactly when it reverses the
      direction in effect: the case the anti-reversal rule shuts out. */
  lemma ReversalHitsNeck(s: GameState, d: Direction)
    requires Inv(s) && !s.gameOver
    ensures Offset(s.body[0], d) == s.body[1] <==> IsReversal(s.current, d)
  {
  }

  /** So a live tick from a valid state never enters the neck. */
  lemma NeverHitsNeck(s: GameState)
    requires Inv(s) && !Halted(s)
    ensures NewHead(s) != s.body[1]
  {
  }

  /** A tick keeps the invariant, given a food placement that does what
      rejection sampling guarantees. */
  lemma TickPreservesInv(s: GameState, f: Point)
    requires Inv(s) && FoodChoiceOk(s, f)
    ensures Inv(Tick(s, f))
  {
  }

  /** changeDirection drops a reversal of the current direction and
      otherwise buffers the request; nothing else changes. */
  lemma ChangeDirectionEffect(s: GameState, d: Direction)
    ensures IsReversal(s.current, d) ==> ChangeDirection(s, d) == s
    ensures !IsReversal(s.current, d) ==> ChangeDirection(s, d).next == d
    ensures ChangeDirection(s, d).(next := s.next) == s
  {
  }

  /** With Right in effect, Left is ignored while Up is buffered. */
  lemma AntiReversalExample(s: GameState)
    requires s.current == Right
    ensures ChangeDirection(s, Left).next == s.next
    ensures ChangeDirection(s, Up).next == Up
  {
  }

  /** changeDirection keeps the invariant. */
  lemma ChangeDirectionPreservesInv(s: GameState, d: Direction)
    requires Inv(s)
    ensures Inv(ChangeDirection(s, d))
  {
  }

  /** togglePause flips only the pause flag, so doing it twice restores the
      state, and it keeps the invariant. */
  lemma TogglePauseTwice(s: GameState)
    ensures TogglePause(s).paused != s.paused
    ensures TogglePause(s).(paused := s.paused) == s
    ensures TogglePause(TogglePause(s)) == s
    ensures Inv(s) ==> Inv(TogglePause(s))
  {
  }

  /** Under the invariant a live body leaves at least one free cell, every
      stored coordinate lies in [-1, GridSize] and the score is a
      non-negative multiple of ten no higher than MaxScore (both far inside
      the source's int), and the food is never on the body. */
  lemma {:induction false} InvBounds(s: GameState)
    requires Inv(s)
    ensures !s.gameOver ==> |s.body| < GridCells
    ensures forall i :: 0 <= i < |s.body| ==>
      -1 <= s.body[i].x <= GridSize && -1 <= s.body[i].y <= GridSize
    ensures s.score % 10 == 0 && 0 <= s.score <= MaxScore
    ensures s.food !in s.body
  {
    var live := if s.gameOver then s.body[1..] else s.body;
    AllCellsFacts();
    DistinctFits(live, AllCells() - {s.food});
    if s.gameOver {
      assert s.body == [s.body[0]] + live;
      assert s.body[0] != s.food by {
        if InBounds(s.body[0]) { assert s.body[0] in live; }
      }
    }
  }

  /** The first tick after reset (with the food elsewhere) moves the head
      from (16,15) to (17,15) and keeps the length at two. */
  lemma FirstTick(f: Point, g: Point)
    requires f != Point(17, 15)
    ensures Tick(InitialState(f), g).body == [Point(17, 15), Point(16, 15)]
    ensures !Tick(InitialState(f), g).gameOver
  {
  }
}
