/** The game-state engine as the object the source updates in place. Each
    public state-changing method (ResetGame, Update, ChangeDirection,
    TogglePause) is proved to act on State() as the matching function of
    SnakeRules does, and to keep Valid(). The private GenerateFood is the
    exception: it has no SnakeRules counterpart and runs while the invariant
    is broken; it changes only food and ensures the food is on the board and
    off the body. */
module SnakeEngine {
  import opened SnakeTypes
  import opened Grid
  import opened SnakeRules

  class SnakeGame {
    var body: seq<Point>          // head first
    var food: Point
    var currentDirection: Direction
    var nextDirection: Direction  // buffered input for the next tick
    var score: int
    var gameOver: bool
    var paused: bool

    /** The stored fields as one value. */
    function State(): GameState
      reads this
    {
      GameState(body, food, currentDirection, nextDirection, score, gameOver, paused)
    }

    /** The object invariant. */
    ghost predicate Valid()
      reads this
    {
      Inv(State())
    }

    /** The construction: the random source's time-based seeding is not
        modelled; the game starts as resetGame leaves it. */
    constructor ()
      ensures Valid() && State() == InitialState(food)
    {
      new;
      ResetGame();
    }

    /** resetGame: the centre body facing right, score 0, flags clear, and a
        freshly placed food. */
    method ResetGame()
      modifies this
      ensures Valid() && State() == InitialState(food)
    {
      body := [];
      body := [Point(GridSize / 2, GridSize / 2)] + body;
      body := [Point(GridSize / 2 + 1, GridSize / 2)] + body;
      currentDirection := Right;
      nextDirection := Right;
      score := 0;
      gameOver := false;
      paused := false;
      GenerateFood();
      InitialStateValid(food);
    }

    /** update: one tick. The precondition shuts out only the tick on which
        eating would leave no free cell, where the source never returns. */
    method Update()
      requires Valid()
      requires !FillsBoard(State())
      modifies this
      ensures Valid()
      ensures State() == Tick(old(State()), food)
    {
      ghost var s := State();
      if gameOver || paused {
        return;
      }
      currentDirection := nextDirection;
      var newHead := Offset(body[0], currentDirection);
      body := [newHead] + body;
      var collided := CheckCollision();
      if collided {
        gameOver := true;
        TickPreservesInv(s, food);
        return;
      }
      if PointEq(newHead, food) {
        score := score + 10;
        GenerateFood();
      } else {
        body := body[..|body| - 1];
      }
      TickPreservesInv(s, food);
    }

    /** changeDirection: buffer the request unless it reverses the direction
        in effect; nothing else changes. */
    method ChangeDirection(newDirection: Direction)
      modifies this`nextDirection
      ensures State() == SnakeRules.ChangeDirection(old(State()), newDirection)
      ensures old(Valid()) ==> Valid()
    {
      if currentDirection == Up && newDirection == Down {
        return;
      }
      if currentDirection == Down && newDirection == Up {
        return;
      }
      if currentDirection == Left && newDirection == Right {
        return;
      }
      if currentDirection == Right && newDirection == Left {
        return;
      }
      nextDirection := newDirection;
      if old(Valid()) {
        ChangeDirectionPreservesInv(old(State()), newDirection);
      }
    }

    /** togglePause: flip the pause flag and nothing else. */
    method TogglePause()
      modifies this`paused
      ensures State() == SnakeRules.TogglePause(old(State()))
      ensures old(Valid()) ==> Valid()
    {
      paused := !paused;
    }

    /** generateFood: draw in-bounds cells until one is off the body. Each
        draw is a free choice among the cells not already rejected; the
        precondition that the body is shorter than the board stands in for
        the source's unbounded retrying. */
    method GenerateFood()
      requires |body| < GridCells
      modifies this`food
      ensures InBounds(food) && food !in body
    {
      FreeCellExists(body);
      AllCellsFacts();
      ghost var free :| InBounds(free) && free !in body;
      var rejected: set<Point> := {};
      var foodPlaced := false;
      while !foodPlaced
        invariant forall q :: q in rejected ==> q in body
        invariant foodPlaced ==> InBounds(food) && food !in body
        decreases AllCells() - rejected, if foodPlaced then 0 else 1
      {
        // names the free cell by its coordinates: the witness for x, y below
        assert Point(free.x, free.y) !in rejected;
        var x, y :| 0 <= x < GridSize && 0 <= y < GridSize && Point(x, y) !in rejected;
        var potentialFood := Point(x, y);
        var onSnake := false;
        for i := 0 to |body|
          invariant !onSnake && potentialFood !in body[..i]
        {
          if PointEq(body[i], potentialFood) {
            onSnake := true;
            break;
          }
        }
        if !onSnake {
          assert body[..|body|] == body;
          food := potentialFood;
          foodPlaced := true;
        } else {
          rejected := rejected + {potentialFood};
        }
      }
    }

    /** checkCollision: the head is off the board or equals a segment at
        index 1 or later. */
    method CheckCollision() returns (c: bool)
      requires body != []
      ensures c == Collides(body)
    {
      var head := body[0];
      if head.x < 0 || head.x >= GridSize || head.y < 0 || head.y >= GridSize {
        return true;
      }
      var i := 1;
      while i < |body|
        invariant 1 <= i <= |body|
        invariant head !in body[1..i]
      {
        if PointEq(head, body[i]) {
          assert body[1..][i - 1] == body[i];
          return true;
        }
        assert body[1..i + 1] == body[1..i] + [body[i]];
        i := i + 1;
      }
      assert body[1..i] == body[1..];
      return false;
    }

    /** What the invariant says about the stored fields. */
    lemma ValidFacts()
      ensures Valid() ==> InBounds(food) && food !in body
      ensures Valid() ==> score % 10 == 0 && 0 <= score <= MaxScore
      ensures Valid() && !gameOver ==> |body| < GridCells && Distinct(body)
    {
      if Valid() {
        InvBounds(State());
      }
    }

    /** getSnakeBody: the stored body, head first; while alive its cells are
        pairwise different, on the board, and two more than the points
        scored divided by ten. */
    function GetSnakeBody(): (b: seq<Point>)
      reads this
      ensures b == State().body
      ensures Valid() ==> |b| >= 2
      ensures Valid() && !gameOver ==>
        Distinct(b) && (forall i :: 0 <= i < |b| ==> InBounds(b[i])) && |b| == 2 + score / 10
    {
      body
    }

    /** getFoodPosition: the stored food, on the board and off the body. */
    function GetFoodPosition(): (f: Point)
      reads this
      ensures f == State().food
      ensures Valid() ==> InBounds(f) && f !in body
    {
      ValidFacts();
      food
    }

    /** getScore: the stored score, a multiple of ten within [0, MaxScore]. */
    function GetScore(): (sc: int)
      reads this
      ensures sc == State().score
      ensures Valid() ==> sc % 10 == 0 && 0 <= sc <= MaxScore
    {
      ValidFacts();
      score
    }

    /** isGameOver: the stored flag; once set, the stored head collides. */
    function IsGameOver(): (r: bool)
      reads this
      ensures r == State().gameOver
      ensures Valid() && r ==> Collides(body)
    {
      gameOver
    }

    /** isPaused: the stored flag. */
    function IsPaused(): (r: bool)
      reads this
      ensures r == State().paused
    {
      paused
    }

    /** getGridSize: the constant side of the board. */
    function GetGridSize(): (n: int)
      ensures n == GridSize && n * n == GridCells
    {
      GridSize
    }
  }
}
