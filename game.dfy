/**
 * The game as the page runs it: one object with one field per game variable
 * of the script (`snake`, `food`, `dx`, `dy`, `score`, `gameOver`,
 * `gameRunning`, `gameSpeed`, `currentSpeed`, `highScore`), and whose methods are `startGame`, the two input
 * handlers, `update`, `placeFood`, `gameLoop` and `endGame`. Each method but
 * `endGame`, which only clears `gameRunning`, states its new state as a
 * function of the old one from SnakeRules.
 */
module SnakeGame {
  import opened SnakeRules

  class Game {
    var snake: seq<Cell>
    var food: Cell
    var dx: int
    var dy: int
    var score: nat
    var gameOver: bool
    var gameRunning: bool
    var gameSpeed: int
    var currentSpeed: int
    var highScore: nat

    /** The current values of the game variables, as one Session. */
    function State(): Session
      reads this
    {
      Session(snake, food, dx, dy, score, gameOver, gameRunning, gameSpeed, currentSpeed, highScore)
    }

    /** While a game is running its session is well formed. */
    ghost predicate Valid()
      reads this
    {
      gameRunning ==> Inv(State())
    }

    /**
     * The page before the first start: nothing runs and the best score is the
     * stored one. The session variables are undefined in the script until
     * `startGame`; they hold placeholders here.
     */
    constructor (storedBest: nat)
      ensures Valid()
      ensures !gameRunning && !gameOver && highScore == storedBest
    {
      snake := [];
      food := Cell(0, 0);
      dx, dy := 0, 0;
      score := 0;
      gameOver := false;
      gameRunning := false;
      gameSpeed, currentSpeed := 0, 0;
      highScore := storedBest;
    }

    /** Resets the session at any time; only the best score survives. */
    method StartGame(difficulty: int)
      modifies this
      ensures Valid()
      ensures State() == NewSession(difficulty, old(highScore))
    {
      snake := [Cell(10, 10)];
      food := Cell(5, 5);
      dx, dy := 1, 0;
      score := 0;
      gameOver := false;
      gameRunning := true;
      gameSpeed := difficulty;
      currentSpeed := gameSpeed;
    }

    /** The arrow-key handler: ignored unless a game is running. */
    method KeyDown(key: Key)
      requires Valid()
      modifies this`dx, this`dy
      ensures Valid()
      ensures (dx, dy) == if gameRunning then Turn(key, old(dx), old(dy), |snake|) else (old(dx), old(dy))
    {
      if !gameRunning {
        return;
      }
      match key
      case ArrowUp =>
        if dy == 0 || |snake| == 1 { dx, dy := 0, -1; }
      case ArrowDown =>
        if dy == 0 || |snake| == 1 { dx, dy := 0, 1; }
      case ArrowLeft =>
        if dx == 0 || |snake| == 1 { dx, dy := -1, 0; }
      case ArrowRight =>
        if dx == 0 || |snake| == 1 { dx, dy := 1, 0; }
      case OtherKey =>
    }

    /**
     * The swipe handler, given the displacement between touch start and
     * touch end: it turns exactly as the arrow key the swipe stands for.
     */
    method TouchEnd(dxTouch: int, dyTouch: int)
      requires Valid()
      modifies this`dx, this`dy
      ensures Valid()
      ensures (dx, dy) == if gameRunning then Turn(SwipeKey(dxTouch, dyTouch), old(dx), old(dy), |snake|)
                          else (old(dx), old(dy))
    {
      if !gameRunning {
        return;
      }
      if Abs(dxTouch) > Abs(dyTouch) {
        if dxTouch > SwipeThreshold && (dx == 0 || |snake| == 1) {
          dx, dy := 1, 0;
        } else if dxTouch < -SwipeThreshold && (dx == 0 || |snake| == 1) {
          dx, dy := -1, 0;
        }
      } else {
        if dyTouch > SwipeThreshold && (dy == 0 || |snake| == 1) {
          dx, dy := 0, 1;
        } else if dyTouch < -SwipeThreshold && (dy == 0 || |snake| == 1) {
          dx, dy := 0, -1;
        }
      }
    }

    /**
     * Rejection sampling: take draws in order until one is off the snake.
     * `draws` stands for the successive random cells; the loop only ends
     * when one of them is free.
     */
    method PlaceFood(draws: seq<Cell>)
      requires HasFreeDraw(draws, snake)
      modifies this`food
      ensures food == draws[FreeIndex(draws, snake)]
    {
      food := draws[0];
      var i := 1;
      while food in snake
        invariant 1 <= i <= |draws|
        invariant food == draws[i - 1]
        invariant FreeIndex(draws, snake) >= i - 1
        decreases |draws| - i
      {
        food := draws[i];
        i := i + 1;
      }
    }

    /** One tick of the game: collide, or move, or eat and grow. */
    method Update(draws: seq<Cell>)
      requires Valid() && gameRunning
      requires CanPlaceFood(State(), draws) && AllInGrid(draws)
      modifies this
      ensures Valid()
      ensures State() == Tick(old(State()), draws)
    {
      ghost var before := State();
      var head := Cell(snake[0].x + dx, snake[0].y + dy);
      assert head == NextHead(before);
      if head.x < 0 || head.x >= TileCount || head.y < 0 || head.y >= TileCount || head in snake {
        assert Collides(head, before.snake);
        gameOver := true;
        if score > highScore {
          highScore := score;
        }
      } else {
        assert !Collides(head, before.snake);
        snake := [head] + snake;
        if head == food {
          assert snake == [head] + before.snake;
          score := score + 1;
          PlaceFood(draws);
          currentSpeed := Max(currentSpeed - SpeedStep, SpeedFloor);
        } else {
          snake := snake[..|snake| - 1];
          assert snake == [head] + before.snake[..|before.snake| - 1];
        }
      }
      TickPreservesInv(before, draws);
    }

    /** Leaves the running state once the game is over. */
    method EndGame()
      modifies this`gameRunning
      ensures !gameRunning
      ensures Valid()
    {
      gameRunning := false;
    }

    /**
     * One timer callback: a game already over is wound down without another
     * update; otherwise the game advances by one tick. The timer only fires
     * while a game is running.
     */
    method GameLoop(draws: seq<Cell>)
      requires Valid() && gameRunning
      requires !gameOver ==> CanPlaceFood(State(), draws) && AllInGrid(draws)
      modifies this
      ensures Valid()
      ensures old(gameOver) ==> State() == old(State()).(gameRunning := false)
      ensures !old(gameOver) ==> State() == Tick(old(State()), draws)
      ensures highScore >= old(highScore)
    {
      if gameOver {
        EndGame();
      } else {
        TickHighScore(State(), draws);
        Update(draws);
      }
    }
  }
}
