/**
 * The rules of the snake game, as values: the board, the session state,
 * the direction-change rule for arrow keys and swipes, rejection-sampled food
 * placement and the per-tick update. The class in game.dfy performs the same
 * steps by mutating its fields and is proved against the functions here.
 */
module SnakeRules {

  /** Cells along each side of the square board (`tileCount`). */
  const TileCount: int := 20
  /** Milliseconds taken off the tick interval each time food is eaten. */
  const SpeedStep: int := 5
  /** The tick interval never drops below this after food is eaten. */
  const SpeedFloor: int := 20
  /** A swipe must move further than this along its dominant axis. */
  const SwipeThreshold: int := 30

  /** A board cell; x grows to the right, y grows downwards. */
  datatype Cell = Cell(x: int, y: int)

  /** The keys the keydown handler distinguishes; every other key is `OtherKey`. */
  datatype Key = ArrowUp | ArrowDown | ArrowLeft | ArrowRight | OtherKey

  /**
   * The game variables of the script: `snake`, `food`, `dx`, `dy`, `score`,
   * `gameOver`, `gameRunning`, `gameSpeed`, `currentSpeed`, `highScore`. The snake is
   * head first; `gameSpeed` is the interval chosen at start and
   * `currentSpeed` the interval in force now.
   */
  datatype Session = Session(
    snake: seq<Cell>,
    food: Cell,
    dx: int,
    dy: int,
    score: nat,
    gameOver: bool,
    gameRunning: bool,
    gameSpeed: int,
    currentSpeed: int,
    highScore: nat)

  function Abs(n: int): int { if n < 0 then -n else n }

  function Max(a: int, b: int): int { if a < b then b else a }

  // ---------------------------------------------------------------------
  // The board and the shape of the snake

  predicate InGrid(c: Cell) {
    0 <= c.x < TileCount && 0 <= c.y < TileCount
  }

  predicate AllInGrid(cells: seq<Cell>) {
    forall i :: 0 <= i < |cells| ==> InGrid(cells[i])
  }

  predicate Distinct(cells: seq<Cell>) {
    forall i, j :: 0 <= i < j < |cells| ==> cells[i] != cells[j]
  }

  predicate Adjacent(a: Cell, b: Cell) {
    Abs(a.x - b.x) + Abs(a.y - b.y) == 1
  }

  /** Consecutive segments share an edge. */
  predicate Connected(cells: seq<Cell>) {
    forall i :: 0 <= i < |cells| - 1 ==> Adjacent(cells[i], cells[i + 1])
  }

  /** Exactly one of dx, dy is nonzero, and it is 1 or -1. */
  predicate IsUnit(dx: int, dy: int) {
    (dx == 0 && (dy == 1 || dy == -1)) || (dy == 0 && (dx == 1 || dx == -1))
  }

  // ---------------------------------------------------------------------
  // Direction changes

  /** The direction an arrow key asks for, as (dx, dy). */
  function Heading(key: Key): (d: (int, int))
    requires key != OtherKey
    ensures IsUnit(d.0, d.1)
  {
    match key
    case ArrowUp => (0, -1)
    case ArrowDown => (0, 1)
    case ArrowLeft => (-1, 0)
    case ArrowRight => (1, 0)
  }

  function Dot(a: (int, int), b: (int, int)): int {
    a.0 * b.0 + a.1 * b.1
  }

  /**
   * The reversal rule stated geometrically: an arrow key is honoured when the
   * direction it asks for is perpendicular to the pending one, or when the
   * snake is a single segment.
   */
  predicate Accepts(key: Key, dx: int, dy: int, length: nat) {
    key != OtherKey && (length == 1 || Dot(Heading(key), (dx, dy)) == 0)
  }

  /**
   * The pending direction after one arrow key, written as the keydown
   * handler tests it: vertical keys look at dy, horizontal keys at dx.
   */
  function Turn(key: Key, dx: int, dy: int, length: nat): (r: (int, int))
    ensures Accepts(key, dx, dy, length) ==> r == Heading(key)
    ensures !Accepts(key, dx, dy, length) ==> r == (dx, dy)
    ensures IsUnit(dx, dy) ==> IsUnit(r.0, r.1)
  {
    match key
    case ArrowUp => if dy == 0 || length == 1 then (0, -1) else (dx, dy)
    case ArrowDown => if dy == 0 || length == 1 then (0, 1) else (dx, dy)
    case ArrowLeft => if dx == 0 || length == 1 then (-1, 0) else (dx, dy)
    case ArrowRight => if dx == 0 || length == 1 then (1, 0) else (dx, dy)
    case OtherKey => (dx, dy)
  }

  /** One key press never turns a snake of two or more segments straight back. */
  lemma TurnNeverReverses(key: Key, dx: int, dy: int, length: nat)
    requires IsUnit(dx, dy) && length > 1
    ensures Turn(key, dx, dy, length) != (-dx, -dy)
  {
  }

  /**
   * The arrow key a swipe stands for. The horizontal axis wins only when it
   * moved strictly more than the vertical one, so ties go to the vertical
   * axis; the dominant move must exceed the threshold.
   */
  function SwipeKey(dxTouch: int, dyTouch: int): (k: Key)
    ensures k == ArrowLeft || k == ArrowRight <==>
              Abs(dxTouch) > Abs(dyTouch) && Abs(dxTouch) > SwipeThreshold
    ensures k == ArrowUp || k == ArrowDown <==>
              Abs(dxTouch) <= Abs(dyTouch) && Abs(dyTouch) > SwipeThreshold
    ensures k == ArrowRight ==> dxTouch > 0
    ensures k == ArrowLeft ==> dxTouch < 0
    ensures k == ArrowDown ==> dyTouch > 0
    ensures k == ArrowUp ==> dyTouch < 0
  {
    if Abs(dxTouch) > Abs(dyTouch) then
      if dxTouch > SwipeThreshold then ArrowRight
      else if dxTouch < -SwipeThreshold then ArrowLeft
      else OtherKey
    else
      if dyTouch > SwipeThreshold then ArrowDown
      else if dyTouch < -SwipeThreshold then ArrowUp
      else OtherKey
  }

  // ---------------------------------------------------------------------
  // Food placement by rejection sampling

  /** Some candidate cell among the random draws is off the snake. */
  predicate HasFreeDraw(draws: seq<Cell>, body: seq<Cell>) {
    exists i :: 0 <= i < |draws| && draws[i] !in body
  }

  /**
   * The position of the draw that rejection sampling keeps: the first one
   * off the snake, after every earlier one was rejected.
   */
  function FreeIndex(draws: seq<Cell>, body: seq<Cell>): (i: nat)
    requires HasFreeDraw(draws, body)
    ensures i < |draws| && draws[i] !in body
    ensures forall j :: 0 <= j < i ==> draws[j] in body
    decreases |draws|
  {
    if draws[0] !in body then 0
    else
      assert forall k :: 0 <= k < |draws| - 1 ==> draws[1..][k] == draws[k + 1];
      assert exists k :: 0 <= k < |draws| - 1 && draws[1..][k] !in body by {
        var w :| 0 <= w < |draws| && draws[w] !in body;
        assert draws[1..][w - 1] !in body;
      }
      1 + FreeIndex(draws[1..], body)
  }

  /** The kept draw is on the board whenever every draw is. */
  lemma FreeDrawInGrid(draws: seq<Cell>, body: seq<Cell>)
    requires HasFreeDraw(draws, body) && AllInGrid(draws)
    ensures InGrid(draws[FreeIndex(draws, body)]) && draws[FreeIndex(draws, body)] !in body
  {
  }

  /**
   * Once the snake covers the whole board no draw is ever free, so the
   * sampling loop of `placeFood` would never end.
   */
  lemma BoardFullNoFreeDraw(draws: seq<Cell>, body: seq<Cell>)
    requires AllInGrid(draws)
    requires forall x, y :: 0 <= x < TileCount && 0 <= y < TileCount ==> Cell(x, y) in body
    ensures !HasFreeDraw(draws, body)
  {
  }

  // ---------------------------------------------------------------------
  // Speed

  /** The tick interval after `eaten` pieces of food, starting from `gameSpeed`. */
  function SpeedAfter(gameSpeed: int, eaten: nat): (r: int)
    ensures eaten > 0 ==> r >= SpeedFloor
    ensures r <= Max(gameSpeed, SpeedFloor)
  {
    if eaten == 0 then gameSpeed
    else Max(SpeedAfter(gameSpeed, eaten - 1) - SpeedStep, SpeedFloor)
  }

  /** Once food has been eaten the interval is gameSpeed - 5 * eaten, but never below 20. */
  lemma {:induction false} SpeedClosedForm(gameSpeed: int, eaten: nat)
    requires eaten > 0
    ensures SpeedAfter(gameSpeed, eaten) == Max(gameSpeed - SpeedStep * eaten, SpeedFloor)
    ensures SpeedAfter(gameSpeed, eaten) >= SpeedFloor
  {
    if eaten > 1 {
      SpeedClosedForm(gameSpeed, eaten - 1);
    }
  }

  // ---------------------------------------------------------------------
  // Sessions

  /** The session `startGame` creates, whatever was there before; only the best score carries over. */
  function NewSession(difficulty: int, highScore: nat): (r: Session)
    ensures Inv(r) && r.gameRunning && !r.gameOver
    ensures r.score == 0 && r.currentSpeed == r.gameSpeed == difficulty && r.highScore == highScore
  {
    Session([Cell(10, 10)], Cell(5, 5), 1, 0, 0, false, true, difficulty, difficulty, highScore)
  }

  /**
   * What holds of every started session: one segment per point plus the
   * initial one; the body is a simple path on the board; food is on the board
   * and off the snake; the direction is a unit step; the interval follows
   * the speed ramp.
   */
  ghost predicate Inv(s: Session) {
    && |s.snake| == s.score + 1
    && AllInGrid(s.snake)
    && Distinct(s.snake)
    && Connected(s.snake)
    && InGrid(s.food)
    && s.food !in s.snake
    && IsUnit(s.dx, s.dy)
    && s.currentSpeed == SpeedAfter(s.gameSpeed, s.score)
  }

  /** In a started session that has eaten at least once, the interval is max(gameSpeed - 5 * score, 20), so never below 20. */
  lemma SpeedFloorOfInv(s: Session)
    requires Inv(s) && s.score >= 1
    ensures s.currentSpeed >= SpeedFloor
    ensures s.currentSpeed == Max(s.gameSpeed - SpeedStep * s.score, SpeedFloor)
  {
    SpeedClosedForm(s.gameSpeed, s.score);
  }

  /** The cell the head moves to, one step along the pending direction. */
  function NextHead(s: Session): (h: Cell)
    requires |s.snake| > 0
    ensures IsUnit(s.dx, s.dy) ==> Adjacent(h, s.snake[0])
  {
    Cell(s.snake[0].x + s.dx, s.snake[0].y + s.dy)
  }

  /** The new head leaves the board or meets a segment, the tail included. */
  predicate Collides(head: Cell, body: seq<Cell>) {
    !InGrid(head) || head in body
  }

  /** If this tick eats, the random draws eventually land off the grown snake. */
  predicate CanPlaceFood(s: Session, draws: seq<Cell>)
    requires |s.snake| > 0
  {
    NextHead(s) == s.food ==> HasFreeDraw(draws, [NextHead(s)] + s.snake)
  }

  /** One call of `update`. */
  function Tick(s: Session, draws: seq<Cell>): (r: Session)
    requires |s.snake| > 0 && CanPlaceFood(s, draws)
    ensures r.gameOver <==> s.gameOver || Collides(NextHead(s), s.snake)
    ensures !Collides(NextHead(s), s.snake) ==> |r.snake| > 0 && r.snake[0] == NextHead(s)
    ensures |r.snake| - |s.snake| == r.score - s.score
    ensures r.score == s.score || r.score == s.score + 1
    ensures r.highScore >= s.highScore
  {
    var head := NextHead(s);
    if Collides(head, s.snake) then
      s.(gameOver := true, highScore := if s.score > s.highScore then s.score else s.highScore)
    else if head == s.food then
      var grown := [head] + s.snake;
      s.(snake := grown,
         score := s.score + 1,
         food := draws[FreeIndex(draws, grown)],
         currentSpeed := Max(s.currentSpeed - SpeedStep, SpeedFloor))
    else
      s.(snake := [head] + s.snake[..|s.snake| - 1])
  }

  /** A collision ends the game and leaves the snake, the food, the score and the direction alone. */
  lemma TickCollision(s: Session, draws: seq<Cell>)
    requires |s.snake| > 0 && CanPlaceFood(s, draws)
    requires Collides(NextHead(s), s.snake)
    ensures var r := Tick(s, draws);
      && r.gameOver
      && r.snake == s.snake && r.food == s.food && r.score == s.score
      && r.currentSpeed == s.currentSpeed
      && r.highScore == Max(s.highScore, s.score)
      && (r.dx, r.dy) == (s.dx, s.dy) && r.gameRunning == s.gameRunning && r.gameSpeed == s.gameSpeed
  {
  }

  /**
   * A plain move: the new head is followed by the old snake without its last
   * segment, so the length and the score stay, and the vacated tail cell
   * is free again.
   */
  lemma TickMove(s: Session, draws: seq<Cell>)
    requires |s.snake| > 0 && Distinct(s.snake) && CanPlaceFood(s, draws)
    requires !Collides(NextHead(s), s.snake) && NextHead(s) != s.food
    ensures var r := Tick(s, draws);
      && r.gameOver == s.gameOver
      && |r.snake| == |s.snake| && r.score == s.score
      && r.snake[0] == NextHead(s) && r.snake[1..] == s.snake[..|s.snake| - 1]
      && s.snake[|s.snake| - 1] !in r.snake
      && r.food == s.food && r.currentSpeed == s.currentSpeed && r.highScore == s.highScore
      && (r.dx, r.dy) == (s.dx, s.dy) && r.gameRunning == s.gameRunning && r.gameSpeed == s.gameSpeed
  {
  }

  /**
   * Eating: the snake grows at the head and keeps its whole old body, the
   * score goes up by one, the interval drops by 5 but not below 20, and the
   * new food is off the grown snake.
   */
  lemma TickEat(s: Session, draws: seq<Cell>)
    requires |s.snake| > 0 && CanPlaceFood(s, draws)
    requires !Collides(NextHead(s), s.snake) && NextHead(s) == s.food
    ensures var r := Tick(s, draws);
      && r.gameOver == s.gameOver
      && |r.snake| == |s.snake| + 1 && r.score == s.score + 1
      && r.snake[0] == NextHead(s) && r.snake[1..] == s.snake
      && r.food !in r.snake
      && r.currentSpeed == Max(s.currentSpeed - SpeedStep, SpeedFloor)
      && r.highScore == s.highScore
      && (r.dx, r.dy) == (s.dx, s.dy) && r.gameRunning == s.gameRunning && r.gameSpeed == s.gameSpeed
  {
  }

  /** The best score never goes down, and it only changes to a game's final, larger score. */
  lemma TickHighScore(s: Session, draws: seq<Cell>)
    requires |s.snake| > 0 && CanPlaceFood(s, draws)
    ensures Tick(s, draws).highScore >= s.highScore
    ensures Tick(s, draws).highScore != s.highScore ==>
              Tick(s, draws).gameOver && Tick(s, draws).highScore == s.score > s.highScore
    ensures Tick(s, draws).gameOver && !s.gameOver ==> Tick(s, draws).highScore >= s.score
  {
  }

  /** A body stays a simple path on the board when a free, adjacent cell is added in front of it. */
  lemma PrependKeepsPath(head: Cell, body: seq<Cell>)
    requires |body| > 0 && AllInGrid(body) && Distinct(body) && Connected(body)
    requires InGrid(head) && head !in body && Adjacent(head, body[0])
    ensures AllInGrid([head] + body) && Distinct([head] + body) && Connected([head] + body)
  {
    var b := [head] + body;
    forall i, j | 0 <= i < j < |b| ensures b[i] != b[j] {
      if i == 0 {
        assert b[j] == body[j - 1];
      } else {
        assert b[i] == body[i - 1] && b[j] == body[j - 1];
      }
    }
    forall i | 0 <= i < |b| - 1 ensures Adjacent(b[i], b[i + 1]) {
      if i > 0 {
        assert b[i] == body[i - 1] && b[i + 1] == body[i];
      }
    }
  }

  /** Every tick keeps a started session well formed, given that every random draw is on the board. */
  lemma TickPreservesInv(s: Session, draws: seq<Cell>)
    requires Inv(s) && CanPlaceFood(s, draws) && AllInGrid(draws)
    ensures Inv(Tick(s, draws))
  {
    var head := NextHead(s);
    if !Collides(head, s.snake) {
      assert Adjacent(head, s.snake[0]);
      PrependKeepsPath(head, s.snake);
      var grown := [head] + s.snake;
      if head == s.food {
        FreeDrawInGrid(draws, grown);
      } else {
        var moved := grown[..|grown| - 1];
        assert moved == [head] + s.snake[..|s.snake| - 1];
        assert forall i :: 0 <= i < |moved| ==> moved[i] == grown[i];
        TickMove(s, draws);
      }
    }
  }

  /**
   * The reversal check looks at the pending direction, not at the last move:
   * Up then Left within one tick turns a two-segment snake heading right
   * straight back into its neck, and the next tick ends the game.
   */
  lemma NeckReversal()
    ensures var s := Session([Cell(10, 10), Cell(9, 10)], Cell(5, 5), 1, 0, 1,
                             false, true, 100, 95, 0);
      var up := Turn(ArrowUp, s.dx, s.dy, |s.snake|);
      var left := Turn(ArrowLeft, up.0, up.1, |s.snake|);
      && Inv(s)
      && left == (-s.dx, -s.dy)
      && Tick(s.(dx := left.0, dy := left.1), []).gameOver
  {
  }

  /**
   * The same in general: whenever the pending direction is still the last
   * move (head minus neck) of a started snake of two or more segments, some
   * perpendicular key followed by the opposite of the current heading
   * reverses it, and a tick in the reversed direction ends the game.
   */
  lemma {:induction false} TwoKeysReverse(s: Session)
    requires Inv(s) && |s.snake| >= 2
    requires s.dx == s.snake[0].x - s.snake[1].x && s.dy == s.snake[0].y - s.snake[1].y
    ensures exists k1: Key, k2: Key ::
              Turn(k2, Turn(k1, s.dx, s.dy, |s.snake|).0, Turn(k1, s.dx, s.dy, |s.snake|).1, |s.snake|)
                == (-s.dx, -s.dy)
    ensures |s.snake| > 0 && CanPlaceFood(s.(dx := -s.dx, dy := -s.dy), [])
    ensures Tick(s.(dx := -s.dx, dy := -s.dy), []).gameOver
  {
    var n := |s.snake|;
    var k1, k2 := if s.dx == 0 then ArrowLeft else ArrowUp,
                  if s.dx == 1 then ArrowLeft else if s.dx == -1 then ArrowRight
                  else if s.dy == 1 then ArrowUp else ArrowDown;
    var d1 := Turn(k1, s.dx, s.dy, n);
    assert d1 == Heading(k1);
    assert Turn(k2, d1.0, d1.1, n) == (-s.dx, -s.dy);
    var back := s.(dx := -s.dx, dy := -s.dy);
    assert NextHead(back) == s.snake[1];
    assert NextHead(back) != s.food;
    assert Collides(NextHead(back), back.snake);
  }
}
