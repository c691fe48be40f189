# Snake game: the session state machine

A model of the browser snake game in `main.js`. A single session lives on a
20×20 board. The snake is a list of cells, head first. It moves one cell per
timer tick in the pending direction `(dx, dy)`. Arrow keys and touch swipes
change that direction under a reversal rule. Eating the food grows the snake,
adds a point, and shortens the tick interval by 5 ms, down to 20 ms. The food
is then re-placed by rejection sampling. Leaving the board or running into
the body ends the game. The best score is kept across games.

Two modules:

- `SnakeRules` (rules.dfy) holds the state as a value and the specification.
  The state is `Session`, one field per game variable (`snake`, `food`, `dx`,
  `dy`, `score`, `gameOver`, `gameRunning`, `gameSpeed`, `currentSpeed`,
  `highScore`).
  The specification functions are `Turn`, `SwipeKey`, `FreeIndex`, `Tick`,
  `NewSession` and `SpeedAfter`. The session invariant is `Inv`. The lemmas
  prove the source's promises about these functions.
- `SnakeGame` (game.dfy) holds the class `Game`. It has the same ten
  fields as `Session`, and its methods do the same steps as `startGame`, the
  `keydown` and `touchend` handlers, `update`, `placeFood`, `gameLoop` and
  `endGame`. They mutate the fields, with `unshift`/`pop` becoming sequence
  updates and the sampling loop a `while` loop. The postconditions of
  `StartGame`, `KeyDown`, `TouchEnd`, `PlaceFood`, `Update` and `GameLoop`
  give the new state as a function of the old one from `SnakeRules`;
  `EndGame` only clears `gameRunning`, and its frame keeps the rest.
  `Valid()` says that `Inv` holds whenever a game is running.

The random draws of `placeFood` are a parameter `draws`: the successive
candidate cells `Math.random` would produce, each on the board. The loop in
the source ends only when a draw lands off the snake. Callers therefore must
supply draws that contain such a cell (`HasFreeDraw`, `CanPlaceFood`).

Three behaviours of `main.js` are modelled as written:

- The reversal check at main.js:65-74 compares a key against the pending
  `dx`/`dy`, not against the direction of the last move. Two keys within one
  tick can therefore turn a snake back into its neck, and the next tick ends
  the game. `NeckReversal` shows it on one snake and `TwoKeysReverse` for every
  snake; `TurnNeverReverses` shows that a single key cannot.
- `update` only sets `gameOver` (main.js:171). `gameRunning` stays true, and
  the input handlers keep acting, until the next `gameLoop` call clears it
  (main.js:150-154).
- The start button calls `startGame` at any time (main.js:124), so
  `StartGame` has no precondition.

## Model

| member | source | states |
|---|---|---|
| `SnakeGame.Game.constructor` | main.js:110-112 | Before the first start nothing runs (`gameRunning` is declared false at main.js:8), no game is over, and the best score is the stored one. |
| `SnakeGame.Game.StartGame` | main.js:128-145 | Whatever the previous state, the session becomes snake [(10,10)], food (5,5), direction (1,0), score 0, not over, running, both intervals the chosen difficulty. Only the best score carries over. The result satisfies the session invariant. |
| `SnakeRules.NewSession` | main.js:129-139 | The session a start creates satisfies the invariant: one segment for score 0, on the board, food off the snake, unit direction, interval on the ramp. It is running and not over, has score 0, both intervals equal to the chosen difficulty, and keeps the given best score. |
| `SnakeGame.Game.KeyDown` | main.js:61-76 | While a game runs, the new direction is `Turn` of the key, the pending direction and the length. Otherwise nothing changes. A unit direction stays a unit direction. |
| `SnakeRules.Heading` | main.js:63-76 | Each arrow key asks for a unit step: up (0,-1), down (0,1), left (-1,0), right (1,0). |
| `SnakeRules.Turn` | main.js:63-76 | An arrow key is honoured exactly when the snake is one segment or the requested heading is perpendicular to the pending direction (dot product 0). Otherwise, and for any other key, the direction stays. Unit directions stay unit. |
| `SnakeRules.TurnNeverReverses` | main.js:63-76 | For a snake of two or more segments, one key press never produces the exact reverse of the pending direction. |
| `SnakeRules.NeckReversal` | main.js:63-76 | Up then Left within one tick reverses a valid two-segment snake heading right, and the following tick ends the game. |
| `SnakeRules.TwoKeysReverse` | main.js:63-76 | For every started snake of two or more segments whose pending direction is still its last move, two keys within one tick (a perpendicular one, then the one opposite the heading) give the exact reverse, and the next tick runs into the neck and ends the game. |
| `SnakeGame.Game.TouchEnd` | main.js:97-105 | While a game runs, a swipe changes the direction exactly as the arrow key `SwipeKey` gives for it. Otherwise nothing changes. |
| `SnakeRules.SwipeKey` | main.js:99-105 | A swipe is horizontal iff abs(dx) > abs(dy) strictly and abs(dx) > 30. It is vertical iff abs(dx) <= abs(dy), so ties go vertical, and abs(dy) > 30. Otherwise it is no key. The sign of the displacement picks the key. |
| `SnakeGame.Game.PlaceFood` | main.js:225-234 | The food ends up at the first draw that is off the snake. |
| `SnakeRules.FreeIndex` | main.js:225-234 | The kept draw is off the snake, and every earlier draw was on it (rejected). |
| `SnakeRules.FreeDrawInGrid` | main.js:226-233 | When every draw is on the board, the kept food cell is on the board and off the snake. |
| `SnakeRules.BoardFullNoFreeDraw` | main.js:230-233 | Once the snake covers all 400 cells, no draw is ever free, so the sampling loop cannot end. |
| `SnakeRules.NextHead` | main.js:164-164 | The new head is one step from the current head along the pending direction; for a unit direction it shares an edge with the current head. |
| `SnakeRules.Tick` | main.js:163-196 | After one update the game is over iff it was or the new head collides. Without a collision the new head leads the snake. The snake grows by exactly as much as the score, which rises by 0 or 1. The best score never decreases. |
| `SnakeGame.Game.Update` | main.js:163-196 | The new state is `Tick` of the old one and the draws. The session invariant is preserved. |
| `SnakeRules.TickCollision` | main.js:164-181 | When the new head leaves [0,20) on either axis or meets any current segment, the tail included, the game is over. Snake, food, score, direction and interval are unchanged. The best score becomes max(best, score). |
| `SnakeRules.TickMove` | main.js:183-195 | On a move without food, the new snake is the new head followed by the old snake minus its last segment. Length, score, food, interval, best score, direction, running flag and initial interval are unchanged, and the vacated tail cell is no longer on the snake. |
| `SnakeRules.TickEat` | main.js:183-192 | On food, the new snake is the new head followed by the whole old snake. Length and score each go up by one. The interval becomes max(old - 5, 20). The new food is off the grown snake, head included. Direction, best score, running flag and initial interval are unchanged. |
| `SnakeRules.TickHighScore` | main.js:175-179 | The best score never decreases. It changes only when the game ends with a strictly larger score, and after the game ends it is at least that score. |
| `SnakeRules.TickPreservesInv` | main.js:163-196 | If every draw is on the board, a tick keeps the invariant. Length is score + 1. The body is a simple path on the board, with distinct and edge-adjacent segments. Food is on the board and off the snake. The direction is a unit step. The interval follows the speed ramp. |
| `SnakeRules.SpeedAfter` | main.js:190-190 | The interval after n meals: at least 20 once n >= 1, and never above the larger of the initial interval and 20. |
| `SnakeRules.SpeedFloorOfInv` | main.js:190-190 | In any started session with score >= 1, the current interval is max(initial - 5 * score, 20), so at least 20. |
| `SnakeRules.SpeedClosedForm` | main.js:190-190 | After n >= 1 meals the interval is max(initial - 5n, 20), so it is never below 20. |
| `SnakeGame.Game.EndGame` | main.js:250-253 | Clears `gameRunning` and nothing else. |
| `SnakeGame.Game.GameLoop` | main.js:149-159 | If the game is already over, the only change is that `gameRunning` becomes false, with no update. Otherwise the state advances by `Tick`. The invariant holds and the best score does not decrease. |

## Left out

- Canvas sizing, `draw` and `drawIntro` rendering: pixel geometry with no game logic.
- Scroll blocking, event registration and `preventDefault` calls: page plumbing.
- `setInterval`/`clearInterval`: only the interval value `currentSpeed` is modelled, not real-time scheduling. The timer runs exactly while `gameRunning` is true, so `GameLoop` requires it.
- `localStorage` and the string-to-number coercion of the stored best score: the best score is a natural number given to the constructor.
- `alert` and the score texts on the page: display side effects.
- `Math.random`: replaced by the supplied sequence `draws` of candidate cells. Each is on the board, since `Math.floor(Math.random() * 20)` always is. The case where no draw is ever free is not modelled, because the source loops forever there; `BoardFullNoFreeDraw` shows when that happens.
- Touch coordinates are floating point in the source: `TouchEnd` takes integer displacements.
- Undefined variables before the first start: the session variables are undefined in the script before the first start, and the model holds placeholder values there. No method that reads them can run before `StartGame`.
