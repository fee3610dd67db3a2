# Snake game engine — a Dafny model

This project models the game engine of a browser Snake game, `src/SnakeGame.js`.
Its score is turned into a reward paid in a crypto token. The model covers:

- the configuration: a 400×400 px board of 20 px cells, so 20×20 cells. It also
  covers the 200 ms base tick, the entry fee of 5, the reward threshold of 500
  and the five-tier table;
- the tier lookup (`getCurrentTier`), the tick interval (`getCurrentSpeed`) and
  the reward (`calculateReward`);
- food placement (`generateFood`);
- the movement tick (`moveSnake`). The head advances one cell. The wall check
  comes first, then the self-collision check against the whole body before the
  move, tail included. Then the snake grows or shifts;
- keyboard input (`handleKeyDown`): arrows with the 180° guard, and Space for pause;
- the lifecycle (`startGame`, `gameOver`, the one-second timer, the Start / Play
  Again button);
- the status badge class (`getStatusClass`).

The React state hooks become one immutable `GameState` record. Each event
updates it atomically. Each event is a pure function: `Step` for one tick of the
movement interval, `KeyPress` for one key, `ClockTick` for one tick of the
one-second interval, and `StartGame` for the button. `Run` applies a sequence of
events, and the invariant `Inv` is proved to hold in every state reachable from
the initial one. The invariant says:

- the segments are distinct and on the board;
- the food is on the board;
- the snake has one segment more than the number of foods eaten;
- the displayed reward matches the status.

Modules, leaves first: `Options` (options.dfy), `GameConfig` (game_config.dfy), `Tiers` (tiers.dfy),
`Board` (board.dfy), `Engine` (engine.dfy) and `Game` (game.dfy).

Representation choices:

- JavaScript numbers with a fractional part become exact Dafny `real`s. These are
  the tier multipliers, the speed, the reward and the random draws.
- `Math.round(x)` is `(x + 0.5).Floor`.
- `Math.random()` is a value of the subset type `Unit` (reals in [0, 1)). It is
  passed in as a parameter, so the engine stays deterministic.
- Directions, statuses and keys are datatypes, not strings.

Behaviour that follows the code rather than a tidier design:

- The tier table starts at 500, and a failed search falls back to the LAST tier.
  So every score below 500, including 0, is "Legendary", and the game starts at
  the fastest interval, 100 ms. Tier order is therefore not monotone across the
  threshold (`TierOfNotMonotoneAtThreshold`).
- The reward uses the proportional formula
  `5 * ((score - 500) / 500 * multiplier)`, rounded to cents. It does not use a
  flat bonus on the entry fee.
- Eating always adds a flat 10 points, whatever the tier.
- Food is placed without looking at the snake, so it can appear on a segment
  (`GenerateFoodReachesEveryCell`). There is no "board full" condition.
- The one-second timer is cleared only by `gameOver`, so elapsed time keeps
  counting while the game is paused.
- The reversal guard compares with the last heading *set*, not the heading of
  the last move. Two arrow keys within one tick can therefore turn the snake
  into its own neck (`TwoKeysWithinOneTickReverse`).

## Model

| member | source | states |
|---|---|---|
| `Tiers.FindFrom` | src/SnakeGame.js:68-69 | `find` returns the index of the first tier whose band `minScore <= score < maxScore` contains the score; `None` only when no tier from the start index on contains it |
| `Tiers.TierIndex` | src/SnakeGame.js:67-71 | the current tier index is in the table; it is the first containing tier, or the last tier when no tier matches |
| `Tiers.TierOf` | src/SnakeGame.js:67-71 | the current tier is always an element of the table |
| `Tiers.TierOfIsFirstMatch` | src/SnakeGame.js:67-71 | the current tier contains the score and comes no later than any tier containing it; if none contains it, the current tier is the last |
| `Tiers.TierOfAboveThreshold` | src/SnakeGame.js:14-71 | every score of at least 500 lies in its tier's band, and that tier is the only one of the table containing it |
| `Tiers.TierOfBelowThreshold` | src/SnakeGame.js:67-71 | any score below 500, including 0, resolves to the last tier, "Legendary" |
| `Tiers.TierOfMonotone` | src/SnakeGame.js:14-71 | for scores of at least 500, a higher score never gives a lower tier: its minScore and multiplier are no smaller, and its speed factor is no larger |
| `Tiers.TierOfNotMonotoneAtThreshold` | src/SnakeGame.js:67-71 | below the threshold the order breaks: score 0 resolves to a higher tier than score 500 |
| `Tiers.Speed` | src/SnakeGame.js:73-76 | the tick interval, 200 ms times the speed factor, always lies in [100, 180] ms, so it is strictly positive |
| `Tiers.SpeedByScore` | src/SnakeGame.js:73-76 | every score below 500 ticks at 100 ms; from 500 on the interval never grows as the score grows; the Novice band ticks at 180 ms |
| `Tiers.JsRound` | src/SnakeGame.js:88 | `Math.round` gives the nearest integer, with halves rounded up |
| `Tiers.Reward` | src/SnakeGame.js:78-89 | the reward is exactly 0 below 500; otherwise it is non-negative, within half a cent of `5 * ((score-500)/500 * multiplier)`, and a whole number of cents |
| `Tiers.ExactRewardInCents` | src/SnakeGame.js:82-86 | in cents, the unrounded reward equals (score − 500) × multiplier |
| `Tiers.RewardMonotone` | src/SnakeGame.js:78-89 | the reward never decreases with the score, within a tier and across tiers |
| `Tiers.RewardOfWholeScore` | src/SnakeGame.js:78-89 | for scores in steps of 10, the reward is exactly (score − 500) × multiplier / 100 with no rounding, and it is positive exactly above 500 |
| `Tiers.RewardExamples` | src/SnakeGame.js:78-89 | rewards are 0 at 0, 499 and 500 points, 0.12 at 510, 7.50 at 1000 and 225.00 at 5000 |
| `GameConfig.TiersWellFormed` | src/SnakeGame.js:5-50 | the board is 20×20 cells; the tiers are contiguous and ascending with only the last unbounded; multipliers rise and speed factors fall up the table |
| `GameConfig.MultipliersInTenths` | src/SnakeGame.js:14-50 | every reward multiplier of the tier table (1.2, 1.5, 2, 3, 5) is a whole number of tenths |
| `Board.Opposite` | src/SnakeGame.js:165-176 | the reverse of a heading is never the heading itself |
| `Board.Advance` | src/SnakeGame.js:126-132 | the new head is the neighbouring cell: exactly one unit away, along x for LEFT/RIGHT and along y for UP/DOWN; UP decreases y, DOWN increases it, LEFT decreases x, RIGHT increases it |
| `Board.AdvanceOppositeUndoes` | src/SnakeGame.js:126-132 | reversing twice gives the original heading; one step back the opposite way returns to the start; distinct headings lead to distinct cells |
| `Board.Occupies` | src/SnakeGame.js:144 | the `some` scan answers true exactly when the cell is one of the segments |
| `Board.Scale` | src/SnakeGame.js:92-93 | `Math.floor(Math.random() * n)` lies in [0, n) |
| `Board.GenerateFood` | src/SnakeGame.js:91-95 | new food always lies within the 20×20 board |
| `Board.GenerateFoodReachesEveryCell` | src/SnakeGame.js:91-95 | every board cell, occupied by the snake or not, is produced by some pair of draws |
| `Engine.Move` | src/SnakeGame.js:122-158 | the move succeeds exactly when the new head is on the board and not on any current segment; it eats exactly when the head is on the food; the length grows by 1 when eating and is unchanged otherwise; the body behind the head is a prefix of the old snake |
| `Engine.MoveCollisionCause` | src/SnakeGame.js:134-147 | a wall collision is reported exactly when the head leaves the board; a self-collision exactly when the head stays on the board and lands on a segment |
| `Engine.MoveIntoTailCollides` | src/SnakeGame.js:144-147 | for every snake of two or more segments, a head that stays on the board and lands on the tail cell, which is about to be vacated, is a self-collision |
| `Engine.MoveShape` | src/SnakeGame.js:149-158 | the new snake is `head :: old` after eating and `head :: old[..n-1]` otherwise |
| `Engine.MovePreservesBody` | src/SnakeGame.js:134-158 | a successful move keeps the segments distinct and on the board |
| `Game.InitialInv` | src/SnakeGame.js:53-59 | the initial state satisfies the game invariant |
| `Game.StartGame` | src/SnakeGame.js:97-109 | a new game is snake `[(10,10)]` heading RIGHT, score 0, time 0, status PLAYING, the entry fee shown as the reward, food from the two random draws (so on the board), and the invariant holds |
| `Game.StartGameForgets` | src/SnakeGame.js:97-104 | the new game does not depend on the state it replaces |
| `Game.EndGame` | src/SnakeGame.js:111-117 | game over sets status GAME_OVER and the reward to `calculateReward` of the score, and leaves the board, score, heading and time alone |
| `Game.Step` | src/SnakeGame.js:119-160 | no change unless PLAYING; heading and time unchanged; the score rises by 0 or 10 and the length rises by exactly the number of foods eaten; on collision the snake and score are kept and the reward is computed; while play continues the shown reward is unchanged |
| `Game.StepCollides` | src/SnakeGame.js:134-147 | a head off the board, or on any current segment including the tail, ends the game with the snake unchanged |
| `Game.StepEats` | src/SnakeGame.js:149-153 | landing on food gives `head :: old`, score +10, and new food from the draws, on the board; play continues and the shown reward is unchanged |
| `Game.StepShifts` | src/SnakeGame.js:149-158 | any other move gives `head :: old[..n-1]` with length, score, food and shown reward unchanged |
| `Game.KeyPress` | src/SnakeGame.js:162-186 | no key sets the heading to the reverse of the current one; keys never touch the board, score, time or reward; only Space changes the status, and Space leaves the heading alone; any other key changes nothing |
| `Game.ArrowKeyTurns` | src/SnakeGame.js:164-176 | an arrow key takes effect exactly when it does not ask for the reverse heading; otherwise nothing changes |
| `Game.SpaceToggles` | src/SnakeGame.js:177-181 | Space maps PLAYING to PAUSED and PAUSED to PLAYING, leaves READY and GAME_OVER alone, and pressing it twice restores the state |
| `Game.TwoKeysWithinOneTickReverse` | src/SnakeGame.js:162-190 | for every right-moving state, Up then Left between two ticks sets the reverse heading; if the game is playing and the neck lies just left of the head, the next tick ends the game |
| `Game.ClockTick` | src/SnakeGame.js:106-114 | the one-second timer adds one second exactly while PLAYING or PAUSED, and changes nothing else |
| `Game.StatusClass` | src/SnakeGame.js:280-287 | every badge class begins with `status-` |
| `Game.StatusClassInjective` | src/SnakeGame.js:280-287 | two statuses get the same badge class exactly when they are equal |
| `Game.Apply` | src/SnakeGame.js:298-313 | every event (the Start button, shown only when READY or GAME_OVER; a tick; a key; a second) preserves the game invariant |
| `Game.StepPreservesInv` | src/SnakeGame.js:119-160 | a movement tick preserves distinct, on-board segments, on-board food, length = 1 + score/10, and the reward-per-status rule |
| `Game.Run` | src/SnakeGame.js:97-197 | any sequence of events from a state satisfying the invariant ends in one satisfying it |
| `Game.ReachableStates` | src/SnakeGame.js:53-160 | in every state reachable from the initial one, the segments are distinct and on the board, the food is on the board, and length = 1 + score/10 |
| `Game.PausedIgnoresTicks` | src/SnakeGame.js:119-120 | any number of ticks leaves a paused game exactly as it was |
| `Game.ScenarioFirstFood` | src/SnakeGame.js:149-153 | from `[(10,10)]` heading RIGHT with food at (11,10), one tick gives `[(11,10),(10,10)]` and score 10 |
| `Game.ScenarioLeftWall` | src/SnakeGame.js:134-142 | `[(0,0),(1,0)]` heading LEFT hits the wall: the game is over and the snake is unchanged |

## Left out

- Canvas drawing, the JSX tree, and the wiring of `setInterval` / `useEffect`
  (src/SnakeGame.js:192-222, 289-385). These are rendering and timer plumbing.
  One firing of the movement interval is one `Tick` event, and the interval
  length is `Tiers.Speed` of the score.
- Portfolio fetching, the USD→Wei conversion and the unfinished
  `transferTokenToTreasury` (src/SnakeGame.js:224-278). These are network and
  SDK calls with floating-point exchange rates, and the last one is incomplete
  code. No entry fee is debited and no reward is paid out in the source either.
- The stale closures and batched React updates between `gameOver`, `setScore`
  and `setSnake`. The model updates one state record atomically per event.
- Tiers.Reward: computed in exact rational arithmetic, not IEEE-754 doubles. A
  double can be off by an ulp before `Math.round`, which could move a
  half-cent case by one cent.
- Tiers.Speed: computed exactly; `200 * 0.7` in doubles is not modelled down to
  the last bit.
- Board.GenerateFood: the uniform distribution of `Math.random` is not
  modelled. The draws are arbitrary values in [0, 1), and only range and
  surjectivity are stated.
- Sign-in, the mock wallet SDK, the context providers and the static UI
  components around the game have no game logic, and are not part of this model.
