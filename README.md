# Riddle game session — a Dafny model

The page component in `src/pages/Index.tsx` runs a timed riddle game. There
are five riddles in a fixed order. Each has four options, one right option and
a countdown in whole seconds. The component keeps a session in six variables:

- the current level;
- the seconds left;
- the score;
- the screen (`menu`, `playing`, `levelComplete`, `gameOver`, `victory`);
- the highlighted answer;
- a feedback flag.

Four click handlers change the session: start, answer, continue and play
again. So does a one-second interval timer. An answer click shows feedback
at once and schedules the verdict for one second later.

The model has four modules:

- `Catalog` (`catalog.dfy`): the riddle catalog and the answer reward,
  `100 + 10 * timeLeft`.
- `GameSession` (`session.dfy`): the session as a value. It has one
  transition function per handler, the tick and the scheduled resolution,
  all joined in `Step`. It also holds the invariant `Valid` and `Enabled`,
  which says when each event can happen.
- `Properties` (`properties.dfy`): lemmas over single steps and over whole
  sequences of events (`Run`).
- `Index` (`index.dfy`): the component as a class `Game`. Its fields are the
  session variables, and it has one method per handler. Every method keeps
  `Valid()`. Every handler method, and `Tick`, ends in `Step` applied to the
  old state; `HandleTimeOut`, which `Tick` calls, only sets the game-over
  screen. The `ensures` also spell out the new value of each field.

Modelling decisions:

- **Screens as preconditions.** The handlers do not check the screen
  themselves. Each one is only reachable through a button that is rendered
  on one screen:
  - start on the menu (lines 134-177);
  - the answers on the question screen (lines 179-271);
  - continue on the level-complete screen (lines 273-303);
  - play again on the victory and game-over screens (lines 305-377).

  The methods' `requires` state those screens. The timer callback exists only
  while the question screen is up with time left (line 63), so `Tick`
  requires that too.
- **The deferred answer is two steps.** `SubmitAnswer` records the highlight
  and schedules a `Deferred` value. That value holds the verdict, the level
  and the clock as they were at the click, just as the scheduled closure
  captures them. `ResolveAnswer` applies it later.
- **The timer keeps running while feedback is shown**, as in the code. So the
  clock can run out between a click and its resolution, and the resolution
  then overwrites the game-over screen (`TimeoutThenResolve`). A play-again
  click in that window is possible too. The invariant only needs the current
  level to be at most the captured level.
- **The time bonus.** The code computes it as `Math.floor(timeLeft * 10)`.
  The clock only ever holds whole seconds, so the floor is the product
  itself.

## Model

| member | source | states |
|---|---|---|
| `Catalog.CatalogWellFormed` | src/pages/Index.tsx:16-52 | five riddles, ids 1..5 in order, each right-answer index inside its options, each countdown positive |
| `Catalog.TimeLimit` | src/pages/Index.tsx:16-52 | the countdown of any riddle in the catalog is positive |
| `Catalog.AnswerPointsRewardsSpeed` | src/pages/Index.tsx:92-94 | a right answer is worth at least 100 points, and every extra second left is worth exactly ten more |
| `Properties.InitialValid` | src/pages/Index.tsx:55-60 | the first render is on the menu with zero score and satisfies the session invariant |
| `Properties.StepValid` | src/pages/Index.tsx:62-130 | every handler, tick and resolution keeps the invariant: level a catalog index, clock between 0 and the riddle's limit, score non-negative, question screen only with time left, continue screen only below the last riddle, feedback shown exactly while a resolution is pending and its highlight agreeing with the captured verdict |
| `Properties.RunValid` | src/pages/Index.tsx:62-130 | the invariant holds after any sequence of possible events |
| `Properties.ReachableValid` | src/pages/Index.tsx:55-130 | every reachable session satisfies the invariant, so the clock is never negative and the level is always in range |
| `Properties.StepScore` | src/pages/Index.tsx:88-130 | no event other than start and restart lowers the score; the only raise is a right answer's resolution, by exactly the reward for the clock captured at the click |
| `Properties.ScoreNeverDecreases` | src/pages/Index.tsx:62-123 | within a play-through (no start or restart) the score never decreases |
| `Properties.CountdownRuns` | src/pages/Index.tsx:62-75 | on the question screen, k ticks fewer than the clock lower it by exactly k and change nothing else |
| `Properties.TimesOutOnce` | src/pages/Index.tsx:62-80 | letting the clock run out ends the game exactly once: every earlier tick stays on the question screen, the last sets the clock to 0 and the screen to game over, and no further tick is possible |
| `Properties.SubmitIgnoredWhilePending` | src/pages/Index.tsx:82-86 | the first click leaves score, screen, level and clock alone and only sets the highlight and the feedback flag; a second click while feedback is shown changes nothing |
| `Properties.ResolveUsesClickTime` | src/pages/Index.tsx:88-108 | click, any number of ticks up to and including the one that runs the clock out, then resolution: a right answer adds the reward for the clock at the click and leads to level complete, or to victory on the last riddle; a wrong one leaves the score and leads to game over; the clock has dropped by the ticks; the feedback is cleared |
| `Properties.TimeoutThenResolve` | src/pages/Index.tsx:62-108 | a right answer clicked with one second left: the tick in between shows game over, and the resolution then turns it into level complete with the reward for that second |
| `Properties.CorrectThenNext` | src/pages/Index.tsx:90-123 | a right answer followed by continue lands on the next riddle with its full countdown and the question screen, the score raised by the reward |
| `Properties.PerfectFromWins` | src/pages/Index.tsx:82-123 | answering every remaining riddle right at once and continuing after each reaches the victory screen with each riddle's full-clock reward added |
| `Properties.PerfectGame` | src/pages/Index.tsx:16-123 | from the menu, a perfect game wins with 1600 points |
| `Properties.SampleGame` | src/pages/Index.tsx:62-123 | start, five ticks, right answer (350 points), continue, wrong answer: game over on the second riddle with 350 points |
| `Index.Game.constructor` | src/pages/Index.tsx:55-60 | the initial session: menu, level 0, score 0, the first riddle's countdown, no highlight, no feedback |
| `Index.Game.StartGame` | src/pages/Index.tsx:111-116 | level 0, score 0, the first riddle's full countdown, question screen; feedback fields unchanged; invariant kept |
| `Index.Game.HandleTimeOut` | src/pages/Index.tsx:77-80 | shows the game-over screen, changes nothing else and keeps the invariant |
| `Index.Game.Tick` | src/pages/Index.tsx:62-75 | above one second the clock drops by exactly one and nothing else changes; at one second the clock becomes 0 and the screen game over; the clock never goes negative |
| `Index.Game.SubmitAnswer` | src/pages/Index.tsx:82-89 | a no-op while feedback is shown; otherwise sets the highlight and the feedback flag and captures verdict, level and clock; score, screen, level and clock unchanged |
| `Index.Game.ResolveAnswer` | src/pages/Index.tsx:90-108 | right: score plus 100 plus ten times the captured clock, level complete below the last riddle, else victory; wrong: score unchanged, game over; both: feedback and highlight cleared, level and clock untouched |
| `Index.Game.NextLevel` | src/pages/Index.tsx:118-123 | level plus one, always a catalog index; that riddle's full countdown; question screen; score unchanged |
| `Index.Game.RestartGame` | src/pages/Index.tsx:125-130 | level 0, score 0, the first riddle's countdown, menu screen; feedback fields unchanged |

## Left out

- src/hooks/useSound.ts: Web Audio tone synthesis. The page never calls it,
  and it holds no game state.
- Rendering: the cards, buttons, icons, styling, the progress and
  time-percentage bars (floating-point display values) and the red styling
  when five seconds or fewer are left. These only show state. The only part
  of rendering that is modelled is which screen offers which button, as
  preconditions.
- `toast` messages: a display side channel with no effect on the session.
- Real time: the model does not measure time. Ticks and the one-second
  resolution are explicit events that may interleave in any order the
  handlers allow. So the model admits any number of ticks between a click
  and its resolution, where real time allows about one. Every property
  proved holds for all of these orders.
- React scheduling: update batching, effect re-subscription and the
  development-mode double call of state updaters. The model applies each
  handler's updates in program order.
- Continue on the last riddle: in the code, `nextLevel` would index past the
  catalog and throw. The continue button only appears on the level-complete
  screen, and `Valid` proves that screen is only shown below the last
  riddle, so `NextLevel` requires that screen.
- Hints, a high-score board and sound events: the component has none of
  them, so the model has none either.
