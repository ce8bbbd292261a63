# Snake game simulation in Dafny

A model of the simulation inside `game.py`, a pygame Snake game on a 20 by 20
toroidal board. The program keeps its state in module globals: the snake as a
list of cells with the head first, the direction (`UP`, `DOWN`, `LEFT`,
`RIGHT`), the food cell, the score and the pause flag. Each pass of the main
loop handles the pending key presses, then runs one tick. A tick moves the
head one cell with wraparound. It then either eats (score up by one, the tail
kept, food redrawn until it is off the snake) or drops the tail. Finally it
checks for self-collision, which opens a game-over screen that waits for R
(restart) or Q (quit). The frame rate is `min(10 + score // 5, 30)`.

The model has four modules:

- `Grid` (`grid.dfy`): cells, directions, the wraparound step, and the
  counting facts about the board (pigeonhole). These decide whether a free
  cell is left for the food.
- `Food` (`food.dfy`): the resample loop. The random generator is replaced by
  the sequence of cells it would produce (`draws`). The loop takes the first
  draw that is off the snake.
- `Rules` (`rules.dfy`): the game state as a value `State`, and the
  transitions as functions: `ResetState`, `KeyStep` (one key), `KeysStep` (a
  batch of keys) and `TickStep` (one tick). It also holds the invariant `Inv`
  and the lemmas about these transitions.
- `SnakeGame` (`snake_game.dfy`): class `Game`. It holds the globals as
  fields, and its methods `Reset`, `HandleKey`, `Tick` and `Frame` update them
  in place. Each method is proved to keep `Inv`. `HandleKey`, `Tick` and
  `Frame` are proved to reach the state that the matching `Rules` function
  gives. `Reset` sets the five game variables to `ResetState` and leaves the
  `over` and `exited` flags as they were.

The game-over screen's waiting loop is not a separate blocking loop here. It
is the state flag `over`. While `over` is set, keys are handled as that
screen does: R restarts, Q sets `exited`, and every other key is ignored.
Ticks do nothing while the game is paused, over or exited.

Two behaviours of the code a reader may not expect:

- Food is not kept off the snake at reset. `reset_game` draws it anywhere,
  so it can land on the start cell (0, 0). The invariant is therefore `food
  in snake ==> snake == [(0, 0)]`. The food can only be under the start cell,
  and only before the first move after a reset. After every tick that moves the snake
  the food is off the whole snake (`TickEats`, `TickMoves`).
- A tick that eats when the snake is one cell short of filling the board
  does not produce a win state. The redraw loop never ends (`WinningEatHangs`).

## Model

| member | source | states |
|---|---|---|
| `Grid.Wrap` | game.py:135-141 | `% grid_size` gives a coordinate in [0, n). It leaves an on-board value alone, sends n to 0 and sends -1 to n - 1 |
| `Grid.NextHead` | game.py:133-141 | The new head is on the board. It is one step along the axis of the direction, wrapping at the edge, and the other coordinate is unchanged |
| `Grid.NextHeadMoves` | game.py:133-141 | On a board at least 2 wide, the new head always differs from the old head |
| `Grid.NextHeadWrapsRight` | game.py:140-141 | Moving RIGHT from (19, 0) on a 20-cell board gives (0, 0) |
| `Grid.FreeCellExists` | game.py:147-150 | Fewer than n*n cells always leave some board cell free, so the redraw loop has something to find |
| `Grid.FullCover` | game.py:147-150 | n*n distinct board cells cover every cell of the board |
| `Grid.DistinctBound` | game.py:142-155 | Pairwise distinct board cells number at most n*n |
| `Food.FirstFree` | game.py:147-150 | The index chosen is the first draw that is not on the snake. Every earlier draw is on the snake |
| `Food.Resample` | game.py:147-150 | The loop returns the first draw that is off the snake, and its index. Every draw it skipped was on the snake |
| `Rules.Steer` | game.py:122-129 | The if/elif chain of arrow keys is the same as "refuse the key that points straight back, take any other" |
| `Rules.Speed` | game.py:170 | The speed lies in [10, 30]. It is 30 exactly when the score is at least 100 |
| `Rules.SpeedMonotone` | game.py:170 | The speed never decreases as the score grows |
| `Rules.Inv` | game.py:70-156 | The invariant every reached state keeps: a non-empty snake on the board, food on the board, length = score + 1, food off the snake unless the snake is just the start cell (0, 0) with the food under it, distinct cells unless over, and never paused while over. It has no ensures; `KeyStep`, `KeysStep` and `TickStepInv` prove it is kept |
| `Rules.ResetState` | game.py:70-77 | After reset: snake [(0,0)], direction RIGHT, score 0, not paused and not over, with food at the drawn cell. Nothing says the food avoids the snake |
| `Rules.KeyStep` | game.py:97-129 | Every key press, in play or on the game-over screen, keeps the invariant `Inv` |
| `Rules.KeysStep` | game.py:115-129 | A batch of key presses handled in order keeps `Inv` |
| `Rules.PauseToggles` | game.py:119-120 | While the game is on, P flips `paused` and changes nothing else |
| `Rules.PausedIgnoresArrows` | game.py:121 | While paused, an arrow key changes nothing |
| `Rules.ArrowSteers` | game.py:121-129 | Unpaused, an arrow key changes nothing if it points opposite to the current direction. Otherwise it sets the direction to the key's direction and changes nothing else |
| `Rules.GameOverKeys` | game.py:97-103 | On the game-over screen R gives exactly the reset state and Q quits. Every other key changes nothing |
| `Rules.RestartOnlyAtGameOver` | game.py:118-129 | While the game is on, R and Q change nothing |
| `Rules.TwoKeysReverse` | game.py:115-129 | Heading RIGHT, the keys UP then LEFT in one batch leave the direction LEFT. Each key is checked against the direction the previous key set, so the snake can turn straight back before a tick |
| `Rules.Advance` | game.py:133-141 | The new head computed from the current head and direction lies on the board |
| `Rules.Grown` | game.py:142 | `snake.insert(0, new_head)`: one cell longer, the new head first, the old snake behind it |
| `Rules.TickStep` | game.py:131-156 | One tick as a function of the old state and the draws. It has no ensures of its own; `TickWhenStopped`, `TickEats`, `TickMoves`, `TickGameOver` and `TickStepInv` state its properties |
| `Rules.DrawsUsed` | game.py:147-150 | A tick consumes draws exactly when it eats; then the last one consumed is off the grown snake and every earlier one is on it |
| `Rules.TickWhenStopped` | game.py:131 | While paused (or over, or exited) a tick leaves the whole state unchanged and consumes no draws |
| `Rules.AdvanceLeavesHead` | game.py:133-141 | The new head is never the cell the head just left |
| `Rules.EatenCellIsFree` | game.py:145 | When the new head lands on the food, the food was not on any cell of the snake |
| `Rules.TickEats` | game.py:142-150 | Eating: score + 1, length + 1, the snake is the new head in front of the whole old snake, new food on the board and off the snake, no game over; direction, pause and exit flags unchanged |
| `Rules.TickMoves` | game.py:142-152 | Not eating: score, length, food, direction, pause and exit flags unchanged, and the food is off the snake. The snake is the new head in front of the old snake without its last cell |
| `Rules.TickGameOver` | game.py:142-156 | The head is the new head. Game over fires exactly when the head occurs in `snake[1:]` after eat/pop. If it does not fire, the cells are still pairwise distinct |
| `Rules.TickStepInv` | game.py:131-156 | A tick keeps `Inv`: the snake is non-empty and on the board, length = score + 1, food under the snake only when the snake is the single start cell (0, 0), cells distinct unless over |
| `Rules.SnakeNeverEmpty` | game.py:142-152 | After a tick the snake still has at least one cell |
| `Rules.ScoreBound` | game.py:142-156 | While the game is on, the snake has at most 400 cells and the score is below 400 |
| `Rules.FoodCellAvailable` | game.py:147-150 | While the grown snake has fewer than 400 cells, some board cell is free for the food |
| `Rules.WinningEatHangs` | game.py:147-150 | If an eat makes the snake fill all 400 cells, no on-board draw is free and the redraw loop never ends |
| `SnakeGame.Game.constructor` | game.py:70-77 | The initial `reset_game` gives the reset state and the invariant |
| `SnakeGame.Game.Reset` | game.py:70-77 | `reset_game`: the state is `ResetState(draw)` with the game-over and quit flags left as they were, and `Inv` is kept |
| `SnakeGame.Game.HandleKey` | game.py:97-129 | Handling one key updates the fields to `KeyStep` of the old state and keeps `Inv` |
| `SnakeGame.Game.Tick` | game.py:131-156 | The in-place tick (prepend, pop or redraw, collision check) updates the fields to `TickStep` of the old state. It reports whether game over fired and how many draws it used, and it keeps `Inv` |
| `SnakeGame.Game.Frame` | game.py:113-156 | One loop pass: the batch of keys in order, then one tick. It matches `TickStep` applied after `KeysStep` |
| `SnakeGame.Game.CurrentSpeed` | game.py:170 | The frame rate for the current score is in [10, 30] |

## Left out

- Pygame setup, image loading and head-sprite rotation, all drawing and text (game.py:1-67, 82-89, 158-167). This is rendering only.
- Event polling and the window-close event (`pygame.QUIT`), `pygame.quit()` and `exit()`. Key presses are the datatype `Key`, and Q on the game-over screen sets `exited`.
- The wall-clock pacing of `clock.tick(speed)`. Only the speed formula is modelled.
- The random number generator. Reset takes its food cell as a parameter, and the redraw loop takes the sequence of cells the generator would produce. Both are required to be on the board, as `randint(0, grid_size - 1)` makes them.
- SnakeGame.Game.Tick: it requires the draws to contain a cell off the grown snake whenever the snake eats. The source makes no such demand and loops forever when no such draw comes. `WinningEatHangs` shows that happens on a board-filling eat, and `FoodCellAvailable` shows that a free cell exists otherwise.
- Food.Resample: it requires some draw to be free, for the same reason as Tick.
- Rules.TickStep: it requires the same free draw (`DrawsOk`) as Tick.
- Rules.DrawsUsed: it requires the same free draw (`DrawsOk`) as Tick.
- SnakeGame.Game.Frame: it requires the same free draw (`DrawsOk`) as Tick, for the tick that ends the frame.
- SnakeGame.Game.Frame: keys that follow R in the same event batch are handled here as game keys. In the source they are still read by the game-over screen's loop, which ignores everything except R and Q.
- Grid size is fixed at 20, as in the source. The grid lemmas are stated for any size n.
