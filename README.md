# snake-cli game engine in Dafny

A model of the game-state engine of the terminal Snake game in `snake.h`.
The board is a 10 x 10 torus. The snake is a sequence of cells: the tail is at
index 0 and the newest cell is at the end. A separate `head` cell is where the
next step starts. Food and poison go on free cells, chosen by an index the
caller supplies; when no cell is free the game uses the sentinel (-1, -1).
Each tick tries four cases in order: self-collision, poison, food, plain move.

Four modules, one per part of the engine:

- `Grid` (grid.dfy): cells, the four directions and `NextHead`, the one-step
  wrap-around move with the hard-coded size 10. C++ `%` truncates toward zero,
  and `CRem` models it.
- `Difficulty` (difficulty.dfy): `ComputeLevel`, `ComputeDelayMs` and
  `ComputeScore`, with the same default arguments as the C++ functions.
- `Placement` (placement.dfy): `FreeCells` is the row-major list of free cells.
  `CollectFreeCells` builds that list with the source's two nested loops.
  `GenerateFood` and `GeneratePoison` take the cell at index `rnd % |free|`,
  or the sentinel when the list is empty. The random number `rand()` becomes
  the parameter `rnd`, so every property holds for every random value.
- `Game` (game.dfy): `GameState` holds the loop's variables and `Advance` is
  one tick as a function. The class `Game` keeps the same variables as fields,
  plus the global `paused` flag. Its `Tick` and `Step` methods are proved to
  update the fields exactly as `Advance` says. `WellFormed` is the invariant
  every tick keeps:
  - the snake is non-empty, on the board and has no repeated cell;
  - food and poison are the sentinel or free cells, and poison is not on the food;
  - the food counter is the snake's length minus one.

Two behaviours of the code are worth knowing:

- The starting head (0, 1) is never part of the snake (`Initial`). The first
  step goes from (0, 1), not from (0, 0). Moving left, that step reaches (0, 0),
  the snake's only cell, and the game ends at once by self-collision. Otherwise,
  on a plain move the snake becomes the single cell after (0, 1); eating there
  gives [(0, 0), next]; poison there ends the game.
- The direction tests in `snake_test.cpp` expect the plain neighbour at a random
  position. They do not hold at the edges, where the move wraps (`EdgeWraps`).
  `InteriorStep` proves what those tests check, for positions away from the edge.

## Model

| member | source | states |
|---|---|---|
| `Grid.CRem` | snake.h:131 | for a non-negative operand the C++ remainder equals the mathematical one; for a negative operand it lies in (-n, 0] and differs from the operand by a multiple of n, so it is the remainder truncated toward zero |
| `Grid.NextHead` | snake.h:128-142 | from a board cell the step stays on the board and goes to the neighbour in that direction, modulo 10; r/l keep the row, u/d keep the column; the head always moves |
| `Grid.OppositeUndoes` | snake.h:128-142 | 'l' undoes 'r', 'r' undoes 'l', 'u' undoes 'd' and 'd' undoes 'u', at every board cell including the edges |
| `Grid.FullCycle` | snake.h:128-142 | right, down, left, up in turn return to the starting cell |
| `Grid.InteriorStep` | snake_test.cpp:5-27 | when the plain neighbour is on the board, the step reaches exactly that neighbour |
| `Grid.EdgeWraps` | snake.h:131-138 | at each edge the step wraps to the opposite side, e.g. right from column 9 gives column 0 |
| `Difficulty.ComputeLevel` | snake.h:23-26 | level 0 for a negative count, otherwise the level is the count divided by 10, rounded down |
| `Difficulty.LevelMonotone` | snake.h:23-26 | eating more never lowers the level |
| `Difficulty.LevelThresholds` | snake_test.cpp:83-90 | levels of -1, 0, 9, 10, 19, 20 are 0, 0, 0, 1, 1, 2 |
| `Difficulty.ComputeDelayMs` | snake.h:28-32 | the delay is at least the minimum and at least base less one reduction per level (negative level clamped to 0), and equals one of the two: their maximum |
| `Difficulty.DelayNonIncreasing` | snake.h:28-32 | with a non-negative reduction, a higher level never gives a longer delay |
| `Difficulty.DefaultDelays` | snake_test.cpp:92-99 | with the defaults, levels 0 to 3 give 500, 400, 300, 200 ms, every level from 4 gives 100 ms, and every level lies in 100..500 |
| `Difficulty.CustomDelays` | snake_test.cpp:101-103 | (3, 600, 50, 200) gives 450 and (10, 600, 50, 200) gives the floor 200 |
| `Difficulty.ComputeScore` | snake.h:35-38 | no points for a count of zero or less; never negative when points per food are not |
| `Difficulty.ScoreStep` | snake.h:35-38 | from a non-negative count, each further food adds exactly one food's points |
| `Difficulty.ScoreExamples` | snake_test.cpp:42-52 | -1, 0, 1, 5 give 0, 0, 10, 50; (3, 7) gives 21 and (10, 1) gives 10 |
| `Placement.IsFree` | snake.h:48 | the test of the food loop, a cell off the snake; for poison also not the food, as at snake.h:68 |
| `Placement.FreeInRow` | snake.h:46-51 | the inner loop over one row: its free cells, left to right, at most one per column |
| `Placement.FreeInRows` | snake.h:45-52 | the outer loop: the free cells of the first m rows, row by row, at most m * width of them |
| `Placement.FreeCells` | snake.h:43-52 | the whole free list of the size x size board, never longer than the size * size cells reserved at snake.h:44 |
| `Placement.Pick` | snake.h:53-57 | the sentinel when the list is empty, otherwise a cell of the list (the one at index `rnd` modulo its length) |
| `Placement.FreeCellsMembers` | snake.h:45-52 | a cell is in the free list exactly when it is on the size x size board, not on the snake and (for poison) not the food |
| `Placement.FreeCellsRowMajor` | snake.h:45-52 | the free list is in strict row-major order, so no cell appears twice |
| `Placement.PickIsFree` | snake.h:53-57 | for every random value the pick is the sentinel exactly when no board cell is free, and otherwise a free board cell |
| `Placement.PickSingleFree` | snake.h:53-57 | when exactly one board cell is free, every random value picks that cell |
| `Placement.CollectFreeCells` | snake.h:43-52 | the nested row/column loops build exactly the row-major free list |
| `Placement.GenerateFood` | snake.h:42-58 | food is the free cell at `rnd % count`; it is the sentinel exactly when the snake covers the whole board, and otherwise an on-board cell off the snake |
| `Placement.GeneratePoison` | snake.h:62-78 | poison is the cell at `rnd % count` of the cells free of the snake and the food; it is the sentinel exactly when there is none, otherwise on the board, off the snake and not the food |
| `Placement.FullBoardGivesSentinel` | snake_test.cpp:69-79 | a snake covering a 2 x 2 board leaves only the sentinel for food |
| `Placement.NearlyFullBoardGivesLastCell` | snake_test.cpp:54-67 | with all of a 3 x 3 board but (2, 2) covered, food lands on (2, 2) whatever the random value |
| `Game.Initial` | snake.h:148-154 | the start state: one snake cell, nothing eaten, and a head that is not on the snake |
| `Game.Advance` | snake.h:166-194 | one tick: a game over leaves the state as it was; otherwise the head becomes the next cell and the snake keeps its length or grows by one |
| `Game.FirstStepLeftCollides` | snake.h:149-168 | heading left, the first tick of every new game ends by self-collision |
| `Game.IsPoisonCollision` | snake.h:81-83 | the poison is hit exactly when both coordinates agree |
| `Game.AdvanceOutcome` | snake.h:166-176 | the game is over by self-collision exactly when the new head is on the snake, tail included; by poison exactly when it is not on the snake but is the poison cell; the state is unchanged exactly then; otherwise the head and the newest snake cell are the new head |
| `Game.AdvanceEats` | snake.h:176-181 | eating appends the new head only (length + 1), adds one to the counter, and places new food (sentinel exactly when the grown snake fills the board) and then new poison |
| `Game.AdvanceMoves` | snake.h:182-186 | a plain move keeps the length, drops only the oldest cell, appends the new head and leaves food, poison and the counter alone |
| `Game.AdvancePreservesWellFormed` | snake.h:166-194 | every tick keeps the snake non-empty, on the board and free of repeats, food and poison free or the sentinel, and the counter equal to the length minus one |
| `Game.SentinelNeverHit` | snake.h:172-181 | sentinel food can never be eaten and sentinel poison can never end the game |
| `Game.InitialWellFormed` | snake.h:148-154 | the initial state satisfies the invariant, and both the food and the poison are real cells |
| `Game.HudTracksLength` | snake.h:188-192 | during a game the score shown is 10 per cell beyond the first, the level is that growth divided by 10, and the delay lies in 100..500 ms |
| `Game.Game.constructor` | snake.h:148-154 | a new game has the snake [(0, 0)], head (0, 1), food and then poison placed against that snake, counter 0, not paused |
| `Game.Game.SetGamePaused` | snake.h:18 | the flag becomes the given value |
| `Game.Game.TogglePause` | snake.h:19 | the flag flips |
| `Game.Game.IsGamePaused` | snake.h:20 | reads back the flag that `SetGamePaused` and `TogglePause` write |
| `Game.PauseRoundTrip` | snake.h:18-20 | setting a value and then toggling twice leaves the flag reading that value |
| `Game.Game.Level` | snake.h:188 | the level shown is the snake's growth divided by 10 |
| `Game.Game.Score` | snake.h:189 | the score shown is 10 points per cell beyond the first |
| `Game.Game.CurrentDelayMs` | snake.h:192 | the frame delay always lies between 100 and 500 ms; in a running game it is 500 ms less 100 ms per level for a snake of up to 40 cells, and the 100 ms floor beyond |
| `Game.Game.Tick` | snake.h:166-194 | the fields after a tick and the outcome are exactly those of `Advance`, and the invariant is kept |
| `Game.Game.Step` | snake.h:155-194 | while paused nothing changes and the loop goes on; otherwise the pass is one tick |

## Left out

- `input_handler` (snake.h:86-108) is not modelled. It covers raw terminal mode,
  blocking reads and the key map. The direction it writes becomes a parameter of
  `Tick` and `Step`. Because 'q' is also in the key map, the source's quit branch
  never runs; that lies in this left-out code.
- Any direction character other than r, l, u, d is not modelled; `Direction` has
  the four values only. The source then returns a default-constructed pair, (0, 0).
- `render_game`, the status-line output, `system("clear")`, the sleeps and the
  paused polling delay are terminal and timing plumbing. The delay's value is
  modelled by `ComputeDelayMs` and `Game.Game.CurrentDelayMs`.
- `exit(0)` on game over becomes the `GameOver` outcome. Nothing stops a caller
  from calling `Tick` again after it.
- `rand()` becomes the caller's `rnd`. Uniform choice is not modelled; every
  property is proved for every value.
- `free_cells.reserve` is a capacity hint only and is left out.
- The concurrency between the input thread and the game loop is not modelled.
- A high-score ledger (submit, trim, save, load) is not part of this model: no
  source for it appears in these files.
- Difficulty.ComputeScore: computed on unbounded integers; 32-bit signed overflow
  of `food_eaten * points_per_food`, undefined behaviour in C++, is not modelled.
- Difficulty.ComputeDelayMs: computed on unbounded integers; overflow of
  `level * per_level_reduction_ms` is not modelled.
- Difficulty.ComputeLevel: stated for unbounded integers; C++ `int` bounds are
  not modelled. The division only sees non-negative values, so truncation and
  Euclidean division agree.
