# Conway's Game of Life: engine and run/edit state machine

This project models the core of a Swing Game of Life, the class `GameOfLife`.
The core is a fixed 30 x 40 board of booleans (alive or dead). The board is
advanced one generation at a time by Conway's B3/S23 rule, and the
neighbour count is bounded: there is no wrap-around at the edges. Around the
board sits a small state machine. The `running` flag decides whether the user
may edit the board. A `generation` counter is reset by clear and randomize.
A `speed` field holds the delay between generations in milliseconds.

The source's methods for these operations are stubs with documentation
comments. The model realises what those comments promise.

- `life.dfy`, module `Life`: the board as a value (`seq<seq<bool>>`) and the
  specification functions for the operations. These are the neighbour count
  over the eight offsets, the per-cell rule, the next generation and the
  single-cell toggle. The lemmas hold what `countNeighbors` and
  `nextGeneration` promise, and the blinker oscillator as a worked case.
- `click.dfy`, module `Click`: the mouse listener maps a pixel to a cell.
  Java's truncating `int` division is written out.
- `game.dfy`, module `Game`: the class `GameOfLife`. It has the fields `grid`
  (an `array2<bool>`), `running`, `generation` and `speed`. Each method is
  proved against the functions of `Life`. `nextGeneration` fills a freshly
  allocated array from the current one and then installs it; its frame does
  not include the old array, so the old board is never written. `clear` and
  `randomize` fill the array in place with nested row/column loops.
  Two worked sessions, `EditsRefusedWhileRunning` and `EditableAfterStop`,
  use only these contracts: edits are refused while running; after stop the
  board is editable and a second toggle undoes the first. They do not model
  a Java method.

Modelling decisions:

- `generation` is a Java `int`, so a step increments it with 32-bit
  wrap-around (`Game.Succ`). Starting from a reset counter, the count is exact
  for up to 2^31 - 1 steps (`Game.StepsCount`). The stub of `nextGeneration`
  does not show the increment. The model takes it from the documented role of
  the counter: it counts generations and clear and randomize reset it.
- `toggleCell` checks `!running`, as its comment asks. It also silently
  ignores coordinates off the board. The mouse listener already checks both
  before it calls it.
- `updateSpeed`'s comment asks only to update the speed
  (GameOfLife.java:276-283). The slider supplies values in [50, 1000]
  (GameOfLife.java:89), so the model stores the value unchanged and does not
  clamp. `SpeedInRange` says the delay lies in the slider's range: the
  constructor establishes it with 200 ms, and `UpdateSpeed` keeps it for
  every value the slider can supply.
- The random draws of `randomize` are a parameter `pick(row, col)`. The board
  afterwards is exactly those draws.
- The repeating Swing timer becomes `TimerTick`. The timer fires only between
  `start` and `stop`, so a tick advances one generation while running and does
  nothing otherwise.
- Because Java's `/` truncates toward zero, a click at a pixel with
  -15 < x < 0 maps to column 0, and the guard `col >= 0` lets it through
  (`Click.ClickTargetExactly`). The same holds for rows. Swing reports clicks
  inside the panel, so this case does not arise in practice.

## Model

| member | source | states |
|---|---|---|
| `Life.NeighborCount` | GameOfLife.java:204-216 | the live-neighbour count of any cell, on or off the board, is between 0 and 8 |
| `Life.NeighborCountExpanded` | GameOfLife.java:204-216 | the count is the sum over the eight offsets (-1,-1) .. (1,1) without (0,0), where a cell off the board contributes 0 |
| `Life.NeighborCountLocal` | GameOfLife.java:204-207 | two boards that agree on the on-board cells around (r, c) give the same count: the cell itself and cells further away are never examined |
| `Life.UpdateFarKeepsCount` | GameOfLife.java:204-207 | changing any cell that is not one of the eight neighbours, the cell itself included, leaves the count unchanged |
| `Life.NeighborCountAtMostCandidates` | GameOfLife.java:204-216 | the count never exceeds the number of on-board cells around (r, c) |
| `Life.CandidatesClipped` | GameOfLife.java:206-207 | an on-board cell has (rows of its 3 x 3 block on the board) x (columns on the board) - 1 candidates, between 3 and 8: bounds-checked, not toroidal |
| `Life.EdgeCandidates` | GameOfLife.java:206-207 | corners have 3 candidate neighbours, other edge cells 5, interior cells 8 |
| `Life.NeighborCountDead` | GameOfLife.java:204-216 | on the all-dead board every count is 0 |
| `Life.Rule` | GameOfLife.java:220-223 | a live cell with 2 or 3 neighbours lives, a dead cell with exactly 3 is born, and every other case is dead |
| `Life.NextGen` | GameOfLife.java:218-229 | the next generation is again a 30 x 40 board |
| `Life.NextGenCell` | GameOfLife.java:220-223 | cell by cell: survival with 2 or 3, birth with exactly 3, death of a live cell with fewer than 2 or more than 3, a dead cell without exactly 3 stays dead; all counts are taken on the old board |
| `Life.NextGenLocal` | GameOfLife.java:225 | a cell's next state depends only on that cell and its neighbours in the old board, never on values already updated in the same pass |
| `Life.NextGenDead` | GameOfLife.java:218-224 | the empty board stays empty |
| `Life.BlinkerOscillates` | GameOfLife.java:218-224 | a horizontal blinker becomes vertical after one generation and horizontal again after two |
| `Life.Toggled` | GameOfLife.java:231-239 | toggling flips exactly the chosen cell and leaves every other cell as it was, on a board of the same shape |
| `Life.ToggleTwice` | GameOfLife.java:231-239 | toggling the same cell twice restores the board |
| `Life.ToggleKeepsOwnCount` | GameOfLife.java:204-216 | toggling a cell does not change that cell's own neighbour count |
| `Click.JavaDiv` | GameOfLife.java:186-187 | Java's int division by a positive divisor: the quotient is rounded toward zero |
| `Click.ClickTarget` | GameOfLife.java:186-189 | a click reaches a cell only when the computed row and column are on the board |
| `Click.ClickInsidePanel` | GameOfLife.java:186-189 | a click inside the 600 x 450 panel reaches the cell whose 15 x 15 square holds the pixel |
| `Click.ClickTargetExactly` | GameOfLife.java:186-188 | a click reaches a cell exactly when -15 < x < 600 and -15 < y < 450; pixels just left of the panel land in column 0 |
| `Game.Succ` | GameOfLife.java:33 | one step of the Java `int` generation counter: plus one, wrapping from the largest int to the smallest |
| `Game.StepsCount` | GameOfLife.java:33 | from 0, the counter after k steps is k for every k up to 2^31 - 1 |
| `Game.GameOfLife.constructor` | GameOfLife.java:31-34 | the initial state: an all-dead board, not running, generation 0, delay 200 ms, which is in the slider's range |
| `Game.GameOfLife.InitGrid` | GameOfLife.java:196-202 | installs a fresh 30 x 40 array whose cells are all dead; the other fields are unchanged |
| `Game.GameOfLife.CountNeighbors` | GameOfLife.java:204-216 | the loop over the eight offsets returns `NeighborCount` of the board the array holds |
| `Game.GameOfLife.NextGeneration` | GameOfLife.java:218-229 | installs a freshly allocated array holding `NextGen` of the old board; the old array is not written; the generation steps by one; running and speed unchanged |
| `Game.GameOfLife.ToggleCell` | GameOfLife.java:231-239 | while not running, an on-board cell is toggled; otherwise the board is unchanged |
| `Game.GameOfLife.MouseClicked` | GameOfLife.java:182-193 | while not running, the cell `ClickTarget` gives is toggled; when running or off the board, nothing changes |
| `Game.GameOfLife.Start` | GameOfLife.java:241-248 | running becomes true; board, generation and speed unchanged |
| `Game.GameOfLife.Stop` | GameOfLife.java:250-257 | running becomes false; board, generation and speed unchanged |
| `Game.GameOfLife.Clear` | GameOfLife.java:259-265 | while not running, every cell is dead and the generation is 0, in the same array; while running nothing changes |
| `Game.GameOfLife.Randomize` | GameOfLife.java:267-274 | while not running, the same 30 x 40 array holds the draws and the generation is 0; while running nothing changes |
| `Game.GameOfLife.UpdateSpeed` | GameOfLife.java:276-283 | speed becomes the given value; a value in the slider's range [50, 1000] keeps `SpeedInRange`; nothing else changes |
| `Game.GameOfLife.TimerTick` | GameOfLife.java:101-106 | while running, one `NextGeneration`; otherwise nothing changes |

## Left out

- Window construction, layout, buttons, labels and colours (GameOfLife.java:70-141): user-interface plumbing, not engine logic.
- `drawGrid` and `updateGeneration` (GameOfLife.java:285-316): they only render the state.
- Scheduling by `javax.swing.Timer`, and restarting it with the new delay when the speed changes while running (GameOfLife.java:101-106, :276-283): a callback mechanism. An explicit `TimerTick` stands in for a timer event, and `speed` is only stored.
- Enabling and disabling the buttons in `start` and `stop` (GameOfLife.java:243, :252): user-interface affordances.
- `main` and the look-and-feel selection (GameOfLife.java:323-336): application bootstrapping.
- Game.GameOfLife.Randomize: does not model the ~30% probability of a live cell (GameOfLife.java:269). The draws come in as a parameter, because randomness and floating-point comparison are outside the model.
- Java's `boolean[][]` is an array of row arrays, where rows could in principle be shared or of different lengths. The model holds the board in one rectangular `array2<bool>`, so it does not capture row aliasing.
