# Game of Life view engine, modelled in Dafny

This project models the Life engine inside the Android `GameView` class.
The engine keeps two 16 x 20 boards of `int` cells, each DEAD (0) or ALIVE (1):
`stateA` holds the current generation, and `stateB` is the buffer the next
generation is computed into. It also keeps a `running` flag, a `generation`
counter and the pixel size of one cell. Its operations are:

- clear a board and seed the five-cell glider;
- set the view up for a screen size;
- start, stop and reset the game;
- flip the cell under a released touch;
- advance one generation.

The project has three modules:

- `JavaInt` (`java_int.dfy`) holds the Java `int` behaviour the engine relies
  on: `generation++` wraps at 2^31 - 1, and `w / 16` truncates toward zero.
- `LifeRules` (`life_rules.dfy`) defines the rule on board values:
  - the neighbour count exactly as the engine's slot loop performs it
    (`Probe`, `Hit`, `Tally`, `NeighbourCount`);
  - the textbook count it is compared against (`MooreCount`, `ConwayCell`);
  - the next state of a cell and of the board (`NextCell`, `NextGrid`);
  - the lemmas that say what the engine's count is.
- `GameOfLife` (`game_view.dfy`) holds the class `GameView`. It has
  `array2<int>` fields `stateA` and `stateB` and the scalar fields of the Java
  class. A `Valid()` invariant says that:
  - the boards are distinct, 16 x 20, and hold only DEAD and ALIVE;
  - the cell sizes keep every pixel edge inside the Java `int` range.

  The imperative operations are methods proved against the value functions.
  `calculateGeneration` is split into the methods its loops form:
  - `AnyCellAlive` is the extinction scan;
  - `AliveNeighbours` is the slot loop;
  - `NextState` and `UpdateCell` are the body for one cell;
  - `ComputeBuffer` is the double loop;
  - `CopyBuffer` is the row-by-row copy.

  The messages the view posts to its event handler are kept as a ghost log
  `events`.

### What the code does at the edges

The model follows the code in each of these cases:

- **Neighbour count.** The comments on the border guards say a cell on an
  edge has nobody beyond it (`GameView.java:316-323`), so off-board
  neighbours are meant to be left out.
  - In the code the top slots move to row `j + 1`, but the guard that skips
    them tests `j == 0`. The bottom slots move to row `j - 1`, but their guard
    tests the last row (`GameView.java:320-331`).
  - On rows 0 and 19 the row that falls off the board is clamped back onto
    the cell's own row (`GameView.java:333-334`). The other row is never read,
    and the left and right neighbours are each counted twice.
  - Corner (0, 0) therefore counts only (1, 0), twice.
  - `NeighbourCountBorderRow` proves this, and `NextCellBorderRow` draws the
    consequence: no cell is ever born on rows 0 and 19.
  - `BorderRowBirthMissed` exhibits a board on which the engine and Conway's
    rule disagree.
- **Touch mapping.** The code scans for the first cell whose rectangle
  contains the point, with both edges included (`GameView.java:207-216`).
  A point on the edge shared by cells k - 1 and k therefore goes to the
  earlier cell, k - 1. `TouchIndex` states the resulting formula.
- **Generation counter.** The counter is a Java `int`
  (`GameView.java:70, 373`). It wraps from 2^31 - 1 to -2^31 (`JavaInt.Inc`).

## Model

| member | source | states |
|---|---|---|
| JavaInt.Inc | src/de/onstream/android/games/gameoflife/GameView.java:373 | `generation++` on a Java int: one more below 2^31 - 1; the largest value wraps to -2^31 |
| JavaInt.Div | src/de/onstream/android/games/gameoflife/GameView.java:149-150 | Java division by a positive divisor truncates toward zero; on the non-negative dividends the sizes are computed from, the quotient q satisfies q*b <= a < q*b + b (the negative half of the contract describes `/` in general and is never reached from `Init`) |
| LifeRules.Blank | src/de/onstream/android/games/gameoflife/GameView.java:123-127 | the cleared board has the 16 x 20 shape and every cell DEAD |
| LifeRules.Seeded | src/de/onstream/android/games/gameoflife/GameView.java:128-137 | the seeded board has exactly the five glider cells (4,5), (3,7), (4,7), (5,6), (5,7) ALIVE and every other cell DEAD |
| LifeRules.Probe | src/de/onstream/android/games/gameoflife/GameView.java:311-336 | a slot that is neither skipped nor sent back onto the cell itself inspects an on-board cell other than (i, j), at most one column and one row away, so the count never wraps around an edge |
| LifeRules.NeighbourCount | src/de/onstream/android/games/gameoflife/GameView.java:309-339 | the engine's count of (i, j): the slots 1 .. 8 summed, at most 8; its value is given by NeighbourCountInterior for rows 1 .. 18 and by NeighbourCountBorderRow for rows 0 and 19 |
| LifeRules.Hit | src/de/onstream/android/games/gameoflife/GameView.java:336-338 | one slot adds at most one live neighbour |
| LifeRules.Tally | src/de/onstream/android/games/gameoflife/GameView.java:309-339 | the slots s .. 8 together find at most 9 - s live neighbours |
| LifeRules.HitInterior | src/de/onstream/android/games/gameoflife/GameView.java:316-338 | away from rows 0 and 19, each slot inspects the neighbour in its own direction and finds nothing where that neighbour is off the board |
| LifeRules.NeighbourCountInterior | src/de/onstream/android/games/gameoflife/GameView.java:309-339 | for 0 < j < 19 the engine's count equals the number of live cells among the on-board cells of the 8-neighbourhood |
| LifeRules.NeighbourCountBorderRow | src/de/onstream/android/games/gameoflife/GameView.java:309-339 | on rows 0 and 19 the count is 2 * (left neighbour alive) + 2 * (right neighbour alive), columns off the board counting 0; the other row is never consulted |
| LifeRules.NextCell | src/de/onstream/android/games/gameoflife/GameView.java:346-359 | the buffer value of a DEAD/ALIVE cell is DEAD/ALIVE, and it is ALIVE exactly when the count is 3, or the cell is alive and the count is 2 |
| LifeRules.NextGrid | src/de/onstream/android/games/gameoflife/GameView.java:295-360 | the next board keeps the 16 x 20 shape and holds only DEAD and ALIVE when the current one does |
| LifeRules.NextCellInterior | src/de/onstream/android/games/gameoflife/GameView.java:346-359 | away from rows 0 and 19 the engine's next cell is Conway's (birth on 3, survival on 2 or 3 with the textbook count) |
| LifeRules.NextCellBorderRow | src/de/onstream/android/games/gameoflife/GameView.java:320-338 | on rows 0 and 19 a dead cell stays dead, and a live cell survives exactly when one of its two horizontal neighbours is alive |
| LifeRules.BorderRowBirthMissed | src/de/onstream/android/games/gameoflife/GameView.java:320-334 | there is a board on which cell (5, 0) is born under Conway's rule but stays dead in the engine |
| GameOfLife.Toggle | src/de/onstream/android/games/gameoflife/GameView.java:217-220 | flipping yields DEAD or ALIVE, and always differs from a DEAD/ALIVE input |
| GameOfLife.TouchIndex | src/de/onstream/android/games/gameoflife/GameView.java:207-216 | with a positive cell size and a point 0 <= p <= n * size, the first cell whose closed span contains p is p / size, or p / size - 1 when p is a positive multiple of size |
| GameOfLife.TouchedUnique | src/de/onstream/android/games/gameoflife/GameView.java:205-222 | a touch selects at most one cell |
| GameOfLife.CellAt | src/de/onstream/android/games/gameoflife/GameView.java:205-222 | the scan returns the first cell, in column then row order, whose rectangle with its edges contains the point; it reports none only when no cell's rectangle does |
| GameOfLife.GameView.constructor | src/de/onstream/android/games/gameoflife/GameView.java:62-72 | a new view has two distinct all-DEAD boards, is stopped at generation 0, has cell size 0 and has posted no message |
| GameOfLife.GameView.GetGeneration | src/de/onstream/android/games/gameoflife/GameView.java:119-121 | returns the generation counter |
| GameOfLife.GameView.ClearArray | src/de/onstream/android/games/gameoflife/GameView.java:123-127 | afterwards every cell of the board is DEAD |
| GameOfLife.GameView.CreateGlider | src/de/onstream/android/games/gameoflife/GameView.java:128-137 | the five glider cells become ALIVE and every other cell keeps its value |
| GameOfLife.GameView.SeedBoards | src/de/onstream/android/games/gameoflife/GameView.java:141-143 | the invariant is kept; the current board is the seeded glider board and the buffer is all DEAD, whatever they held before |
| GameOfLife.GameView.Init | src/de/onstream/android/games/gameoflife/GameView.java:139-150 | the boards are always reset as by a game reset. With a positive width and height the cell sizes become w / 16 and h / 20. Otherwise bitmap creation throws, which `sized == false` reports, and the sizes are left as they were. Running, counter and message log are untouched |
| GameOfLife.GameView.GameStart | src/de/onstream/android/games/gameoflife/GameView.java:170-176 | running, counter 0 even when already running, one Started message; the boards are untouched |
| GameOfLife.GameView.GameReset | src/de/onstream/android/games/gameoflife/GameView.java:177-186 | stopped, counter 0, the seeded glider board and an all-DEAD buffer whatever the prior state; posts a Started message |
| GameOfLife.GameView.GameStop | src/de/onstream/android/games/gameoflife/GameView.java:187-191 | stopped, one Stopped message; counter and boards are untouched |
| GameOfLife.GameView.TouchEnd | src/de/onstream/android/games/gameoflife/GameView.java:199-226 | exactly the touched cell of the current board (if there is one) is flipped and every other cell keeps its value; the buffer, flag and counter are untouched, and touching is allowed while running |
| GameOfLife.GameView.AnyCellAlive | src/de/onstream/android/games/gameoflife/GameView.java:272-283 | the scan reports true exactly when some cell of the current board is ALIVE |
| GameOfLife.GameView.AliveNeighbours | src/de/onstream/android/games/gameoflife/GameView.java:298-339 | the slot loop computes the engine's neighbour count of (i, j) on the current board |
| GameOfLife.GameView.NextState | src/de/onstream/android/games/gameoflife/GameView.java:298-359 | the value written for (i, j) is the next cell of the current board; the change flag is raised exactly when that value differs from the cell |
| GameOfLife.GameView.UpdateCell | src/de/onstream/android/games/gameoflife/GameView.java:346-359 | the buffer cell (i, j) receives the next-board value and no other buffer cell changes; reports whether the cell changes |
| GameOfLife.GameView.ComputeBuffer | src/de/onstream/android/games/gameoflife/GameView.java:291-360 | the buffer becomes the next board computed from the current one alone; `changed` holds exactly when the next board differs from the current one |
| GameOfLife.GameView.CopyBuffer | src/de/onstream/android/games/gameoflife/GameView.java:362-364 | the current board becomes equal to the buffer, cell for cell |
| GameOfLife.GameView.CalculateGeneration | src/de/onstream/android/games/gameoflife/GameView.java:268-374 | when stopped, nothing changes. On a board with no live cell, the game stops with the boards and counter untouched. Otherwise the current board becomes the next board and the buffer equals it; then if the board changed, the game keeps running, the counter is incremented with Java wrap-around and a Loop message is posted, and if nothing changed, the game stops with the counter kept |

## Left out

- Drawing is left out: the bitmaps, canvases, paints and rectangles of `init`, `onDraw` and `drawGeneration`, and the redraw requests (`invalidate`). `Init` keeps only the grid and cell-size part.
- The touch listener and the `Float.intValue()` conversion are left out. `TouchEnd` starts from the already truncated integer point. The empty `touch_start` and `touch_move` are omitted.
- `sendMessage` and the event handler's asynchronous dispatch are left out; only the kind of each posted message is recorded, in the ghost `events` log. The Stopped message carries no generation in the code either; the handler reads the counter through `getGeneration`.
- `MainActivity` (activity lifecycle, buttons, label text) is not part of this model. Neither is `Constants` (a log tag), nor the `Log.d` calls.
- Glider periodicity is not claimed. The row 0 / row 19 counting departs from textbook Life, so the glider does not behave as in the textbook once it reaches those rows.
- CellAt: it computes the pixel edges `i * wPx` and `(i + 1) * wPx` in unbounded integers. `Valid()` keeps 16 * wPx and 20 * hPx inside the Java `int` range, so these products never overflow in the code either.
