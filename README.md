# Game of Life board

A model of the simulation engine of a browser Game of Life: the table of
named starting positions (`PRESETS`) and the class `Board`, which holds a
square matrix of cells, flips single cells, loads presets and advances the
board one generation at a time.

The project has three modules:

- `Life` (life.dfy) is the pure specification. A grid is a
  `seq<seq<bool>>`, indexed `g[x][y]`. It defines the empty grid, a toggle,
  a list of toggles applied in order, the neighbour count with hard edges,
  the Game of Life rule and the next generation `NextGen`. It also proves
  the facts about them: a toggle is its own inverse, and a cell is alive
  after a list of toggles exactly when it is listed an odd number of times.
  The neighbour count is at most 8 and equals the size of the set of live
  adjacent cells. A corner never counts more than 3, and edges do not wrap.
- `Presets` (presets.dfy) holds the shipped presets as a map from name to
  coordinate list. Each list keeps the shipped order of its coordinates;
  the map does not keep the order of the names. It
  proves that they have no repeats, that they fit the 25 by 25 board, and
  that loading one leaves exactly its listed cells alive. It also proves
  that the blinker oscillates with period two.
- `Engine` (board.dfy) is the class `Board`. The cells live in an
  `array2<bool>`, and a ghost grid `cells` mirrors them under `Valid()`.
  `ToggleAll` (the walk over a preset inside `ChangePreset`),
  `GetLiveNeighbors` and `Step` keep the source's loops; `ToggleCell`
  updates the array in place. Each is proved against the `Life` functions. `Step`
  reads every count from the current board and writes into a fresh copy,
  as the source does, and its result is `NextGen` of the grid before the
  call.

## Model

| member | source | states |
|---|---|---|
| Life.EmptyGrid | js/board.js:22-24 | the empty board is size by size and every cell is dead |
| Life.Toggle | js/board.js:40-42 | toggling negates cell (x, y), keeps the shape and leaves every other cell as it was |
| Life.ToggleTwice | js/board.js:40-42 | toggling the same cell twice gives back the original grid |
| Life.ApplyToggles | js/board.js:48-53 | toggling a list of in-bounds cells in order keeps the grid's shape; what it does to each cell is stated by Life.ToggleParity |
| Life.ApplyTogglesSnoc | js/board.js:50-52 | toggling one more listed cell is one more single toggle on the result so far |
| Life.ToggleParity | js/board.js:48-53 | after a list of toggles, a cell differs from its start state exactly when the list names it an odd number of times |
| Life.ToggledOnEmpty | js/board.js:48-53 | toggling a list without repeats onto an empty grid leaves alive exactly the listed cells |
| Life.LiveNeighbors | js/board.js:69-79 | the neighbour count is between 0 and 8 |
| Life.LiveNeighborsIsCardinality | js/board.js:69-79 | the neighbour count equals the number of distinct live cells among the eight adjacent positions that lie on the grid |
| Life.CornerAtMostThree | js/board.js:60-79 | a corner cell never has more than three live neighbours |
| Life.NoWraparound | js/board.js:60-79 | the count at (x, y) depends only on the on-grid cells adjacent to (x, y), so cells on the opposite edge never count |
| Life.ScanCountComplete | js/board.js:70-78 | the row-major sweep over offsets -1..1 by -1..1, centre skipped, ends with exactly the neighbour count |
| Life.NextGen | js/board.js:84-101 | the next generation has the shape of the grid it comes from; each of its cells is given by Life.NextGenCell |
| Life.NextGenCell | js/board.js:86-98 | each cell of the next generation follows the rule applied to its own state and its count in the grid before the step |
| Life.AllDeadStaysDead | js/board.js:84-101 | an all-dead board stays all dead after a step |
| Life.LoneCellDies | js/board.js:84-101 | a single live cell has no live neighbour and the step after it leaves an empty board |
| Presets.TableEntries | js/board.js:1-6 | the table has exactly the names empty, glider, blinker and pulsar, with 0, 5, 3 and 48 cells |
| Presets.ShippedPresetsWellFormed | js/board.js:1-6 | every shipped preset lists each cell once and lies inside the 25 by 25 board |
| Presets.LoadedPresetCells | js/board.js:48-53 | after loading a shipped preset onto an empty board, a cell is alive exactly when the preset lists it |
| Presets.BlinkerEntry | js/board.js:4 | the table entry "blinker" is the bar in row 12, columns 11 to 13 |
| Presets.HorizontalBlinkerTurns | js/board.js:84-101 | one step turns the bar in row 12, columns 11 to 13, into the bar in column 12, rows 11 to 13 |
| Presets.UprightBlinkerTurns | js/board.js:84-101 | one step turns the bar in column 12, rows 11 to 13, back into the bar in row 12 |
| Presets.BlinkerOscillates | js/board.js:84-101 | the loaded blinker becomes the upright bar after one step and is back to the loaded board after two |
| Engine.Board.constructor | js/board.js:14-17 | a new board has the given size and every cell dead |
| Engine.Board.GetEmptyBoard | js/board.js:22-24 | the result is a new size by size array with every cell dead |
| Engine.Board.IsCellInBounds | js/board.js:60-62 | (x, y) is in bounds exactly when both coordinates are at least 0 and below the board's size |
| Engine.Board.IsCellActive | js/board.js:31-33 | the result is the state of cell (x, y) |
| Engine.Board.ToggleCell | js/board.js:40-42 | the same array is kept and exactly cell (x, y) is negated |
| Engine.Board.ChangePreset | js/board.js:48-53 | the board is replaced by a new array. For a known name it holds the preset's toggles applied to an empty board, whatever the board held before. An unknown name leaves it empty and is reported |
| Engine.Board.ToggleAll | js/board.js:50-52 | the listed cells are toggled in list order on the same array |
| Engine.Board.GetLiveNeighbors | js/board.js:69-79 | the result is the number of live on-board cells adjacent to (x, y) |
| Engine.Board.Step | js/board.js:84-101 | the board is replaced by a new array holding the next generation of the board before the call |
| Engine.BlinkerRoundTrip | js/board.js:84-101 | a 25 by 25 board loaded with the blinker and stepped twice holds the loaded blinker again |

## Left out

- js/game.js is not part of this model. It builds the page, draws the cells, fills the preset menu from the table's keys, wires the clicks and runs the timer. It is user interface and scheduling code around `Board`.
- Engine.Board.IsCellInBounds: the source compares coordinates against the global `GAME_SIZE`, not the board's own size. The model compares against `size`. The two are equal wherever the application builds a board (`new Board(GAME_SIZE)` in js/game.js), so the model assumes it.
- Engine.Board.GetLiveNeighbors: its count is stated for bounds `[0, size)`. This rests on the same assumption that `GAME_SIZE` equals the board's size.
- Engine.Board.IsCellActive and Engine.Board.ToggleCell require an on-board cell. JavaScript's behaviour off the board (`undefined`, a `TypeError`, or a stray property on a row) is not modelled.
- Engine.Board.ChangePreset requires the chosen preset's cells to lie on the board. The shipped presets are drawn for 25 by 25, as `Presets.ShippedPresetsWellFormed` shows.
- Engine.Board.ChangePreset: for an unknown name the source clears the board and then fails with a `TypeError` on `undefined.map`. The model keeps the cleared board and returns `found == false` in place of the exception.
- Engine.Board.ToggleAll: the source walks the preset with `Array.prototype.map` inside `changePreset` and calls `toggleCell` for each entry. The model moves that walk into its own method, which `ChangePreset` calls. The effect on the board is the same.
- The board's size is a `nat`. A negative or fractional size, which makes `Array(size)` throw or misbehave, is not modelled.
- `getEmptyBoard` reads `this.size` in the source. The model's `GetEmptyBoard` is a static method that takes the size as a parameter, so the constructor can call it before the object is complete.
- The array of row arrays is modelled as one `array2<bool>`. The source never shares a row between boards: `step` copies each row with `slice`. So no aliasing is lost.
- The glider and pulsar are not followed over many generations. Their shape is proved (no repeats, on the board, loaded exactly). Only the blinker's behaviour under `step` is proved.
