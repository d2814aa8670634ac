# Mine-sweeper engine in Dafny

This project models the engine of a mine-sweeping puzzle: the `Game` class of
`src/model/Game.ts` and the per-square `Cell` class of `src/model/Cell.ts`.

- **Game state.** The engine keeps a `height × width` grid of cells. Each cell has a status
  (`initial`, `opened` or `marked`), a mine flag and a counter of mines around it. The game
  also keeps two counters, `openedCount` and `markedCount`, and an `ended` flag.
- **Mine scattering.** Mines are scattered when a square of the grid is opened while
  `openedCount` is 0, never on the square being opened. Usually that is the first open only,
  but the scatter repeats while `openedCount` stays 0, and a later scatter can keep a mine on
  a square from an earlier one (see "The scatter can repeat" below).
  The flood fill then opens the zero region around an opened square.
- **Flags and notifications.** Flags are toggled on and off. The game emits "end" when a
  mine is opened and "win" when the counters meet the win rule.

The model keeps the source's own form:

- **Cells.** `Cell` is a class whose methods update its fields in place.
- **Game.** `Game` is a class holding the rows of cells as `ground: seq<seq<Cell>>`, the two
  counters and `ended`. Its methods follow the source's loops (`initCells`,
  `createRandomCoordinate`, `getAroundCells`, the `forEach` passes of `scatterMines` and
  `calculateCellMineCount`) and its recursion (`openCellsRecursively`).
- **Board mirror.** A ghost `board`, a map from coordinate to the value of that square, is
  kept in step with the cells. The specification functions are stated on it:
  - `Scatter` is the board after a scatter;
  - `Toggled` is the board after `toggleMark`;
  - `FloodOpened` relates the board before and after `openCellsRecursively`. It pins the
    new board down: `FloodUnique` proves at most one board satisfies it, and every opened
    square is linked back to the target through opened zero squares (`ChainBack`).
- **Counter invariant.** The game invariant `Valid` ties the counters to the board:
  - `openedCount` is the number of opened squares without a mine;
  - `markedCount` is the number of flagged squares;
  - every mine is counted by each square of its block;
  - the last square never holds a mine.

  Every public operation keeps `Valid`.
- **Randomness.** `Math.random` is replaced by a parameter `draws`: the raw values
  `Math.floor(Math.random() * (length - 1))` would have produced, in order.
- **Notifications.** A method that can emit returns the notifications it emitted, in order.
  `openCell` and `toggleMark` also append them to a ghost log `events` of everything emitted
  so far.

Files:

- `cells.dfy`: the module `Cells`, with the coordinate pair, the status, the cell class and
  its state as a value.
- `coordinates.dfy`: the module `Coordinates`, with `coordinate2Number`,
  `number2Coordinate` (including JavaScript's `%`), the 3 × 3 block and the last square.
- `collections.dfy`: the module `Collections`, with distinctness and two counting facts.
- `sampling.dfy`: the module `Sampling`, with what the retry loop of
  `createRandomCoordinate` keeps from a stream of draws.
- `boards.dfy`: the module `Boards`, with the board as a value, the counted sets, scatter,
  toggle, win rule and flood relation, and the lemmas about them.
- `game.dfy`: the module `Games`, with the `Game` class and `NewGame`, the constructor with
  its 'invalid mine count' error.

Behaviour of the source that the model keeps on purpose:

- **`getAroundCells` includes the centre.** It visits all nine offsets, so a mine counts
  itself and the flood revisits its centre. The `openable` guard stops the revisit.
- **The scatter can repeat.** It runs on every in-grid open while `openedCount` is 0, before
  the `openable` check. Opening a flagged square first therefore scatters again on the next
  open, on top of the mines already laid. The counter invariant survives this: `ScatterConsistent`.
- **The last square is never mined.** Mines are drawn from `[0, length - 1)`.
- **`ended` blocks nothing.** A "win" leaves `ended` unchanged.
- **`judge` placement.** It runs after an off-grid `openCell`, but not after an off-grid
  `toggleMark`.
- **The 1 × 2 example.** One would expect that on a 1 × 2 grid with one mine, opening (0, 0)
  forces the mine onto (0, 1). In the code the draw range is
  `[0, length - 1) = {0}`, and 0 is the clicked square's index, so the retry loop never
  finishes. This model follows the code: `Sampling.OneByTwoFirstOpenNeverFinishes` proves
  that no draw sequence lets that first open finish.

## Model

| member | source | states |
|---|---|---|
| Cells.Cell.constructor | src/model/Cell.ts:10-33 | a new cell keeps the coordinate it was given, `x` and `y` are its two components, and it is untouched, mine-free, with counter 0 and openable |
| Cells.Cell.X | src/model/Cell.ts:18-20 | the getter `x` is the column, which together with `y` gives back the cell's coordinate |
| Cells.Cell.Y | src/model/Cell.ts:22-24 | the getter `y` is the row, which together with `x` gives back the cell's coordinate |
| Cells.Cell.Openable | src/model/Cell.ts:26-28 | `openable` holds exactly when the cell is neither opened nor flagged |
| Cells.Cell.SetStatus | src/model/Cell.ts:35-37 | the status becomes `s` without any check, nothing else changes, and `openable` holds exactly when `s` is `initial` |
| Cells.Cell.AddAroundMineCount | src/model/Cell.ts:39-41 | the counter goes up by exactly one and nothing else changes |
| Cells.Cell.LayMine | src/model/Cell.ts:43-45 | the mine flag becomes true whatever it was, so a second call changes nothing, and nothing else changes |
| Coordinates.Coordinate2Number | src/model/Game.ts:52-54 | for a column in `[0, width)` and a row `>= 0`, the index is non-negative and dividing it by `width` gives back the row with the column as remainder |
| Coordinates.JsRemainder | src/model/Game.ts:57 | JavaScript's `%` by a positive divisor: the result lies strictly between `-d` and `d`, takes the sign of the dividend, and differs from it by a multiple of `d` |
| Coordinates.Number2Coordinate | src/model/Game.ts:56-60 | the column always lies in `(-width, width)`; for a non-negative index the column and row are non-negative and re-encode to the index |
| Coordinates.DivModOfIndex | src/model/Game.ts:57-58 | for `0 <= x < width`, dividing `x + y * width` by `width` gives back `y` with remainder `x` |
| Coordinates.IndexRoundTrip | src/model/Game.ts:52-60 | `number2Coordinate(coordinate2Number([x, y])) == [x, y]` for `0 <= x < width`, `y >= 0` |
| Coordinates.NumberRoundTrip | src/model/Game.ts:52-60 | for a non-negative index, `coordinate2Number(number2Coordinate(n)) == n`, with a column in `[0, width)` and a non-negative row |
| Coordinates.IndexRange | src/model/Game.ts:52-60 | a non-negative index names an in-grid square exactly when it is below `width * height` |
| Coordinates.CoordinateRange | src/model/Game.ts:52-54 | every in-grid square has an index in `[0, width * height)` |
| Coordinates.IndexInjective | src/model/Game.ts:52-54 | two squares with columns in `[0, width)` and rows `>= 0` share an index only if they are equal, so with the two range lemmas the index map is a bijection |
| Coordinates.LastSquareIndex | src/model/Game.ts:76-79 | the last square is in the grid and its index is `length - 1`, the first value the draw range excludes |
| Sampling.PickedSound | src/model/Game.ts:78-83 | what the retry loop keeps is repetition-free and holds only draws that are not excluded |
| Sampling.PickedComplete | src/model/Game.ts:78-83 | every draw that is not excluded is kept |
| Sampling.PickedPrefix | src/model/Game.ts:78-83 | stopping the loop early keeps a prefix of what the full draw stream keeps |
| Sampling.SampleAt | src/model/Game.ts:75-84 | the `k`-th returned coordinate is the square of the `k`-th kept draw, an in-grid index in `[0, length - 1)` that is not excluded |
| Sampling.SamplesDistinct | src/model/Game.ts:75-84 | `createRandomCoordinate` returns `mineCount` distinct in-grid squares |
| Sampling.SamplesAvoid | src/model/Game.ts:75-84 | no returned square is an excluded in-grid square, and none is the last square |
| Sampling.TooManyMines | src/model/Game.ts:76-83 | when `mineCount` exceeds the number of eligible indices, no draw stream lets the loop finish |
| Sampling.OneByTwoFirstOpenNeverFinishes | src/model/Game.ts:76-83 | on a 1 × 2 grid with one mine, the first open at (0, 0) never finishes scattering |
| Boards.RowFacts | src/model/Game.ts:69-71 | one row of `initCells` holds exactly the `width` squares of row `y` |
| Boards.GridMembers | src/model/Game.ts:68-72 | the squares `initCells` creates are exactly the in-grid coordinates |
| Boards.GridCard | src/model/Game.ts:35-37 | the grid has `width * height` squares, the getter `length` |
| Boards.CoversCard | src/model/Game.ts:35-37 | a board covering the grid has `length` squares |
| Boards.FreshFacts | src/model/Game.ts:66-73 | on a freshly built board nothing is opened, flagged or mined, every square is untouched, no mine is laid or counted yet, and mines are trivially counted |
| Boards.FreshConsistent | src/model/Game.ts:39-50 | a freshly built board of positive size satisfies the counter invariant with both counters at 0 |
| Boards.LaidAt | src/model/Game.ts:96-99 | the `layMine` pass sets the mine flag on exactly the drawn squares and changes nothing else |
| Boards.RaisedAt | src/model/Game.ts:87-92 | `calculateCellMineCount` adds to each counter the number of drawn mines whose block holds that square, and changes nothing else |
| Boards.BumpedStep | src/model/Game.ts:90 | raising one more square of a repetition-free list changes only that square's counter, by one |
| Boards.BumpedAround | src/model/Game.ts:89-90 | raising each cell `getAroundCells` returns once is raising the whole block of the mine |
| Boards.CountNearCard | src/model/Game.ts:87-92 | for distinct mines, the accumulated count at a square is the number of mines in its block |
| Boards.CountNearPositive | src/model/Game.ts:87-92 | a drawn mine adds at least one to every square of its block |
| Boards.ScatterKeeps | src/model/Game.ts:94-101 | a scatter changes no status, sets the mine flag on exactly the old mines plus the drawn squares, keeps every mine counted by its block, leaves the flagged and untouched sets as they were, and removes exactly the drawn squares from the opened-safe set (so it only shrinks, and stays empty when it was empty) |
| Boards.ScatterConsistent | src/model/Game.ts:119 | a scatter while nothing safe is open, even a repeated one, keeps the counter invariant and leaves the untouched set as it was |
| Boards.ScatterOnUnmined | src/model/Game.ts:87-114 | on a board with no mine yet, whatever flags it holds, the mines are exactly the distinct drawn squares, and every counter equals the number of mines in its edge-clipped 3 × 3 block, centre included |
| Boards.FirstScatter | src/model/Game.ts:75-119 | the first open at `c` on a board with no mine yet, flagged squares included, lays exactly `mineCount` mines, none at `c` and none at the last square, with exact counters, so a counter of 0 means a mine-free block |
| Boards.ToggleTwice | src/model/Game.ts:135-153 | toggling the same square twice restores the board |
| Boards.ToggleCounts | src/model/Game.ts:135-153 | a toggle moves the flag count down by one for a flagged square, up by one for an untouched one, and not at all otherwise, changes nothing but statuses, and so leaves mines, counters and opened squares alone |
| Boards.ToggleConsistent | src/model/Game.ts:135-153 | a toggle keeps the counter invariant with `markedCount` moved as the source moves it |
| Boards.WinMeansSolved | src/model/Game.ts:160-162 | with exactly `mineCount` mines, the win rule holds exactly when the flags sit on the mines and every other square is open |
| Boards.NoWinAfterLoss | src/model/Game.ts:122 | while an opened mine lies on the board, the counters cannot meet the win rule |
| Boards.OpensShrinks | src/model/Game.ts:120-121 | opening only removes squares from the untouched set, and a square that is touched stays touched |
| Boards.OpenOne | src/model/Game.ts:121-123 | opening one untouched square leaves flags and mines alone, removes it from the untouched set, and adds it to the opened-safe set exactly when it has no mine |
| Boards.OpenConsistent | src/model/Game.ts:121-123 | opening one untouched square keeps the counter invariant, with `openedCount` up by one exactly when the square is safe |
| Boards.FloodNone | src/model/Game.ts:118-120 | a target that is off the grid or not untouched leaves the board as it is |
| Boards.FloodOne | src/model/Game.ts:121-124 | an untouched target holding a mine or a non-zero counter is opened alone |
| Boards.FloodStart | src/model/Game.ts:121-125 | opening an untouched, safe zero square starts its flood and shrinks the untouched set |
| Boards.FloodStep | src/model/Game.ts:126 | one recursive call on a safe square of the zero square's block keeps the partial flood, touches that square, and never untouches a square |
| Boards.FloodFinish | src/model/Game.ts:124-127 | once every square of the block returned by `getAroundCells` is touched, the flood from the zero square is complete |
| Boards.ChainBack | src/model/Game.ts:124-126 | every square a flood opens is reached from the target by a path of neighbouring opened squares, each but the last a safe zero square: recursion only spreads from zero squares |
| Boards.FloodUnique | src/model/Game.ts:116-128 | at most one board is related to a given board and target by `FloodOpened`, so the flood's outcome is fully determined: exactly the target's zero region with its boundary, or the target alone when it is a mine or has a non-zero counter |
| Games.Game.Length | src/model/Game.ts:35-37 | `length` is the number of squares of the grid `initCells` builds |
| Games.Game.IsWon | src/model/Game.ts:160-162 | the win rule over the two counters, as the source writes it; what it means on the board is stated by `Games.Game.IsWonOnBoard` and `Boards.WinMeansSolved` |
| Games.Game.IsWonOnBoard | src/model/Game.ts:160-162 | on a valid game holding exactly `mineCount` mines, `isWon` holds exactly when the flags sit on the mines and every other square is open |
| Games.Game.SetCellStatus | src/model/Game.ts:121 | `setStatus` on a grid cell changes that square's status on the board and nothing else |
| Games.Game.LayMineOn | src/model/Game.ts:98 | `layMine` on a grid cell sets that square's mine flag on the board and nothing else |
| Games.Game.AddAroundMineCountOn | src/model/Game.ts:90 | `addAroundMineCount` on a grid cell raises that square's counter by one on the board and nothing else |
| Games.Game.constructor | src/model/Game.ts:39-43 | a game accepted by the mine-count check has every square untouched, mine-free and at counter 0, both counters at 0, `ended` false, no notification sent, and satisfies the invariant |
| Games.Game.Reset | src/model/Game.ts:45-50 | `reset` restores that same fresh state without checking the mine count again, and keeps the invariant |
| Games.Game.GetCell | src/model/Game.ts:62-64 | a cell is found exactly when the coordinate is on the grid; it is the cell at that coordinate, and its state is the board's square |
| Games.Game.NewRow | src/model/Game.ts:69-71 | the inner loop builds `width` new cells for row `y`, at `(x, y)` and fresh |
| Games.Game.InitCells | src/model/Game.ts:66-73 | every square of the grid gets a new untouched, mine-free cell with counter 0 at its own coordinate |
| Games.Game.CreateRandomCoordinate | src/model/Game.ts:75-85 | the retry loop returns `Samples`: `mineCount` distinct in-grid squares, none excluded and none the last square |
| Games.Game.GetAroundCells | src/model/Game.ts:103-114 | the result holds each in-grid square of the 3 × 3 block, centre included, exactly once |
| Games.Game.LayMines | src/model/Game.ts:96-99 | the `layMine` pass leaves the board `Laid`, with a mine on each drawn square |
| Games.Game.RaiseNext | src/model/Game.ts:90 | one step of the inner `forEach` raises the next cell of the block |
| Games.Game.RaiseAround | src/model/Game.ts:89-90 | one pass of `calculateCellMineCount` raises the counter of every in-grid square of the mine's block by one |
| Games.Game.CalculateCellMineCount | src/model/Game.ts:87-92 | the board ends up `Raised` by all drawn mines |
| Games.Game.ScatterMines | src/model/Game.ts:94-101 | the board becomes `Scatter` of the sampled squares, the invariant is kept, and the untouched squares are unchanged |
| Games.Game.End | src/model/Game.ts:155-158 | `ended` becomes true and exactly one "end" is emitted |
| Games.Game.Judge | src/model/Game.ts:164-167 | "win" is emitted exactly when `isWon` holds, and nothing changes |
| Games.Game.OpenCellsRecursively | src/model/Game.ts:116-128 | after any scatter, the board is related to the new one by `FloodOpened`, which fixes the new board (`FloodUnique`), `ended` is set and "end" is emitted exactly when the target is an untouched mine, and the invariant is kept |
| Games.Game.OpenTarget | src/model/Game.ts:120-127 | the open once any scatter is done: `FloodOpened` from the current board, so a mine or a non-zero target is opened alone and a zero target opens exactly its linked zero region with its boundary; "end" exactly for an untouched mine |
| Games.Game.OpenSquare | src/model/Game.ts:121 | `setStatus(opened)` on an untouched cell opens that square, and the invariant holds with the safe square counted |
| Games.Game.SpreadFrom | src/model/Game.ts:123-127 | a safe square is counted and `FloodOpened` holds from the board before it was opened: alone when its counter is non-zero, otherwise exactly its linked zero region with its boundary; no notification is emitted and `ended` is unchanged |
| Games.Game.OpenAround | src/model/Game.ts:125-126 | the `forEach` over the block of a zero square turns its partial flood into `FloodOpened`: everything opened is linked back to the zero square and every opened zero square's block is touched; nothing is emitted |
| Games.Game.OpenNext | src/model/Game.ts:126 | one recursive call from the `forEach` keeps the partial flood and touches the next square of the block |
| Games.Game.OpenCell | src/model/Game.ts:130-133 | the flood from `c`, related by `FloodOpened` to the board after any scatter and so fixed by it, and then `judge`: "end" only for an untouched mine at `c`, followed by "win" exactly when `isWon` holds, never both; all of it appended to the event log; invariant kept |
| Games.Game.Mark | src/model/Game.ts:143-147 | an untouched cell becomes flagged with `markedCount + 1`; any other cell is left alone |
| Games.Game.RemoveMark | src/model/Game.ts:149-153 | a flagged cell becomes untouched with `markedCount - 1`; any other cell is left alone |
| Games.Game.ToggleMark | src/model/Game.ts:135-141 | the board becomes `Toggled` at `c` and `markedCount` moves as the toggle says; off the grid nothing changes and nothing is emitted; "win" is emitted and logged exactly when `c` is on the grid and `isWon` holds; invariant kept |
| Games.NewGame | src/model/Game.ts:39-43 | construction fails with 'invalid mine count' exactly when `mineCount >= width * height`, and otherwise yields a fresh, valid game |

## Left out

- The React user interface, the styles, the image assets and the keyboard and mouse wiring
  are not part of this model.
- mobx's `makeAutoObservable` is left out. The source builds its rows with
  `new Array(height).fill([])`, which gives every row the same array, and only mobx's copy
  makes them separate. `InitCells` assumes the rows are separate: each row is its own
  sequence of new cells.
- The subscribe and fan-out machinery of the event emitter is left out. Emitting a
  notification is modelled as returning it. `openCell` and `toggleMark` then append what they
  emitted to the ghost log `events`.
- `Math.random` is replaced by the parameter `draws`. The retry loop's failure to finish is
  not modelled as a run: `DrawsFit` requires a stream that fills the loop.
  `Sampling.TooManyMines` and `Sampling.OneByTwoFirstOpenNeverFinishes` state when no such
  stream exists.
- The `cells` getter, `ground.flat(1)`, is a read-only view and is not modelled.
- Sizes and the mine count are natural numbers and coordinates are integer pairs. Negative
  or fractional sizes, fractional coordinates and `NaN` are not modelled.
