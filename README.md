# PhotoPlay puzzle board: a verified model of the puzzle session

PhotoPlay turns a photo into an N×N sliding-tile puzzle. The player drags one tile onto
another to swap the two. The `PuzzleBoard` component (components/PuzzleBoard.js) holds the
session:

- the tile list: each tile has an id `"row-col"`, the cell it belongs in and the cell it occupies now;
- a move counter, a seconds counter driven by a one-second interval, and a score;
- a completion flag.

This project models that session engine in Dafny and proves its properties:

- **Building the board**, `createTiles`: nested row/column loops produce the tiles in their
  correct cells (module `Grid`, method `BuildTiles`). Then three Fisher–Yates passes shuffle
  the list of positions (module `Shuffle`). Each tile then takes the shuffled position at
  its index.
- **The shuffle**, `shuffleArrayMultiple`: modelled as an in-place algorithm on an `array`.
  It is proved against the functions `Pass` and `ShuffleMultiple`, which are proved to
  permute their input. `Math.random()` becomes an explicit sequence of choices. Each choice
  `j` for step `i` lies in [0, i]. `Pick` shows that `Math.floor(r * (i + 1))` always
  yields such a `j` and that every such `j` is reachable.
- **The swap**, `swapTiles`: a lookup by id, then the two tiles exchange their current
  cells. It is the identity when either id is missing.
- **Completion**, `checkCompletion`; **the score**, `updateScore` and the final score;
  **the timer tick**.
- **The drop-target rule** of `DraggableTile`'s release handler: the centre of the dragged
  tile gives a target cell by flooring, that cell is clamped to the grid, and the tile
  occupying it is chosen.
- **The session** itself: the class `Session.PuzzleBoard`. It has the component's state as
  fields and one method per operation. Its invariant `Valid()` says four things:
  - the tile size is positive;
  - the current cells are a permutation of the grid cells;
  - the score equals the formula applied to the counters;
  - a completed session has stopped its timer and shown its dialog.

Modules, in dependency order:

- `Options`
- `TileIds`: id strings and their injectivity.
- `Permutations`: slot exchange and distinctness.
- `Grid`
- `Shuffle`
- `Scoring`
- `DropTarget`
- `Timer`
- `Session`

Screen geometry is integral. The tile size is a positive whole number of pixels, and drag
offsets are whole pixels. The tile centre `col * T + T / 2 + dx` is computed doubled, so the
half pixel is exact.

On one point the code does not do what it evidently intends. `checkCompletion` clears the
interval (line 143), yet the timer effect keyed on `[tiles]` (lines 51-68) resets `seconds`
and restarts the interval after every committed swap. The session follows the evident
intent: time accumulates, and completion stops the clock. The behaviour as written is
modelled separately; see "## Findings".

## Model

| member | source | states |
|---|---|---|
| TileIds.Decimal | components/PuzzleBoard.js:82 | the numeral of a row or column index is non-empty and made of decimal digits |
| TileIds.TileId | components/PuzzleBoard.js:82 | the id of the tile belonging in (row, col) is the row numeral, one dash, and the column numeral: every other character is a digit |
| TileIds.ParseDecimalInverts | components/PuzzleBoard.js:82 | reading a numeral back gives the number printed: no two indexes print alike |
| TileIds.TileIdInjective | components/PuzzleBoard.js:82 | an id `${row}-${col}` determines its row and column, so tiles with different correct cells have different ids |
| Permutations.Exchange | components/PuzzleBoard.js:351 | exchanging slots i and j puts each one's element in the other and leaves every other slot and the length as they were |
| Permutations.ExchangeKeepsElements | components/PuzzleBoard.js:351 | an exchange keeps the same elements with the same multiplicities |
| Permutations.ExchangeTwice | components/PuzzleBoard.js:351 | the same exchange done twice restores the sequence |
| Permutations.PermutationKeepsDistinct | components/PuzzleBoard.js:346-355 | a permutation of a repetition-free sequence is repetition-free, so shuffled cells stay pairwise different |
| Shuffle.Pick | components/PuzzleBoard.js:350 | `Math.floor(Math.random() * (i + 1))` with a random value in [0, 1) is an index in [0, i] |
| Shuffle.PickReaches | components/PuzzleBoard.js:350 | every index in [0, i] is the pick of some random value in [0, 1) |
| Shuffle.Pass | components/PuzzleBoard.js:349-352 | no contract of its own: one pass of the inner loop as a function of the choices; its properties are `Shuffle.PassKeepsElements` and `Shuffle.PassInPlace` |
| Shuffle.ShuffleMultiple | components/PuzzleBoard.js:346-355 | no contract of its own: `times` passes in sequence; its properties are `Shuffle.ShuffleIsPermutation` and `Shuffle.ShuffleArrayMultiple` |
| Shuffle.PassKeepsElements | components/PuzzleBoard.js:349-352 | one pass of the inner loop keeps the length and the multiset of elements |
| Shuffle.ShuffleIsPermutation | components/PuzzleBoard.js:346-355 | `times` passes return a sequence of the same length that is a permutation of the input |
| Shuffle.PassInPlace | components/PuzzleBoard.js:349-352 | the in-place loop from the last index down to 1 leaves the array holding exactly the pass determined by the choices |
| Shuffle.ShuffleArrayMultiple | components/PuzzleBoard.js:346-355 | copying the input into an array and running `times` in-place passes returns the shuffle function's result, a permutation of the input |
| Grid.GridCellsExactlyOnce | components/PuzzleBoard.js:79-80 | the row/column loops visit only cells of the N×N square, no cell twice, and every cell of the square |
| Grid.GridCells | components/PuzzleBoard.js:79-80 | the N·N cells in the order the row/column loops visit them; that they cover the square once each is `Grid.GridCellsExactlyOnce` |
| Grid.BuildTiles | components/PuzzleBoard.js:78-89 | the nested loops give N·N tiles: tile k belongs in and sits in the k-th grid cell, is named after it, and the board is solved |
| Grid.Assign | components/PuzzleBoard.js:97-104 | tile k takes the k-th shuffled cell, with its id and correct cell unchanged |
| Grid.AssignPermutation | components/PuzzleBoard.js:91-104 | assigning a permutation of the grid cells keeps the tile-list invariant |
| Grid.WellFormedIdsDistinct | components/PuzzleBoard.js:78-89 | on a well-formed list the ids are pairwise distinct |
| Grid.WellFormedMeaning | components/PuzzleBoard.js:78-104 | a well-formed list has N·N tiles with distinct ids, all on the board, pairwise in different cells, and every cell occupied |
| Grid.FindFirst | components/PuzzleBoard.js:162-163 | the lookup returns the first index that matches, or none when no tile matches |
| Grid.FindIndex | components/PuzzleBoard.js:162-163 | the lookup by id gives the first tile with that id, or none when no tile has it |
| Grid.FindAt | components/PuzzleBoard.js:279-281 | the lookup by cell gives the first tile currently in that cell, or none when the cell is empty |
| Grid.FindIndexOfDistinct | components/PuzzleBoard.js:162-163 | with distinct ids, looking up a tile's id finds that tile |
| Grid.SwapTiles | components/PuzzleBoard.js:160-176 | the swap fails exactly when one of the ids is missing; otherwise ids and correct cells are unchanged |
| Grid.SwapExchanges | components/PuzzleBoard.js:167-176 | a swap exchanges the current cells of the two tiles found, and every other tile stays as it was |
| Grid.SwapExactlyTwo | components/PuzzleBoard.js:167-176 | with distinct ids, swapping the tiles at i and j changes only their row and column, to each other's |
| Grid.SwapPreservesWellFormed | components/PuzzleBoard.js:160-176 | a swap keeps the current cells a permutation of the grid cells |
| Grid.SwapTwiceRestores | components/PuzzleBoard.js:160-176 | applying the same swap twice restores the tile list |
| Grid.IsSolved | components/PuzzleBoard.js:139-141 | every tile is in its correct cell exactly when the current cells are the correct cells, tile by tile |
| Grid.SolvedIffIdentity | components/PuzzleBoard.js:139-141 | on a well-formed list the completion test holds exactly when every tile occupies its own grid cell in order |
| Grid.SwapUnsolves | components/PuzzleBoard.js:139-141 | from a solved board, swapping two different tiles makes it unsolved |
| Scoring.FinalScoreIsScore | components/PuzzleBoard.js:146-149 | the `Math.max` final score equals the running score of `updateScore` for the same counters |
| Scoring.ScoreBounds | components/PuzzleBoard.js:124-128 | the score is never negative and never above 1000 |
| Scoring.ScoreShape | components/PuzzleBoard.js:124-128 | the score is 1000 − 10·moves − 2·seconds while that is positive, and 0 exactly when the penalties reach 1000 |
| Scoring.ScoreAntitone | components/PuzzleBoard.js:124-128 | more moves or more seconds never raise the score |
| Scoring.ScoreExamples | components/PuzzleBoard.js:24-26 | sample values of the formula with its constants 1000, 10 and 2 |
| Scoring.Score | components/PuzzleBoard.js:124-128 | `updateScore`: the score lies in [0, 1000], is 1000 − 10·moves − 2·seconds while positive, and 0 exactly when the penalties reach 1000 |
| Scoring.FinalScore | components/PuzzleBoard.js:146-149 | the `Math.max` final score equals `updateScore`'s clamped score for the same counters |
| DropTarget.AxisTarget | components/PuzzleBoard.js:265-270 | the target index is the cell whose pixel span holds the tile's centre |
| DropTarget.Centre2 | components/PuzzleBoard.js:265-266 | no contract of its own: twice the pixel coordinate of the dragged tile's centre; its meaning is stated by `DropTarget.AxisTarget` |
| DropTarget.AxisTargetUnique | components/PuzzleBoard.js:269-270 | that cell is the only one whose span holds the centre |
| DropTarget.SmallOffsetStays | components/PuzzleBoard.js:265-270 | an offset of less than half a tile maps back to the tile's own index |
| DropTarget.WholeTilesShift | components/PuzzleBoard.js:265-270 | an offset of k whole tiles moves the target by exactly k cells |
| DropTarget.Clamp | components/PuzzleBoard.js:273-274 | the clamped index lies in [0, N−1], equals the index inside that range, and is 0 or N−1 outside it |
| DropTarget.TargetCell | components/PuzzleBoard.js:265-274 | the clamped target cell is on the board |
| DropTarget.ZeroOffsetStays | components/PuzzleBoard.js:265-274 | a zero offset maps a tile on the board back to its own cell |
| DropTarget.Request | components/PuzzleBoard.js:252-287 | a swap is requested only with a tile that occupies the clamped target, which differs from the dragged tile's cell |
| DropTarget.RequestOnWellFormed | components/PuzzleBoard.js:276-287 | on a well-formed board a swap is requested if and only if the target differs from the tile's cell, and then with the one other tile occupying it |
| DropTarget.ZeroOffsetNoSwap | components/PuzzleBoard.js:276-287 | releasing without moving never requests a swap |
| Timer.Start | components/PuzzleBoard.js:51-58 | no contract of its own: after a new tile list the count restarts at 0, with an interval scheduled exactly when there are tiles; `Session.PuzzleBoard.CreateTiles` ensures it |
| Timer.Advance | components/PuzzleBoard.js:58-64 | a firing adds one second to a running clock; a cleared clock neither counts nor restarts |
| Timer.AfterSwap | components/PuzzleBoard.js:143 | as intended, a swap keeps the count, and the clock stops exactly when it was running and the swap records completion |
| Timer.AfterSwapAsWritten | components/PuzzleBoard.js:51-68 | as written, every committed swap leaves the clock as a fresh start: 0 seconds, interval scheduled |
| Timer.RunCountsTicks | components/PuzzleBoard.js:58-64 | a running clock counts every tick before the completing swap and none after it, and it is stopped exactly when such a swap happened |
| Timer.StoppedStaysStopped | components/PuzzleBoard.js:143 | once the interval is cleared, no later event changes the clock |
| Timer.AsWrittenForgetsTime | components/PuzzleBoard.js:51-68 | as written, a swap after three ticks resets seconds to 0, where the intended clock shows 3 |
| Timer.AsWrittenRunsAfterCompletion | components/PuzzleBoard.js:51-68 | as written, the clock is running again after the completing swap, where the intended clock is stopped |
| Session.PuzzleBoard.constructor | components/PuzzleBoard.js:71-73 | mounting builds a valid session by running `createTiles` |
| Session.PuzzleBoard.CreateTiles | components/PuzzleBoard.js:75-113 | N·N tiles in their grid order of correct cells, named after them, at the shuffled cells; counters at 0, score 1000, not completed, clock restarted |
| Session.PuzzleBoard.Tick | components/PuzzleBoard.js:58-64 | a running clock gains one second and the score is recomputed from the counters; nothing else changes |
| Session.PuzzleBoard.IncrementMove | components/PuzzleBoard.js:115-122 | one move more and the score recomputed; nothing else changes |
| Session.PuzzleBoard.CheckCompletion | components/PuzzleBoard.js:138-158 | completion is recorded only when all tiles are home and it was not recorded before; recording stops the timer and shows the dialog once with the final score |
| Session.PuzzleBoard.SwapTiles | components/PuzzleBoard.js:160-184 | with a missing id nothing changes; otherwise the tiles are swapped, one sound, exactly one move more, then the completion check, keeping the invariant |
| Session.PuzzleBoard.Release | components/PuzzleBoard.js:237-287 | a completed session ignores drags; otherwise the session swaps exactly when a swap is requested, with the rest of the state as for a swap |

## Left out

- Rendering: styles, the board and button layout, the image offset transform, `zIndex`, the
  `draggingId` highlight and the `Animated` spring-back. These are presentation.
- The snap sound is recorded only as the count `snaps`.
- The completion `Alert` and its 300 ms delay are recorded only as the log `alerts` of
  summaries shown.
- Real time: `setInterval`/`clearInterval` become the discrete `Tick` method and the
  `timerRunning` flag.
- React's state mirroring (the `useRef` copies of each counter) is left out. So are the
  order in which queued state updaters run and the side effects run inside the `setTiles`
  updater. The model applies each operation's effects in program order.
- The stale closure of the release handler is left out. `onStartShouldSetPanResponder` (line
  237) captures the first render's `puzzleCompleted`, so as written drags are still accepted
  after completion. The model refuses them, as intended. The same `useRef` (line 235) keeps
  the first render's `swapTiles`, so `checkCompletion`'s `!puzzleCompleted` test (line 142)
  reads a stale `false`: as written, swapping away and back after completion records
  completion again and shows a second alert. The model leaves that out as well and
  records completion once.
- Screen sizing is left out. `Dimensions`, `PUZZLE_SIZE` and a fractional `TILE_SIZE`
  (lines 30-31) become a positive integer tile size, and drag offsets are whole pixels.
- Shuffle.Pick: `r * (i + 1)` is exact real arithmetic, not IEEE double rounding.
- The shuffle's random source is modelled by its choices only. The probability that a
  shuffle yields a different arrangement is not modelled.
- The grid size is any natural number, not only the 3, 4 or 5 the app offers.
- The timer effect (lines 51-68) is modelled after `createTiles` (`Timer.Start`) and, as
  written, after a swap (`Timer.AfterSwapAsWritten`); the session uses the corrected
  `Timer.AfterSwap`. The effect's cleanup on unmount is not modelled.
- App.js is not part of this model: navigation, splash timing, the grid-size picker.
- components/PhotoPicker.js is not part of this model: the OS image picker.
- ios/PhotoPlayIOS/AppDelegate.swift is not part of this model: platform start-up.

## Findings

| source | as written | input that shows it | evidently intended | confidence | as-written member | corrected member |
|---|---|---|---|---|---|---|
| components/PuzzleBoard.js:51-68 | the timer effect depends on `[tiles]`, so each committed swap re-runs it: `seconds` goes back to 0 and a new interval is scheduled, also right after `checkCompletion` cleared the old one | three ticks, then a swap (seconds 3 becomes 0); a tick, a completing swap, then a tick (the clock runs again) | elapsed time accumulates over the session, and completion stops the clock for good | not executed | Timer.AfterSwapAsWritten (Timer.AsWrittenForgetsTime, Timer.AsWrittenRunsAfterCompletion) | Timer.AfterSwap (Timer.RunCountsTicks, used by Session.PuzzleBoard.SwapTiles) |
