# 2048 grid engine

This project models the grid engine of a browser 2048 game: the `Game2048`
class in `js/app.js`. It covers:

- the 4 x 4 board of 16 cells in row-major order, where 0 is an empty cell;
- the score, the sticky `won` flag, the `gameOver` flag and the best score;
- the undo history of at most 10 snapshots;
- the counter of board-changing moves that schedules an interstitial.

It also covers the operations that change these fields:
- `init`;
- `saveHistory` and `undo`;
- `move` and the four directional moves, built on `getLine`, `setLine` and `mergeLine`;
- `addNewTile`, `checkGameStatus` and `canMove`;
- the comparison in `updateBestScore`;
- the input handlers `handleKeyboard` and `handleSwipe`, which turn a key or a swipe into a move.

Modules:

- `Lines` (lines.dfy): what `mergeLine` does to one line, as functions:
  - `Compress` is the `filter` of the empty cells.
  - `MergePass` is the single left-to-right merge pass, in which a merged cell never merges again.
  - `Gain` is what the pass adds to the score.
  - `Merged` is the whole transform, padding included.
  - `SlideLine` adds the reversals of the right and down moves.
- `Grid` (grid.dfy): the lines of the board (`LineOf` for `getLine`, `WriteLine` for `setLine`), what a move in each direction does to the whole board (`Slide`, `SlideGain`), and the `canMove` test (`CanMoveOn`).
- `Spawn` (spawn.dfy): `addNewTile` as functions:
  - `EmptyCells` finds the empty cells.
  - `Place` places the new tile.
  - `Tier` gives the chance of a 2 as a whole percentage.
  - `TileValue` gives the tile's value.
- `Input` (input.dfy): the classification of arrow keys and swipes.
- `Engine` (engine.dfy): the class `Game`. Its fields are the engine's fields and its methods are the engine's methods, with their loops:
  - the row and column loops of the moves;
  - the `getLine` and `setLine` loops;
  - the splice loop and the padding loop of `mergeLine`;
  - the nested loops of `canMove`.

  Each method is proved against the functions of the other modules. `Valid()` is the invariant every operation keeps:
  - 16 cells;
  - every cell empty or a power of two from 2 up;
  - a score that is not negative;
  - at most 10 snapshots, each of a valid board;
  - an interstitial counter below 3.

The game's two `Math.random()` calls are parameters of the operations that spawn a tile:
- `pick` chooses one of the empty cells. It is taken modulo their number, so every empty cell can be chosen.
- `roll` is a percentile draw from 0 to 99. It gives a 2 when it is below the chance for the current move.

Four behaviours of `js/app.js` are easy to miss. The model keeps them as
the code has them:

- **`move` never reads `gameOver`** (js/app.js:182-218). Only the input
  handlers return early on a finished game (js/app.js:125, js/app.js:143).
- **A no-op move can shorten a full history.** `move` first calls
  `saveHistory`, which pushes a snapshot and then drops the oldest entry
  once there are more than 10 (js/app.js:160-170). A move that leaves the
  board unchanged pops only the new snapshot (js/app.js:203-205). So when
  the history already held 10 entries, its oldest entry is lost
  (`Engine.Game.Move`, `Engine.UndoAfterMove`, `Engine.PushThenPop`).
- **The spawn chance counts the current move.** `addNewTile` reads
  `history.length` (js/app.js:311) after `move` has called `saveHistory`
  (js/app.js:183).
- **The 85 percent branch is dead.** The comment at js/app.js:307-310
  promises an 85 percent chance of a 2 from the eleventh move on. The tier
  reads the history length, which the cap at js/app.js:167-169 keeps at 10
  or less, so the branch at js/app.js:315 is never taken
  (`Spawn.TierWithinHistoryLimit`). The model keeps the code's tiers.

## Model

| member | source | states |
|---|---|---|
| Lines.Compress | js/app.js:280 | The filtered line is no longer than the line. Which cells it keeps, and in what order, is stated by `Lines.CompressAppend` and `Lines.CompressMultiset` |
| Lines.CompressAppend | js/app.js:280 | Filtering distributes over concatenation: what is kept of a + b is what is kept of a, followed by what is kept of b. With `Lines.CompressMultiset` on one-cell lines, this makes the filter keep the non-empty cells as they are and in order |
| Lines.CompressMultiset | js/app.js:280 | The filter keeps every non-empty value as many times as it occurs, and no empty cell |
| Lines.CompressKeeps | js/app.js:280 | Filtering leaves no empty cell and keeps the sum of the values. A line without empty cells is returned as it is. Board values stay board values |
| Lines.MergePass | js/app.js:283-289 | The merge pass never lengthens the line and at most halves it: the input is no longer than twice the output |
| Lines.MergePassSum | js/app.js:283-289 | The merge pass keeps the sum of the line |
| Lines.MergePassNoZeros | js/app.js:283-289 | On a line without empty cells the merge pass creates no empty cell |
| Lines.MergePassTiles | js/app.js:283-289 | On board values the merge pass yields board values |
| Lines.MergePassKeeps | js/app.js:283-289 | The merge pass keeps the sum of the line. It creates no empty cell. Board values stay board values |
| Lines.GainNonNegative | js/app.js:284-287 | On non-negative values, the score a merge pass adds is not negative |
| Lines.PassWithoutPairs | js/app.js:283-289 | Without equal neighbours the pass changes nothing and adds nothing to the score |
| Lines.PassWithPair | js/app.js:283-289 | With a pair of equal neighbours the pass merges at least once, so the line gets shorter |
| Lines.PassUnchangedIff | js/app.js:283-289 | The pass returns its input exactly when no two neighbours are equal. When it returns its input, it adds nothing to the score |
| Lines.Merged | js/app.js:278-297 | A line of at most the board's size comes back with exactly 4 cells |
| Lines.MergedShape | js/app.js:279-294 | The `mergeLine` result has length 4. Its non-empty cells are the merged compressed line in order, and they all come before the empty cells. The sum of the values is that of the input |
| Lines.MergedUnchangedIff | js/app.js:278-297 | `mergeLine` returns its input exactly when the line is packed to the front and has no two equal neighbours |
| Lines.MergedUnchangedNoGain | js/app.js:284-287 | A line that `mergeLine` returns unchanged adds nothing to the score |
| Lines.Reverse | js/app.js:230-231 | The reversal has the same length, and cell k holds the input's cell from the other end |
| Lines.ReverseReverse | js/app.js:230-231 | Reversing twice gives the line back, so right and down write their merged line back in board order |
| Lines.ReverseKeepsNoPairs | js/app.js:228-233 | Reversal keeps a line free of empty cells and of equal neighbours |
| Lines.SlideLine | js/app.js:228-233 | A line of 4 cells comes back with 4 cells, in both the plain and the reversed direction |
| Lines.SlideLineUnchangedNoGain | js/app.js:228-233 | A line that a move leaves unchanged adds nothing to the score, in either direction |
| Lines.StuckLine | js/app.js:278-297 | A full line without equal neighbours is left unchanged by a move in either direction |
| Lines.FullLineWithPairChanges | js/app.js:283-289 | A full line with a pair of equal neighbours is changed by `mergeLine` |
| Lines.SlideLineKeepsTiles | js/app.js:278-297 | A line of board values (0 or a power of two from 2 up) stays a line of board values |
| Lines.MergeExampleThree | js/app.js:283-289 | [2,2,2,0] becomes [4,2,0,0] because a merged cell does not merge again. Moving right gives [0,0,2,4] |
| Lines.MergeExampleFour | js/app.js:283-289 | [2,2,2,2] becomes [4,4,0,0] |
| Lines.MergeExampleScore | js/app.js:283-289 | [4,4,8,8] becomes [8,16,0,0] and adds 24 to the score |
| Grid.LineIndex | js/app.js:252-264 | Every cell lies on one of the 4 rows or columns |
| Grid.PositionOf | js/app.js:252-264 | Every cell has a position 0 to 3 along its row or column |
| Grid.CellOf | js/app.js:252-276 | The cell `index * 4 + k` (row) or `k * 4 + index` (column) is on the board, lies on line `index` and sits at position k |
| Grid.CellCoordinates | js/app.js:252-276 | Each cell is the cell at its own position on its own line, so `getLine`/`setLine` reach every cell |
| Grid.ReadAfterWrite | js/app.js:252-276 | Reading a line after `setLine` gives the written line if it is the same one, and the old line otherwise |
| Grid.WriteLineFrame | js/app.js:266-276 | `setLine` leaves every cell off its own row or column unchanged |
| Grid.WriteBackUnchanged | js/app.js:252-276 | `setLine(i, getLine(i, d), d)` leaves the board unchanged |
| Grid.LinesDetermineBoard | js/app.js:252-264 | Two boards with the same rows (or the same columns) are the same board |
| Grid.SlideLines | js/app.js:220-250 | The board part way through a move is still a board of 16 cells |
| Grid.SlideLinesUntouched | js/app.js:220-250 | A line the move's loop has not yet reached is as it was |
| Grid.SlideLinesDone | js/app.js:220-250 | A line the move's loop has passed holds the transformed line |
| Grid.SlideLinesStep | js/app.js:220-250 | One iteration of a move's loop advances the board by exactly one line |
| Grid.Slide | js/app.js:187-200 | A move maps a board of 16 cells to a board of 16 cells |
| Grid.SlideByLines | js/app.js:220-250 | Every row (left, right) or column (up, down) of the moved board is the line transform of the same line before the move. Right and down merge between two reversals |
| Grid.UnchangedSlideEarnsNothing | js/app.js:202-206 | A move that leaves the board unchanged adds nothing to the score, although the code adds merge gains before comparing |
| Grid.LineGainNonNegative | js/app.js:284-287 | On board values, one line of a move never lowers the score |
| Grid.LineOfKeepsTiles | js/app.js:252-264 | The lines read from a board of board values hold board values |
| Grid.SlideLinesGainNonNegative | js/app.js:220-250 | On board values, the lines of a move never lower the score |
| Grid.SlideKeepsTiles | js/app.js:220-250 | A move maps a board of board values to a board of board values |
| Grid.StuckBoardIsFixed | js/app.js:335-353 | When `canMove` is false, no direction changes the board |
| Grid.FullMovableBoardHasMove | js/app.js:335-353 | On a full board where `canMove` is true, moving left or moving up changes the board |
| Spawn.EmptyCells | js/app.js:300-302 | Every index listed is a cell of the board |
| Spawn.EmptyCellsAreEmpty | js/app.js:300-302 | Every listed cell is empty |
| Spawn.EmptyCellsCoverEmpty | js/app.js:300-302 | Every empty cell is listed |
| Spawn.EmptyCellsIncreasing | js/app.js:300-302 | The cells are listed in increasing order, each once |
| Spawn.EmptyCellsExist | js/app.js:300-304 | There is an empty cell to choose from exactly when some cell is 0 |
| Spawn.Place | js/app.js:304-317 | Spawning keeps the board's size |
| Spawn.PlaceWritesOnlyValue | js/app.js:317 | Every cell after spawning is as before or holds the new value |
| Spawn.PlaceFillsOneEmptyCell | js/app.js:304-317 | On a full board nothing changes. Otherwise exactly one cell, which was empty, now holds the new value, and every other cell is unchanged |
| Spawn.EveryEmptyCellCanBePicked | js/app.js:306 | Every empty cell can receive the new tile: some draw selects it |
| Spawn.PlaceAddsOneTile | js/app.js:304-317 | Spawning on a board with an empty cell adds exactly one non-empty cell |
| Spawn.TileValueIsTwoOrFour | js/app.js:312-317 | A spawned tile is a 2 or a 4 |
| Spawn.TierIsChanceOfTwo | js/app.js:311-317 | Of the 100 equally likely draws, exactly 95, 90 or 85 (by history length) give a 2 |
| Spawn.TierWithinHistoryLimit | js/app.js:311-315 | With a history of at most 10 entries the chance is 95 percent up to 3 entries and 90 percent beyond; 85 percent is never used |
| Spawn.InitialBoardHasTwoTiles | js/app.js:28-35 | A new board holds exactly two tiles, each a 2 or a 4, and empty cells elsewhere |
| Input.SwipeDirection | js/app.js:145-157 | A swipe moves exactly when it travels more than 30 along an axis. It moves horizontally exactly when the horizontal distance is strictly the larger, so a tie goes vertical. Right, left, down and up go with the sign of the distance |
| Input.KeyDirection | js/app.js:127-139 | A key moves exactly when it is one of the four arrow keys |
| Engine.CountAfterIsModulo | js/app.js:212-217 | After k board-changing moves the counter is k modulo 3, so an interstitial falls due on exactly every third such move |
| Engine.PushThenPop | js/app.js:160-170 | Pushing keeps at most 10 snapshots with the new one last. Popping it gives back the earlier history, minus its oldest entry if the history was full |
| Engine.MergePassAtPair | js/app.js:284-288 | At an equal pair, the pass produces one doubled cell and earns its value |
| Engine.MergeStepPair | js/app.js:284-288 | Doubling a cell and splicing out its partner, as `mergeLine` does in place, moves the merge pass on by one cell and earns the doubled value |
| Engine.MergeStepSkip | js/app.js:283-289 | Passing an unequal pair moves the merge pass on by one cell and earns nothing |
| Engine.MergeDone | js/app.js:283 | When the loop index reaches the last cell the line is fully merged |
| Engine.Game.constructor | js/app.js:2-26 | A new engine starts a game with the best score it is given and holds the invariant |
| Engine.Game.Init | js/app.js:28-37 | The board is two spawns on an empty board. The score is 0, both flags are down and the history is empty. The best score and the interstitial counter are kept |
| Engine.Game.SaveHistory | js/app.js:160-170 | The history gains the current board and score as its last entry and never exceeds 10 entries. Nothing else changes |
| Engine.Game.Undo | js/app.js:172-180 | With an empty history nothing changes. Otherwise the latest snapshot is popped and its board and score restored exactly, and `gameOver` is cleared. `won`, the best score and the counter are left untouched |
| Engine.Game.Move | js/app.js:182-218 | A move keeps the invariant and never lowers the score. If the move leaves the board unchanged, the board, score, flags, best score and counter are unchanged, and the history is as before except that a full history loses its oldest entry. If the board changes, it is the moved board plus one spawned tile, the score grows by the move's merge gains, and the snapshot is recorded. `won` rises exactly when a 2048 is present. `gameOver` rises exactly when no move is possible, and then the best score becomes the larger of the two. The counter advances modulo 3 |
| Engine.Game.FinishMove | js/app.js:208-217 | After a board change: one tile is spawned, the status is checked and the counter advances |
| Engine.Game.Shift | js/app.js:187-200 | The board becomes the moved board and the score grows by its gains, never going down. A move that changes nothing earns nothing |
| Engine.Game.MoveLines | js/app.js:220-250 | The row or column loop transforms every line and adds every line's gain to the score |
| Engine.Game.GetLine | js/app.js:252-264 | The loop reads exactly the cells of row or column `index`, in order |
| Engine.Game.SetLine | js/app.js:266-276 | The loop writes the line into row or column `index` and changes no other cell |
| Engine.Game.MergeLine | js/app.js:278-297 | The splice loop and the padding loop return the functional `mergeLine` result, and the score grows by the merge pass's gain |
| Engine.Game.AddNewTile | js/app.js:299-318 | The board becomes the spawn of a tile of the current tier's value, from the history length, in the picked empty cell. A full board is left as it is |
| Engine.Game.CheckGameStatus | js/app.js:320-333 | `won` rises exactly when a 2048 is present and stays up. `gameOver` rises exactly when no move is possible, and then the best score becomes the larger of the two |
| Engine.Game.CanMove | js/app.js:335-353 | The nested loops answer true exactly when some cell is empty or equals its in-bounds right or lower neighbour |
| Engine.Game.UpdateBestScore | js/app.js:513-515 | The best score becomes the larger of the best score and the score |
| Engine.Game.HandleKeyboard | js/app.js:124-140 | When the game is over, or the key is not an arrow, nothing changes. In every case the invariant holds and the score does not go down |
| Engine.Game.HandleSwipe | js/app.js:142-158 | When the game is over, or the swipe is too short, nothing changes. In every case the invariant holds and the score does not go down |
| Engine.UndoAfterMove | js/app.js:172-206 | Undo right after a board-changing move restores the board and the score and makes the game playable. The history is as before, except that a full history has lost its oldest entry |

## Left out

- Rendering and the rest of the page are presentation only and not part of this model: the grid and statistics painting, the win and game-over overlays, the confetti animation, the app links, the event-listener wiring with `preventDefault` and the touch bookkeeping.
- The interstitial advertisement and the analytics calls are foreign calls and timers. Only the every-third-move counter is kept.
- `js/i18n.js` (locale loading and text lookup) is not part of this model.
- Browser storage is I/O and is not modelled:
  - `loadBestScore` is replaced by the `savedBest` parameter of the constructor.
  - The storage write in `updateBestScore` is dropped; only the comparison is kept.
- `Math.random()` is modelled by the parameters `pick` and `roll`. The chance of a 2 is a whole percentage against a percentile draw, not a floating-point comparison.
- Swipe coordinates are modelled as integers rather than floating-point numbers.
- The board is 4 x 4. `gridSize` is not a parameter.
- The board is a sequence field that `setLine` and `addNewTile` reassign cell by cell.
  - The aliasing of the restored board array with the popped snapshot in `undo` is not modelled. The snapshot is no longer reachable from the history once it is popped.
- `move` with a direction outside the four is not modelled. No caller passes one, and the `switch` would then leave the board unchanged.
- Engine.Game.HandleKeyboard: when an arrow key moves, the contract states only the invariant and a score that does not go down, rather than repeating the whole contract of `Engine.Game.Move` that it calls.
- Engine.Game.HandleSwipe: when a swipe moves, the contract states only the invariant and a score that does not go down, rather than repeating the whole contract of `Engine.Game.Move` that it calls.
- `newGame` calls `init` and nothing else, so it is covered by `Engine.Game.Init`.
