# swapmatch3 in Dafny

A model of the game engine of `swapmatch3.js`, a browser match-three game on an 8x8 board, with
proofs about it. The board is one flat array of colours, indexed `y * W + x`. Colour 0 marks an empty
cell and colours 1..7 are tiles. A move swaps two adjacent tiles. `checkForMatch` looks for a row or
a column of three or more tiles of one colour through each of the two cells and queues what it finds
as `Match` records in `pendingMatches`. The swap is undone when the queue is still empty after both
scans. Otherwise `resolveMatchesCascade` does three things:
- it clears every queued match;
- it lets the tiles above each cleared span fall;
- it refills the empty cells at the top of those columns with random colours.

The model has six modules:

- `Grid` (grid.dfy): the constants, `idx`, `getCellColor` on a snapshot of the array,
  `areCellsAdjacent`, and what `swapCells` does to the array.
- `Matches` (matches.dfy): the `Match` record and the cells `Match.resolve` clears.
- `Detector` (detector.dfy): what `checkForMatch` finds around a cell, as a function. `Run` gives
  each direction's run and `Detect` gives the match built from the runs.
- `Generator` (generator.dfy): the fixed starting pattern that `createBoard` writes.
- `Gravity` (gravity.dfy): `resolveMatchesCascade` as a function on the array.
  - `ClearAll` clears the matches.
  - `DropFrom`/`DropSpan` and `Settle` are gravity.
  - `Refill`/`RefillSpan` refill the columns.
  - `Cascade` is the whole operation.
- `Engine` (engine.dfy): the game state as a class `Board`. Its field `colors: array<int>` is the
  colour array; `pendingMatches: seq<Match>` is the queue. Each method updates the array in place
  with the source's loops. Its contract ties the new state to the function in the other modules.
  `PlayOn`/`PlayMove` model the second click of `cellMouseUp`: swap, look for matches, then undo or
  cascade.

Two conventions run through the model:
- A `throw "Index out of bounds"` of the source becomes an `ok: bool` result of the method, or an
  `Outcome.Thrown` carrying the array as the throw leaves it.
- The random colours of the refill come from a parameter `random: nat -> int`. The k-th colour
  drawn in a cascade is `random(k)`. `InColors` states that every such colour is in 1..7, as
  `getRandomInt(1, 7)` promises.

The model states exactly what the source does when the refill of a column runs off the board. This
happens when the matches cleared a column of the span completely: reading below the last row gives
0, so the loop goes on and `setCellColor` throws. `CascadeThrowsOnClearedColumn` exhibits this with
two stacked vertical matches of four. `CascadeOneIff` shows that a single match on a full board throws
exactly when it is a full-height column. A cascade that throws never empties the queue, so its
matches stay queued: the next legal swap is kept even when it lines up nothing, and the old matches
are cascaded again (`PlayStaleQueue`). The comment above `resolveMatchesCascade` promises to check
for new matches afterwards, but the code does not rescan. The model follows the code, so a cascade
can leave matches on the board.

## Model

| member | source | states |
|---|---|---|
| Grid.Idx | swapmatch3.js:26-28 | the flat index of a board cell lies in 0..63 |
| Grid.IdxDecode | swapmatch3.js:26-28 | on the board the flat index determines the cell: `i % W` is x, `i / W` is y |
| Grid.ColorAt | swapmatch3.js:22-24 | `colors[idx] & 7` is in 0..7; it is the stored colour when that is in 0..7, and 0 off the array |
| Grid.AdjacentSymmetric | swapmatch3.js:41-45 | adjacency does not depend on the order of the two cells |
| Grid.AdjacentCells | swapmatch3.js:38-45 | on the board, two cells are adjacent iff they are grid neighbours or the last cell of a row and the first of the next |
| Grid.RowWrapAccepted | swapmatch3.js:38-45 | (7,0) and (0,1) count as adjacent although they are not grid neighbours, contrary to the comment |
| Grid.Swapped | swapmatch3.js:47-55 | the swap exchanges the two cells and leaves every other cell as it was |
| Grid.SwapSelfInverse | swapmatch3.js:130-132 | swapping the same two cells again restores the array: the undo of an illegal move |
| Grid.SwapPermutes | swapmatch3.js:47-55 | a swap keeps the multiset of colours |
| Grid.SwapKeepsBoard | swapmatch3.js:47-55 | a swap keeps every cell empty or a colour |
| Matches.CoversCross | swapmatch3.js:187-198 | a well-placed match clears exactly its row segment in row originY and its column segment in column originX, inside its span and above its lowest row |
| Matches.RowArm | swapmatch3.js:191-193 | the first loop of resolve clears a board cell iff it lies in row originY between the start and the end of the horizontal span |
| Matches.ColumnArm | swapmatch3.js:195-197 | the second loop of resolve clears a board cell iff it lies in column originX between the start of the vertical span and its lowest row |
| Matches.WellPlacedInRange | swapmatch3.js:187-198 | neither loop of resolve leaves the array for a match checkForMatch builds, so resolve does not throw |
| Matches.ClearIdempotent | swapmatch3.js:187-198 | resolving a match twice gives the array of resolving it once |
| Matches.ClearKeepsBoard | swapmatch3.js:187-198 | resolve only writes 0, and only into cells the match covers |
| Matches.CellsAreArms | swapmatch3.js:162-176 | the cells of a match are its horizontal and its vertical arm: a line, an L, a T or a cross |
| Matches.CrossFixture | test.js:35-38 | Match(1,1,-1,-1,3,3) covers (1,0), (0,1), (1,1), (2,1) and (1,2) |
| Matches.LFixture | test.js:39-42 | Match(0,2,0,-2,3,3) covers (0,0), (0,1), (0,2), (1,2) and (2,2) |
| Matches.RowOnlyCovers | swapmatch3.js:228-236 | a match whose vertical axis was reset covers its row segment only |
| Matches.ColumnOnlyCovers | swapmatch3.js:228-236 | a match whose horizontal axis was reset covers its column segment only |
| Matches.SameRunFixture | test.js:27-34 | the same run of three described from two origins clears the same cells, horizontally and vertically |
| Matches.SameRowRun | swapmatch3.js:187-193 | two row-only matches that start at the same cell with the same length clear the same cells, whatever their origin within the run |
| Matches.SameColumnRun | swapmatch3.js:187-197 | two column-only matches that start at the same cell with the same length clear the same cells, whatever their origin within the run |
| Matches.ClearAllAt | swapmatch3.js:256-258 | resolving all pending matches empties exactly the cells some match covers and keeps every other cell |
| Detector.RunIsMaximal | swapmatch3.js:205-226 | each direction loop counts cells of the origin's colour and stops at the edge or at the first other colour |
| Detector.RunAtLeast | swapmatch3.js:205-226 | n cells of the colour next to the origin make a run of at least n |
| Detector.RowRunIff | swapmatch3.js:217-236 | the horizontal length reaches 3 iff three horizontally consecutive cells through the origin share its colour |
| Detector.ColumnRunIff | swapmatch3.js:205-236 | the vertical length reaches 3 iff three vertically consecutive cells through the origin share its colour |
| Detector.DetectIff | swapmatch3.js:201-241 | checkForMatch pushes a match iff the origin's colour lines up three in a row or column through the origin |
| Detector.RowRunMaximal | swapmatch3.js:217-226 | left and right runs together are a maximal horizontal run of the origin's colour |
| Detector.ColumnRunMaximal | swapmatch3.js:205-215 | up and down runs together are a maximal vertical run of the origin's colour |
| Detector.DetectShape | swapmatch3.js:228-240 | the pushed match has the given origin; each axis is either reset to length 1 and offset 0 or is the maximal run through the origin, with a non-positive offset; the match is well placed |
| Detector.NoMatchOnDistinctNeighbours | swapmatch3.js:201-241 | on a board without equal neighbours checkForMatch finds nothing |
| Generator.InitialColorAt | swapmatch3.js:65-72 | the starting colour of (x, y) is `(x + y) % 7 + 1`, shifted by two on columns 0, 3 and 6 |
| Generator.InitialBoardFull | swapmatch3.js:65-72 | every starting cell holds a colour |
| Generator.InitialNeighboursDistinct | swapmatch3.js:58-72 | no two neighbouring starting cells share a colour |
| Generator.InitialBoardHasNoMatch | swapmatch3.js:58-72 | the starting board holds no match at any cell |
| Generator.InitialBoardHasMove | swapmatch3.js:58-72 | one adjacent swap on the starting board makes a row of three |
| Gravity.SettleSpec | swapmatch3.js:269-277 | settling a column keeps its tiles in order and its contents, and leaves no empty cell below a tile |
| Gravity.SettleUnique | swapmatch3.js:269-277 | a compacted column with the same tiles in the same order is the settled one |
| Gravity.SettleIdempotent | swapmatch3.js:269-277 | settling twice is settling once |
| Gravity.SwapThroughEmpties | swapmatch3.js:272-274 | swapping an empty cell with the nearest tile above it, over empty cells only, keeps the column's tiles and their order |
| Gravity.Above | swapmatch3.js:271-273 | the inner while stops at the first tile above the row, or at row 0, with only empty cells between |
| Gravity.DropSettles | swapmatch3.js:270-276 | the gravity pass over a column settles rows 0..startY of that column and changes nothing else |
| Gravity.DropSpanSettles | swapmatch3.js:269-277 | the gravity pass over a span settles every column of it and changes nothing outside |
| Gravity.FirstTile | swapmatch3.js:281 | the first row holding a tile, with every row above it empty |
| Gravity.RefillSpec | swapmatch3.js:280-284 | the refill writes the next colours drawn into the empty cells above the first tile; it succeeds iff the column holds a tile and otherwise throws |
| Gravity.FilledBoard | swapmatch3.js:280-284 | once the refill has written drawn colours into the empty cells above the first tile, the board is still a board, those cells hold colours and no other cell changed |
| Gravity.RefillSpanSpec | swapmatch3.js:279-285 | refilling a span succeeds iff every column of it holds a tile, and only fills empty cells of the span |
| Gravity.SettledColumnEmpty | swapmatch3.js:269-285 | after gravity, a column has no tile iff it had none before |
| Gravity.RefilledColumn | swapmatch3.js:269-285 | gravity plus refill leaves rows 0..startY full, and the surviving tiles at the bottom in their order |
| Gravity.RefilledNoEmpty | swapmatch3.js:269-285 | after gravity, a refill that only fills cells above the first tile leaves no empty cell from the top down to startY |
| Gravity.RefilledKeeps | swapmatch3.js:269-285 | after gravity and the refill, the column's surviving tiles sit at the bottom of rows 0..startY in their original order |
| Gravity.SpanThrowsIff | swapmatch3.js:279-285 | after gravity every column of the span holds a tile iff no column of the span was left without a tile by the clearing |
| Gravity.ResolveOneSpec | swapmatch3.js:261-285 | repairing one match throws iff a column of its span is empty; otherwise the span is full down to its lowest row, no cell became empty, and columns outside the span are untouched |
| Gravity.ResolveAllSpec | swapmatch3.js:260-286 | after the second loop every match's span is repaired and no cell became empty; columns outside every span are untouched |
| Gravity.CascadeSpec | swapmatch3.js:255-288 | a cascade that does not throw repairs every cleared match, creates no new empty cell and keeps a full board full; thrown or not, columns outside every span keep their colours |
| Gravity.ClearedOutsideSpans | swapmatch3.js:256-258 | resolving all pending matches leaves every column outside their horizontal spans as it was |
| Gravity.CascadeThrows | swapmatch3.js:279-285 | when clearing leaves a column of the first match's span without tiles, the cascade throws |
| Gravity.CascadeOneIff | swapmatch3.js:255-288 | on a full board a single match throws iff its vertical arm is as tall as the board |
| Gravity.ClearedColumnEmpty | swapmatch3.js:187-198 | clearing one match empties a whole column iff it is a full-height vertical match in that column |
| Gravity.CascadeThrowsOnClearedColumn | swapmatch3.js:255-288 | two stacked vertical matches of four in column 0 make any board's cascade throw |
| Engine.Board.constructor | swapmatch3.js:65-72 | a new game holds the starting board and nothing pending |
| Engine.Board.CreateBoard | swapmatch3.js:65-72 | a fresh array holding the starting pattern |
| Engine.Board.GetCellColor | swapmatch3.js:22-24 | the colour of a cell of the current array |
| Engine.Board.SetCellColor | swapmatch3.js:30-36 | fails iff the flat index is off the board; otherwise writes that one cell |
| Engine.Board.SwapCells | swapmatch3.js:47-55 | fails iff either index is off the board; otherwise the array is swapped |
| Engine.Board.Resolve | swapmatch3.js:187-198 | succeeds iff both segments lie in the array, then the array is cleared; it only ever zeroes covered cells |
| Engine.Board.ClearRowSegment | swapmatch3.js:191-193 | the first loop succeeds iff the row segment lies in the array, then it zeroes exactly that segment; it only ever zeroes row-segment cells |
| Engine.Board.ClearColumnSegment | swapmatch3.js:195-197 | the second loop succeeds iff the column segment lies in the array, then it zeroes exactly that segment; it only ever zeroes column-segment cells |
| Engine.Board.CheckForMatch | swapmatch3.js:201-241 | appends to the queue the match found at the origin, or nothing; the colours do not change |
| Engine.Board.ScanMatch | swapmatch3.js:201-236 | the match built from the four runs and the reset, or none |
| Engine.Board.CountRun | swapmatch3.js:205-226 | each direction loop counts the run in that direction |
| Engine.Board.DropColumn | swapmatch3.js:270-276 | the gravity pass over one column |
| Engine.Board.RefillTop | swapmatch3.js:280-284 | the refill of one column, with the number of colours drawn, or the throw |
| Engine.Board.ResolveMatchesCascade | swapmatch3.js:255-288 | the array becomes the cascade's board; the queue is emptied unless a refill throws |
| Engine.Board.ResolvePending | swapmatch3.js:256-258 | every pending match resolved in turn |
| Engine.Board.RepairSpan | swapmatch3.js:261-285 | gravity then refill over one match's span |
| Engine.Board.DropColumns | swapmatch3.js:269-277 | the gravity pass over each column of the span |
| Engine.Board.RefillColumns | swapmatch3.js:279-285 | the refill of each column of the span; a throw stops it |
| Engine.Board.PlayMove | swapmatch3.js:123-134 | the second click: refused, undone, resolved or aborted as PlayOn says, with the array and queue it leaves |
| Engine.PushedSpec | swapmatch3.js:228-240 | checkForMatch pushes a well-placed match with the given origin, and pushes iff there is a triple through the origin |
| Engine.FoundWellPlaced | swapmatch3.js:126-128 | every match queued by the two calls of checkForMatch is well placed |
| Engine.PlayOn | swapmatch3.js:123-134 | the result of a move on a snapshot of the array and the queue |
| Engine.PlayRejected | swapmatch3.js:123-124 | a move is refused, and changes nothing, iff the cells are neither grid neighbours nor a row wrap, or either is empty |
| Engine.PlayUndone | swapmatch3.js:130-132 | an undone move restores the array, and it only happens with nothing queued |
| Engine.PlayStaleQueue | swapmatch3.js:126-134 | with a match still queued, a legal swap is never undone: it is cascaded or aborted |
| Engine.PlayAborted | swapmatch3.js:133-134 | an aborted move leaves a board of colours and the queue non-empty: the old matches followed by those just found |
| Engine.PlayKeepsBoard | swapmatch3.js:123-134 | every outcome of a move leaves each cell empty or a colour |
| Engine.PlayUndoneIff | swapmatch3.js:126-132 | with nothing queued, a legal swap is undone iff neither cell is then in a line of three |
| Engine.PlayResolved | swapmatch3.js:133-134 | a resolved move empties the queue, repairs every span found, creates no empty cell and keeps a full board full |
| Engine.PlayAbortsIff | swapmatch3.js:133-134 | on a full board, a move that finds one match aborts iff the match is a full-height column, and resolves otherwise |
| Engine.FirstMoveResolves | swapmatch3.js:58-72 | moving (1,1) onto (1,0) on the starting board resolves and leaves a full board with nothing queued |

## Left out

- Rendering, the DOM, mouse events, the selection state of `cellMouseUp` (lines 113-122 and 155-160), `renderBoard` and `init`: user interface, not game logic.
- The debug block of `cellMouseUp` (lines 135-151): it only logs to the console.
- `getRandomInt`: the colours come from the parameter `random`, indexed by the number of colours drawn in the cascade. Its range 1..7 is the assumption `InColors`.
- `createBoard`'s `rows` and `columns` parameters: the source ignores them.
- test.js helpers (`testEq`, `test`, the board fixtures that write `_colors`, `hasSameCellsAs`, `isSupersetOf`, `toStr`): they call members that are not part of this model. The two shape fixtures and the same-cells fixture are restated as lemmas.
- Engine.Board.CheckForMatch: requires the origin to be on the board. Every caller passes a cell of the board, and off-board origins read the array out of range.
- Engine.Board.ScanMatch: requires the origin to be on the board, for the same reason.
- Engine.Board.CountRun: one loop parametrised by direction stands for the four `while` loops of `checkForMatch`.
- Engine.Board.Resolve: states the array after a throw only as "covered cells zeroed, nothing else changed", not which prefix of the segments was written.
- Engine.Board.PlayMove: requires both cells on the board, as the cell ids of the page guarantee.
- Engine.Board.ResolvePending, Engine.Board.RepairSpan, Engine.Board.DropColumns, Engine.Board.RefillColumns, Engine.Board.ClearRowSegment and Engine.Board.ClearColumnSegment: the source writes these loops inline; here they are separate methods.
- Engine.Board.CreateBoard: allocates a new array, as `new Array(size)` does, so an alias to the old array keeps the old colours.
- A thrown exception ends `cellMouseUp` before it resets the selection; the model only records that the move was aborted and which array and queue it left.
