# 7not7 — a verified model of the game engine

7not7 is a board game. A square board holds coloured blocks (colours 1 to 5, 0 for an empty
cell). On each turn the player moves one block along a path of empty cells to an empty cell.
Four or more blocks of one colour in a row, column or diagonal through the moved block are
cleared and scored. If no line is cleared, the queued colours drop onto random empty cells.
Forty cleared lines advance the level, and a higher level queues more colours per step.
A player can undo a move a limited number of times, and earns "free moves" that may jump over
blocks.

The model has four files:

- `geometry.dfy`: positions, the board as a value (`Grid`, rows of cells) and the `Option` type.
- `pathfinder.dfy` (module `PathFinding`): class `PathFinder` of `PathFinder.java`.
  - The vertex list becomes a `seq<Vertex>` with predecessor links as indices.
  - The open list becomes a sequence of indices.
  - `calculateCosts` is a loop of imperative methods that settle the nearest open vertex and
    relax its four neighbours.
  - The methods are proved against a specification of walks over empty cells (`IsWalk`,
    `Reachable`, `IsShortestWalk`). The search ends with a `Settled` table, which answers
    reachability exactly and gives shortest paths.
- `runs.dfy` (module `Runs`): the line rule of `checkRemoveBlocks` as functions of a board:
  - run lengths in the eight directions (`Matches`) and the pair rule;
  - the cells cleared (`Cleared`) and the score a clear earns (`ScoreGain`);
  - lemmas on the cleared cells: how many there are, that they have the block's colour, and
    how they change the filled-cell count.
- `game.dfy` (module `GameEngine`): class `Game` of `Game.java`.
  - The board is an `array2<int>` updated in place. A ghost field `board` mirrors it as a value
    (`Mirror`).
  - The undo snapshots are `State` values. The counters are fields.
  - Every public operation and the private steps (`saveStep`, `nextStep`, `checkRemoveBlocks`,
    `populateField`) is a method with a `modifies` frame.
  - Each method states its new state in terms of the functions of `Runs` and `PathFinding`.

Behaviour of the source that the model keeps as written:

- `doUndo` restores the board, queue, score, lines left and level, but not `freeBlocks` or
  `freeMoves`.
- `doFreeMove` checks neither that `dst` is empty nor that `dst != src`. A block at `dst` is
  overwritten (`FreeMoveOverwrites`), and `dst == src` empties the cell (`FreeMoveInPlace`).
  After such a move the board's filled cells and `freeBlocks` no longer add up to
  `size * size`. `DoFreeMove` promises that sum (`Consistent`) only for a move to a different,
  empty cell.
- `Game.lastSrc` is never set, so every path query runs a fresh search on the current board.
- `checkRemoveBlocks` at an empty cell counts runs of empty cells. The model defines the clear
  for any cell, so that case is the same as in the source.

## Model

| member | source | states |
|---|---|---|
| PathFinding.FindNearestVertex | src/ch/bfh/sevennotseven/PathFinder.java:240-251 | the chosen open vertex is no farther than any other open vertex, and every earlier entry is strictly farther (the strict `<` keeps the first minimum) |
| PathFinding.FindVertex | src/ch/bfh/sevennotseven/PathFinder.java:261-280 | returns the first entry of the list standing at `p`, or None exactly when no entry stands there |
| PathFinding.OffsetIndex | src/ch/bfh/sevennotseven/PathFinder.java:133-138 | a cell is one of the four offsets of `p` exactly when it is adjacent to `p`, and the index names that offset |
| PathFinding.BuildVertices | src/ch/bfh/sevennotseven/PathFinder.java:110-123 | the vertex list is the source at distance 0 with no predecessor, then every empty cell other than the source exactly once, in row-major order, each unreached and without predecessor |
| PathFinding.Relax | src/ch/bfh/sevennotseven/PathFinder.java:125-157 | the search loop ends with the same positions and a settled table: the source at 0, a predecessor exactly for reached vertices, each link one hop from an adjacent vertex, and no edge that could shorten a distance |
| PathFinding.SettleNearest | src/ch/bfh/sevennotseven/PathFinder.java:126-131 | one turn removes the nearest open vertex and keeps the loop invariants: links point at settled vertices, no edge out of a settled vertex can shorten a distance, settled vertices are no farther than open ones, and the open list shrinks |
| PathFinding.SettleReached | src/ch/bfh/sevennotseven/PathFinder.java:133-156 | relaxing a reached vertex just settled re-establishes both orders of the loop with it included |
| PathFinding.NearestOpen | src/ch/bfh/sevennotseven/PathFinder.java:126-127 | the vertex taken out is no farther than any unsettled vertex and no nearer than any settled one |
| PathFinding.SettleUnreached | src/ch/bfh/sevennotseven/PathFinder.java:129-131 | skipping an unreached vertex (the `continue`) keeps both orders |
| PathFinding.RemoveOpen | src/ch/bfh/sevennotseven/PathFinder.java:127 | removing entry `k` leaves an open list of exactly the unsettled vertices, each once |
| PathFinding.RelaxNeighbours | src/ch/bfh/sevennotseven/PathFinder.java:140-156 | after the four offsets every neighbour of `u` is at most one hop farther than `u`, settled vertices are unchanged, no distance grew, unsettled vertices stay no nearer than `u`, and every vertex that changed is a 4-neighbour of `u` now linked to `u` |
| PathFinding.RelaxOffset | src/ch/bfh/sevennotseven/PathFinder.java:141-145 | the `i`-th turn extends that guarantee to the first `i + 1` offsets, skipping an offset off the board |
| PathFinding.SkipOffBoard | src/ch/bfh/sevennotseven/PathFinder.java:145 | an offset off the board has no vertex, so skipping it keeps the guarantee |
| PathFinding.RelaxInside | src/ch/bfh/sevennotseven/PathFinder.java:147-155 | the relaxation at an on-board offset extends the guarantee to that offset |
| PathFinding.RelaxTowards | src/ch/bfh/sevennotseven/PathFinder.java:147-155 | distanz_update: a vertex that changes is the open vertex at `q`, now one hop past `u` with `u` as its predecessor; the open vertex at `q` changes exactly when going through `u` is shorter; afterwards the vertex at `q` is within one hop of `u` and links stay sound |
| PathFinding.RelaxOpen | src/ch/bfh/sevennotseven/PathFinder.java:149-155 | for the open vertex `v` next to `u`: no vertex but `v` changes, and `v` changes exactly when going through `u` is shorter, to one hop past `u` with `u` as its predecessor; afterwards `v` is within one hop of `u`, no distance grew, and every link stays sound |
| PathFinding.LinkPreserved | src/ch/bfh/sevennotseven/PathFinder.java:152-153 | setting `v`'s distance and predecessor to `u` keeps every link sound and pointing at a settled vertex |
| PathFinding.WalkBound | src/ch/bfh/sevennotseven/PathFinder.java:125-157 | no walk from the source to a vertex's cell is shorter than the distance the search assigned it |
| PathFinding.ChainWalk | src/ch/bfh/sevennotseven/PathFinder.java:182-185 | following predecessor links back from a reached vertex spells out a walk of exactly its distance |
| PathFinding.ReachableIffFinite | src/ch/bfh/sevennotseven/PathFinder.java:129 | a vertex was reached (finite distance) exactly when some walk over empty cells leads to it |
| PathFinding.ReachableHasVertex | src/ch/bfh/sevennotseven/PathFinder.java:115-121 | every reachable cell has a vertex in the table |
| PathFinding.PathFinder.CalculateCosts | src/ch/bfh/sevennotseven/PathFinder.java:109-164 | afterwards the stored table is settled for `src` over the stored board, and the cache fields hold `src`, the board and the size |
| PathFinding.PathFinder.GetPath | src/ch/bfh/sevennotseven/PathFinder.java:173-190 | None before any search; otherwise Some exactly when `dst` is reachable, and then a shortest walk from the source ending at `dst` whose length matches `dst`'s distance |
| PathFinding.PathFinder.TraceBack | src/ch/bfh/sevennotseven/PathFinder.java:182-185 | the loop stops at a vertex without predecessor and has built a walk of adjacent vertex cells whose length accounts for the distance of `dst` |
| PathFinding.PathFinder.GetReachablePoints | src/ch/bfh/sevennotseven/PathFinder.java:196-211 | None before any search; otherwise exactly the empty cells other than the source that the search reached, in row-major order |
| PathFinding.PathFinder.GetUnreachablePoints | src/ch/bfh/sevennotseven/PathFinder.java:217-231 | None before any search; otherwise exactly the empty cells other than the source that the search did not reach, in row-major order |
| Runs.RunFromIsRun | src/ch/bfh/sevennotseven/Game.java:412-423 | every cell the run counts is on the board and has the run's colour |
| Runs.RunFromStops | src/ch/bfh/sevennotseven/Game.java:416-419 | the cell just past the run is off the board or of another colour |
| Runs.RayIsMaximalRun | src/ch/bfh/sevennotseven/Game.java:407-426 | `matches[i]` is the length of the unbroken run of the block's colour towards direction `i`; it stops at the edge or the first other colour and is shorter than the board |
| Runs.MatchesInside | src/ch/bfh/sevennotseven/Game.java:440-442 | every cell the removal loop steps onto is on the board |
| Runs.PairRule | src/ch/bfh/sevennotseven/Game.java:433-434 | the pair test `1 + matches[2i] + matches[2i+1] >= 4` holds exactly when four consecutive on-board cells of the centre's colour, the centre among them, lie on the pair's axis |
| Runs.LineFromRuns | src/ch/bfh/sevennotseven/Game.java:433-434 | two opposite runs adding up to at least three further cells hold a line of four through the centre |
| Runs.RunsFromLine | src/ch/bfh/sevennotseven/Game.java:407-434 | a line of four through the centre makes the two opposite runs add up to at least three |
| Runs.RunAtLeast | src/ch/bfh/sevennotseven/Game.java:412-423 | the run walk counts at least as many cells as there are consecutive cells of its colour ahead |
| Runs.NoMatchKeepsNothing | src/ch/bfh/sevennotseven/Game.java:446-449 | without a line every count is reset to 0, so nothing is summed or freed |
| Runs.NoMatchNoChange | src/ch/bfh/sevennotseven/Game.java:452-471 | without a line the board is unchanged |
| Runs.RaySetSize | src/ch/bfh/sevennotseven/Game.java:440-443 | a run of `m` steps visits `m` different cells |
| Runs.RunsAroundCentre | src/ch/bfh/sevennotseven/Game.java:436-454 | the kept runs never meet each other or the centre, so together they hold exactly their summed length, plus one with the centre |
| Runs.ClearedCellsMembers | src/ch/bfh/sevennotseven/Game.java:436-453 | the cleared cells are exactly the centre (when a line was found) and the cells of the kept runs |
| Runs.ClearedCellsCount | src/ch/bfh/sevennotseven/Game.java:440-454 | the number of cleared cells equals the number of `freeBlocks++` the clear executes |
| Runs.ClearedCellsHaveColour | src/ch/bfh/sevennotseven/Game.java:404-442 | every cleared cell has the colour of the block at the centre |
| Runs.OccupiedAfterClear | src/ch/bfh/sevennotseven/Game.java:442-453 | the filled cells after a clear are the filled cells before it minus the cleared cells |
| Runs.ClearFreesCells | src/ch/bfh/sevennotseven/Game.java:440-454 | when the centre holds a block, the filled cells drop by exactly the count credited to `freeBlocks` |
| GameEngine.BlocksToAdd | src/ch/bfh/sevennotseven/Game.java:494-499 | levels 1, 2 and 3 queue 3, 4 and 5 colours; later levels queue 5 |
| GameEngine.AfterClear | src/ch/bfh/sevennotseven/Game.java:369-375 | one line fewer to go; at zero the level and the undos go up by one and 40 lines are set again; lines left stays in 1..40 |
| GameEngine.ClearsCountDown | src/ch/bfh/sevennotseven/Game.java:369-375 | fewer clears than the lines left only count down |
| GameEngine.ClearsReachNextLevel | src/ch/bfh/sevennotseven/Game.java:369-375 | clearing exactly the lines left reaches the next level with one more undo and 40 lines to go |
| GameEngine.ClearsSplit | src/ch/bfh/sevennotseven/Game.java:369-375 | `a + b` clears in a row act as `a` clears followed by `b` clears |
| GameEngine.FreeCellExists | src/ch/bfh/sevennotseven/Game.java:482-487 | while fewer than `size * size` cells are filled, some cell is empty for the random draw to find |
| GameEngine.AloneNoMatch | src/ch/bfh/sevennotseven/Game.java:419 | a block whose colour appears nowhere else has runs of length 0 and makes no line |
| GameEngine.ClearedKeepsColours | src/ch/bfh/sevennotseven/Game.java:442-453 | a clear only writes 0, so cells keep holding 0 or a colour |
| GameEngine.PutFills | src/ch/bfh/sevennotseven/Game.java:488 | writing a colour into an empty cell adds exactly that cell to the filled ones |
| GameEngine.PutEmpties | src/ch/bfh/sevennotseven/Game.java:228 | emptying a filled cell removes exactly that cell from the filled ones |
| GameEngine.MoveKeepsBlocks | src/ch/bfh/sevennotseven/Game.java:227-228 | moving a block to a different empty cell keeps the number of filled cells; `dst` gets `src`'s colour |
| GameEngine.FreeMoveOverwrites | src/ch/bfh/sevennotseven/Game.java:311-318 | a free move onto a filled cell destroys that block: one filled cell fewer |
| GameEngine.FreeMoveInPlace | src/ch/bfh/sevennotseven/Game.java:317-318 | a free move with `dst == src` empties the cell: one filled cell fewer |
| GameEngine.EmptyGrid | src/ch/bfh/sevennotseven/Game.java:342 | a new `size`-by-`size` board has every cell empty and no filled cell |
| GameEngine.ClearEffects | src/ch/bfh/sevennotseven/Game.java:389-473 | a clear keeps cells to 0 or colours, frees exactly the credited count when the centre is filled, and changes nothing when no line is found |
| GameEngine.PlaceAndClear | src/ch/bfh/sevennotseven/Game.java:487-490 | dropping a colour on an empty cell and clearing there changes the filled cells by one minus the cells cleared |
| GameEngine.PlaceUnseen | src/ch/bfh/sevennotseven/Game.java:336-339 | dropping the front of a queue of fresh colours (such as 1, 2, 3 on the empty board of reset) completes no line and leaves the rest fresh |
| GameEngine.FreshColourNoMatch | src/ch/bfh/sevennotseven/Game.java:488-490 | a colour dropped where it appears nowhere else completes no line and the clear changes nothing |
| GameEngine.UnseenTail | src/ch/bfh/sevennotseven/Game.java:488 | after dropping the front of a fresh queue, the rest of the queue is still absent from the board |
| GameEngine.PairsFoundAll | src/ch/bfh/sevennotseven/Game.java:430-450 | after the four pairs `distinctmatches` counts the pairs that make a line |
| GameEngine.DropsSnoc | src/ch/bfh/sevennotseven/Game.java:482-492 | one more loop turn appends one drop to the fold, and the new cell must be empty after the earlier drops |
| GameEngine.DropsUnseen | src/ch/bfh/sevennotseven/Game.java:482-492 | dropping pairwise different colours absent from the board clears nothing: the fold is plain writes, score and free moves stay, free blocks drop by one per colour, and the rest of the queue stays absent |
| GameEngine.DropOnUnseen | src/ch/bfh/sevennotseven/Game.java:487-491 | a single drop of an absent colour only writes its cell and spends one free block |
| GameEngine.DropsPlain | src/ch/bfh/sevennotseven/Game.java:482-492 | the drops of the queue's front onto the cells used are plain writes when the queue is absent from the board |
| GameEngine.FreshUnseen | src/ch/bfh/sevennotseven/Game.java:336-342 | the colours 1, 2, 3 of reset's queue are pairwise different and absent from the empty board |
| GameEngine.SpawnOnFresh | src/ch/bfh/sevennotseven/Game.java:336-355 | populateField on reset's board writes 1, 2, 3 in order into the cells used, scoring nothing, one free block per colour |
| GameEngine.Game.constructor | src/ch/bfh/sevennotseven/Game.java:98-103 | a new game is a reset game of the given size: level 1, 40 lines, two undos, score 0, no free moves, no snapshots, a consistent count, and the colours 1, 2, 3 written in order into empty cells of the empty board (all three, or until no cell is free) with the queue refilled |
| GameEngine.Game.CopyField | src/ch/bfh/sevennotseven/Game.java:36-40 | the deep copy equals the board |
| GameEngine.Game.SaveStep | src/ch/bfh/sevennotseven/Game.java:290-295 | pushes a snapshot of board, queue, score, lines left and level, and clears the cache key |
| GameEngine.Game.Restore | src/ch/bfh/sevennotseven/Game.java:58-64 | the game's board, queue, score, lines left and level become the snapshot's |
| GameEngine.Game.DoUndo | src/ch/bfh/sevennotseven/Game.java:272-285 | succeeds exactly with an undo left and a snapshot saved; then the latest snapshot is popped and restored and an undo is spent; `freeBlocks` and `freeMoves` keep their values; otherwise nothing changes |
| GameEngine.Game.Pop | src/ch/bfh/sevennotseven/Game.java:275-279 | drops the latest snapshot, spends an undo, clears the cache key |
| GameEngine.Game.CountRun | src/ch/bfh/sevennotseven/Game.java:408-425 | the inner walk counts exactly `Ray`, the run of the block's colour in that direction |
| GameEngine.Game.CountMatches | src/ch/bfh/sevennotseven/Game.java:403-426 | the `matches` array holds the eight run lengths `Matches` |
| GameEngine.Game.ClearRun | src/ch/bfh/sevennotseven/Game.java:440-444 | the first `count` cells towards `d` are emptied and every other cell is unchanged |
| GameEngine.Game.ClearLine | src/ch/bfh/sevennotseven/Game.java:433-449 | for pair `i`: reports a line exactly by the pair rule, leaves its two counts at their kept values, clears exactly their cells and touches no other count |
| GameEngine.Game.ClearPair | src/ch/bfh/sevennotseven/Game.java:436-445 | empties both runs of a matching pair and counts their cells |
| GameEngine.Game.ClearKeptRun | src/ch/bfh/sevennotseven/Game.java:437-444 | empties the kept run of one direction |
| GameEngine.Game.ClearLines | src/ch/bfh/sevennotseven/Game.java:430-450 | after the pair loop the counts are the kept ones, `distinctmatches` is the number of lines, the freed count is their sum, and exactly the kept runs are empty |
| GameEngine.Game.ClearLineCounted | src/ch/bfh/sevennotseven/Game.java:432-450 | one turn of the pair loop, with its counters, keeps the loop's invariant |
| GameEngine.Game.SumOf | src/ch/bfh/sevennotseven/Game.java:460-461 | adds up the counts |
| GameEngine.Game.ClearCentre | src/ch/bfh/sevennotseven/Game.java:453 | empties the centre cell |
| GameEngine.Game.WipedBoard | src/ch/bfh/sevennotseven/Game.java:436-455 | emptying exactly the cleared cells yields `Cleared` |
| GameEngine.Game.ClearAround | src/ch/bfh/sevennotseven/Game.java:403-461 | the board becomes `Cleared`; returns the number of lines, the cells freed and the sum of the kept runs |
| GameEngine.Game.Credit | src/ch/bfh/sevennotseven/Game.java:452-471 | `freeBlocks` grows by the cells freed, a free move is added for more than one line, and the score grows by `1 + distinct * sum` when a line was found |
| GameEngine.Game.CheckRemoveBlocks | src/ch/bfh/sevennotseven/Game.java:389-473 | returns whether a line was found; the board becomes `Cleared`, the score grows by `ScoreGain`, `freeBlocks` by the cleared count, `freeMoves` by one for more than one line; the free-cell count stays consistent when the centre is filled |
| GameEngine.Game.SetCell | src/ch/bfh/sevennotseven/Game.java:227-228 | writes one cell of array and board |
| GameEngine.Game.MoveBlock | src/ch/bfh/sevennotseven/Game.java:227-228 | the board becomes `Moved`; a move of a block to a different empty cell keeps the free-cell count consistent |
| GameEngine.Game.Dequeue | src/ch/bfh/sevennotseven/Game.java:488-489 | drops the queue's front and decrements `freeBlocks` |
| GameEngine.Game.DropFront | src/ch/bfh/sevennotseven/Game.java:487-489 | the empty cell gets the queue's front colour, which leaves the queue; `freeBlocks` drops by one; the count stays consistent; a fresh colour makes no line |
| GameEngine.Game.PlaceNext | src/ch/bfh/sevennotseven/Game.java:487-491 | one placement and its clear: board, score, free blocks and free moves become exactly `Drop` of the old ones (the front colour written at `q`, then the lines through `q` cleared and credited); the queue loses its front; consistency is kept; fresh colours score nothing |
| GameEngine.Game.Refill | src/ch/bfh/sevennotseven/Game.java:494-504 | appends `BlocksToAdd(level)` colours in 1..5 behind the existing queue |
| GameEngine.Game.PopulateField | src/ch/bfh/sevennotseven/Game.java:479-505 | the queue's front colours land in queue order on the returned cells, each empty when its colour lands, and board, score, free blocks and free moves are the fold `Drops` of drop-then-clear over them; the loop stops early only when `freeBlocks` runs out or the board is full; then the queue is refilled; with a consistent count it places the whole queue or uses up every free cell |
| GameEngine.Game.PlaceQueue | src/ch/bfh/sevennotseven/Game.java:482-492 | the while loop alone: the same fold `Drops` over the cells used, the queue left holding exactly the colours not placed, and the early stop only on no free blocks or a full board |
| GameEngine.Game.Placed | src/ch/bfh/sevennotseven/Game.java:486-491 | one successful draw extends the loop invariant `PlacedSoFar` by the drawn cell |
| GameEngine.Game.PlaceAt | src/ch/bfh/sevennotseven/Game.java:486-491 | the placement at an empty cell extends the fold `Drops` and the record of empty target cells by that cell and the queue's next colour |
| GameEngine.Game.CountLine | src/ch/bfh/sevennotseven/Game.java:369-375 | lines left, level and undos advance by `AfterClear` |
| GameEngine.Game.NextStep | src/ch/bfh/sevennotseven/Game.java:365-380 | after a line (`LineCounted`): board cleared, score, free blocks and free moves credited, lines counted, queue untouched; otherwise (`Populated`): lines untouched, and board and counters are what dropping the old queue onto empty cells of the old board produces, then the queue is refilled |
| GameEngine.Game.PopulateOnMiss | src/ch/bfh/sevennotseven/Game.java:366-367 | the populateField branch of nextStep, from the counters it starts with, establishes `Stepped` |
| GameEngine.Game.Reset | src/ch/bfh/sevennotseven/Game.java:331-358 | a fresh `size`-by-`size` game: level 1, 40 lines, two undos, score 0, no free moves, no snapshots, a consistent free-cell count; then 1, 2, 3 are written in order into empty cells with nothing cleared (`FreshSpawn`), all three or until no cell is free, and the queue refilled |
| GameEngine.Game.PopulateFresh | src/ch/bfh/sevennotseven/Game.java:355 | populateField on reset's empty board spends one free block per colour, scores nothing and writes 1, 2, 3 into the cells it draws |
| GameEngine.Game.Restart | src/ch/bfh/sevennotseven/Game.java:332-352 | the assignments before populateField: an empty board, all cells free, queue 1, 2, 3, and the counter values |
| GameEngine.Game.ResetCounters | src/ch/bfh/sevennotseven/Game.java:333-352 | the counter and queue values reset assigns |
| GameEngine.Game.NewBoard | src/ch/bfh/sevennotseven/Game.java:342 | a fresh array of the new size with every cell empty |
| GameEngine.Game.GetPath | src/ch/bfh/sevennotseven/Game.java:242-249 | Some exactly when `dst` is reachable from `src` over empty cells, and then a shortest walk ending at `dst` |
| GameEngine.Game.CanMove | src/ch/bfh/sevennotseven/Game.java:176-178 | true exactly when `dst` is reachable from `src` |
| GameEngine.Game.GetReachablePoints | src/ch/bfh/sevennotseven/Game.java:251-257 | exactly the reachable empty cells other than `src`, row by row |
| GameEngine.Game.GetUnreachablePoints | src/ch/bfh/sevennotseven/Game.java:259-265 | exactly the unreachable empty cells other than `src`, row by row |
| GameEngine.Game.DoMove | src/ch/bfh/sevennotseven/Game.java:216-233 | succeeds exactly when `src` holds a block, `dst` is empty and different, and a path exists; then a snapshot is pushed, the block moved and the next step taken; otherwise nothing changes; a consistent free-cell count stays consistent |
| GameEngine.Game.MoveAndStep | src/ch/bfh/sevennotseven/Game.java:225-230 | for a legal move: a snapshot of the old game is pushed, the block is moved and the next step is taken from the moved board; a consistent free-cell count stays consistent |
| GameEngine.Game.SaveAndMove | src/ch/bfh/sevennotseven/Game.java:225-228 | a snapshot of the old game is pushed and the board becomes `Moved`; the counters are untouched |
| GameEngine.Game.SpendFreeMove | src/ch/bfh/sevennotseven/Game.java:320 | one free move fewer, nothing else changes |
| GameEngine.Game.SaveAndJump | src/ch/bfh/sevennotseven/Game.java:315-320 | a snapshot is pushed, the board becomes `Moved` and one free move is spent |
| GameEngine.Game.DoFreeMove | src/ch/bfh/sevennotseven/Game.java:305-325 | succeeds exactly with a free move left and a block at `src` (nothing about `dst`); then a snapshot is pushed, the block jumps, a free move is spent and the next step taken; otherwise nothing changes |

## Left out

- The update listeners (`addUpdateListener`, `removeUpdateListener`, `emitUpdateEvent`) and the score printout are not modelled. They have no effect on the game state.
- The getters (`getAvailFreeMoves`, `getSize`, `getField`, …) only read fields and are not modelled.
- `Random`: the random cell in populateField is a choice of any empty cell. The random colour is a choice of any colour in 1..5. No distribution is modelled.
- GameEngine.Game.PopulateField: when `freeBlocks` is positive but every cell is filled, the source draws random cells forever. This can happen after an undo, because `freeBlocks` is not restored. The model leaves the loop instead, and its contract names a full board as the second reason for stopping early.
- Java `int` arithmetic is unbounded in the model. Score overflow is not modelled.
- Array aliasing: `State.restore` hands the snapshot's own array to the game. The model builds a fresh array from the snapshot value, so later moves cannot change a saved snapshot. The source does not reuse a popped snapshot either.
- Path-finder aliasing: the search gets a copy of the board (`CopyField`) instead of the game's array. The cache key `Game.lastSrc` is never set in the source, so every query searches the current board, as in the model.
- Grid coordinates are assumed on the board for `doMove` and `doFreeMove` (`InBounds`). Out of range, the source throws an array index exception, which is not modelled.
- `getUnreachablePoints` dereferences a vertex that may be null. Every empty cell other than the source has a vertex (`VertexSet`), so the model never meets that case.
- The no-argument constructor `Game()` (size 7) is the constructor with `n = 7`.
- Termination of the path search's outer loop is proved by the shrinking open list. The model does not count loop steps.
