# Gomoku engine core, modelled in Dafny

This project models the game core and the computer player of a 15 x 15 gomoku client, and proves properties of the model.

- **Board** (`GameBoard`, `board.dfy`). Cells are empty or hold a black or white stone. The module covers the initial state and the opponent of a player. It also has the geometry the other files share: the four line directions, stepping along a line, and cell ownership.
- **Win rules** (`Win`, `win.dfy`). `CheckWin` counts the stones of the last mover through the last move along each of the four directions. Each side is capped at four. Five or more is a win. A move count of 225 or more is a draw.
- **Move candidates** (`Candidates`, `candidates.dfy`). On the first move the only candidate is the centre. Otherwise the candidates are every empty cell within two steps (king-move distance) of some stone. Each is listed once, in the order the row-major scan finds them, then stably sorted by Manhattan distance to the centre.
- **Static evaluation** (`Evaluation`, `evaluate.dfy`). Every maximal run of stones is scored once per direction.
  - The score comes from an (open ends x length) table.
  - Runs of five or more score 1 000 000.
  - The result is the player's sum minus 1.1 times the opponent's sum.
- **Search** (`Search`, `minimax.dfy`). This is fail-soft negamax with alpha-beta pruning over the candidates.
  - A win by the last stone scores `-(1 000 000 + depth)`.
  - The depth limit and the no-candidate case fall back to the evaluator.
  - `FindBestMove` returns a single candidate at once. Otherwise it scores every candidate with the window (-inf, -best) and keeps the first strictly best one.
- **In-place search** (`InPlace`, `inplace.dfy`). The same two searches run on one mutable `array2` board. Each move is written before the child search and cleared after it, as in the source.

The main results:

1. `Search.NegamaxSound`: alpha-beta agrees with plain minimax (`Search.Minimax`). The pruned value is exact inside the window, and a bound in the right direction outside it. `Search.FullWindowIsExact` gives full equality for the full window.
2. `Search.FindBestMoveIsFirstBest`: `FindBestMove` returns the first candidate whose minimax value is maximal.
3. `Win.CheckWinExact`: the capped scans decide the win exactly. `CheckWin` names `p` exactly when five or more of `p`'s stones run through the last move along some direction.
4. `Candidates.CandidatesExact` and `Candidates.CandidatesKeepDiscoveryOrder`: the candidate list holds exactly the empty cells near a stone, without repeats, sorted by distance to the centre. Ties keep their discovery order.
5. `Evaluation.EvaluateSplits`, `Evaluation.ViewsArePessimistic` and `Evaluation.EvaluateColourBlind`: the one-pass tally is "my score minus 1.1 times theirs". The evaluator is pessimistic. Swapping all colours together with the player leaves the value unchanged.
6. `InPlace.NegamaxInPlace` and `InPlace.FindBestMoveInPlace`: the mutating searches return what the functional model returns, and leave the board exactly as they found it.

Modelling choices:

- `Infinity` and `-Infinity` in the search are the `ExtReal` values `PosInf` and `NegInf`. Scores are exact reals, so `1.1` is the rational 11/10.
- The search terminates because the number of free moves, 225 minus the move count, shrinks with every recursive call. The draw test stops it at 225. No lower bound on `depth` is assumed: with a negative depth the source keeps searching, and so does the model.
- `findBestMove` reads `candidates[0]!`, which is `undefined` when there are no candidates. Here that case is `None`.
- The `seen` set of keys `row * 15 + col` in the candidate generator is modelled as membership in the list found so far. `GameBoard.KeyRoundTrip` shows the key is one-to-one on the board, so the two agree.
- The board size `BOARD_SIZE` lives in a constants module that is not part of this model. It is fixed at 15 here, the size the repository's test files assume.

## Model

| member | source | states |
|---|---|---|
| GameBoard.CreateEmptyBoard | src/game/board.ts:4-8 | every cell of the new board is empty and it holds no stones |
| GameBoard.CreateInitialGameState | src/game/board.ts:10-19 | the game starts on an empty board with black to move, no last move, no winner, not over, and its move count agrees with the stones on the board |
| GameBoard.Opponent | src/game/board.ts:34-36 | the opponent is always the other colour |
| GameBoard.IsCellEmpty | src/game/board.ts:30-32 | a cell on the board is empty in the test exactly when it holds no stone, and a column off the board never tests empty |
| GameBoard.OpponentInvolution | src/ai/minimax.ts:8-10 | taking the opponent twice gives back the player |
| GameBoard.SetCell | src/ai/minimax.ts:36 | writing a cell changes that cell to the written value and leaves every other cell as it was |
| GameBoard.PlaceThenClear | src/ai/minimax.ts:36-46 | placing a stone on an empty cell and then writing it back to empty restores the board exactly |
| GameBoard.KeyRoundTrip | src/ai/candidates.ts:29-31 | the key `row * 15 + col` of a board cell lies in 0 .. 224 and decodes back to the cell, and every key in that range decodes to a board cell with that key |
| GameBoard.CountRowsBound | src/game/win.ts:42-44 | the stone count of the rows is at most 15 per row, and reaches that only when every cell holds a stone |
| GameBoard.StoneCountFull | src/game/win.ts:42-44 | a board holds at most 225 stones, and holds 225 exactly when it is full |
| Win.Ray | src/game/win.ts:19-34 | the scan from step `i` on counts stones of `p` that lie contiguously along the direction, is capped so that the total is at most four steps, and stops only at the cap or at a cell `p` does not own |
| Win.CheckWin | src/game/win.ts:11-40 | a reported winner owns the last move's cell |
| Win.CheckWinExact | src/game/win.ts:11-40 | `CheckWin` names `p` if and only if five contiguous stones of `p` pass through the last move along one of the four directions, wherever the move sits in the run |
| Win.FiveInARowWins | src/game/win.ts:15-36 | five stones of `p` in a row along any direction, with the last move at any of the five places, are reported as a win for `p` |
| Win.RunThroughWitnessesFive | src/game/win.ts:16-36 | a combined count of five or more through the move is a genuine five-cell segment of `p`'s stones |
| Win.FiveMakesRunThrough | src/game/win.ts:16-36 | any five-cell segment of `p` through the move makes the two capped scans add up to five or more |
| Win.StoppedBlocksFive | src/game/win.ts:22-23 | an edge of the board or a cell not held by `p` on each side, with fewer than five cells between, rules out any five through the move |
| Win.ShortRunsDoNotWin | src/game/win.ts:15-39 | when every direction's run through the move is cut short on both sides, the move does not win for `p` |
| Win.DrawExactlyWhenFull | src/game/win.ts:42-44 | with the move count equal to the stones on the board, the draw test holds exactly when the board is full |
| Candidates.Around | src/ai/candidates.ts:22-24 | the 5 x 5 block around a stone, without its centre, lists 24 cells |
| Candidates.AroundExact | src/ai/candidates.ts:22-27 | the listed neighbours are exactly the cells at king-move distance 1 or 2 from the stone |
| Candidates.Visit | src/ai/candidates.ts:27-32 | a neighbour is appended only when it is on the board, empty and not yet seen, and any open neighbour is present afterwards |
| Candidates.CollectExact | src/ai/candidates.ts:15-32 | the deduplicating scan keeps each cell once, and keeps exactly the open cells among those it visits |
| Candidates.NeighboursNearStones | src/ai/candidates.ts:18-27 | every cell the scan visits is within distance 2 of some stone |
| Candidates.NeighboursListed | src/ai/candidates.ts:18-27 | every cell within distance 2 of a stone not yet passed by the scan is visited |
| Candidates.DiscoverExact | src/ai/candidates.ts:15-36 | before sorting, the candidates are without repeats and are exactly the open cells near some stone |
| Candidates.NoStonesNoNeighbours | src/ai/candidates.ts:18-20 | on a board with no stones the scan visits nothing |
| Candidates.AllFromCons | src/ai/candidates.ts:38 | a list is at least `d` from the centre throughout exactly when its head and its tail are |
| Candidates.SortedCons | src/ai/candidates.ts:38 | a list with a head is sorted by distance exactly when its tail is sorted and no nearer than the head |
| Candidates.DistinctCons | src/ai/candidates.ts:30-31 | a list with a head has no repeats exactly when its tail has none and does not contain the head |
| Candidates.InsertPermutes | src/ai/candidates.ts:38 | inserting a cell into a list adds exactly that cell |
| Candidates.InsertLowerBound | src/ai/candidates.ts:38 | insertion keeps a common lower bound on the distance |
| Candidates.InsertKeepsSorted | src/ai/candidates.ts:38 | inserting into a sorted list keeps it sorted |
| Candidates.InsertKeepsDistinct | src/ai/candidates.ts:38 | inserting a new cell into a list without repeats adds no repeat |
| Candidates.SortPermutes | src/ai/candidates.ts:38 | the sort rearranges the list without adding or dropping cells |
| Candidates.SortOrders | src/ai/candidates.ts:38 | the sorted list is ordered by distance to the centre and keeps the absence of repeats |
| Candidates.AtDistanceSound | src/ai/candidates.ts:38 | every cell picked out for distance `k` is in the list and at distance `k` |
| Candidates.InsertBucket | src/ai/candidates.ts:38 | insertion places the new cell before the cells of its own distance and leaves the order of every distance class otherwise unchanged |
| Candidates.SortKeepsBuckets | src/ai/candidates.ts:38 | the sort is stable: for every distance, the cells at that distance keep their relative order |
| Candidates.SortedHeadNearest | src/ai/candidates.ts:38 | the head of a sorted list is no farther from the centre than any distance present in it |
| Candidates.SortedBucketsDetermine | src/ai/candidates.ts:38 | two sorted lists with the same cells, in the same order within each distance, are equal, so the stable sort's result is determined |
| Candidates.SortedDiscovery | src/ai/candidates.ts:15-39 | the sorted discovery list holds open cells only, without repeats, in order of distance |
| Candidates.GetCandidates | src/ai/candidates.ts:10-40 | the first move yields only the centre; afterwards every candidate is an open cell; the list has no repeats and is ordered by distance to the centre |
| Candidates.CandidatesExact | src/ai/candidates.ts:10-40 | after the first move, a cell is a candidate if and only if it is empty and within king-move distance 2 of a stone |
| Candidates.CandidatesKeepDiscoveryOrder | src/ai/candidates.ts:15-38 | candidates at equal distance from the centre appear in the order the row-major scan discovered them |
| Candidates.NoStonesNoCandidates | src/ai/candidates.ts:10-39 | after the first move, a board with no stones yields no candidates |
| Evaluation.Run | src/ai/evaluate.ts:46-58 | the measured run is the longest prefix of the line, from the start cell on, owned by the run's colour |
| Evaluation.OpenEnds | src/ai/evaluate.ts:70-91 | the open-end count is between 0 and 2, is 2 exactly when the cells before and after the run are both empty board cells, and is 0 exactly when neither is |
| Evaluation.RunPoints | src/ai/evaluate.ts:14-18 | a run scores 1 000 000 exactly when it has five or more stones, never more, and nothing exactly when it is shorter and closed at both ends |
| Evaluation.RunPointsMonotone | src/ai/evaluate.ts:14-18 | the table never falls with length or open ends; an extra open end strictly raises a short run, and an extra stone strictly raises a run with an open end |
| Evaluation.CellTallySplits | src/ai/evaluate.ts:31-98 | the cell loop's body credits the run's value to the side owning it and nothing to the other side |
| Evaluation.LineTallySplits | src/ai/evaluate.ts:29-100 | the row and column loops add up the player's points and the opponent's points separately |
| Evaluation.BoardTallySplits | src/ai/evaluate.ts:26-101 | the direction loop adds up each side's points over the four directions |
| Evaluation.EvaluateSplits | src/ai/evaluate.ts:22-104 | the evaluation is the player's total points minus 1.1 times the opponent's |
| Evaluation.MaximalRunCountedOnce | src/ai/evaluate.ts:34-58 | a maximal run is credited once, at its first cell, with the value of its full length, and its other cells add nothing |
| Evaluation.FiveOrMoreScoresFlat | src/ai/evaluate.ts:60-68 | a maximal run of five or more scores exactly 1 000 000, whatever its ends |
| Evaluation.EmptyLineScoresNothing | src/ai/evaluate.ts:31-32 | on an empty board one direction's scan credits nothing |
| Evaluation.EmptyBoardScoresNothing | src/ai/evaluate.ts:26-32 | on an empty board no direction credits anything |
| Evaluation.EmptyBoardIsLevel | src/ai/evaluate.ts:22-104 | the empty board evaluates to 0 for either player |
| Evaluation.ViewsArePessimistic | src/ai/evaluate.ts:103 | the two players' evaluations of one board add up to at most 0, and to exactly 0 only when neither side scores |
| Evaluation.MirroredThreatsFavourOpponent | src/ai/evaluate.ts:20 | equal positive scores on both sides evaluate below 0 for the player |
| Evaluation.SwapRun | src/ai/evaluate.ts:46-58 | swapping colours keeps every run's length |
| Evaluation.SwapPoints | src/ai/evaluate.ts:60-98 | swapping colours moves every run's points to the opponent unchanged |
| Evaluation.SwapOwnerLine | src/ai/evaluate.ts:29-100 | one direction's total moves to the opponent unchanged |
| Evaluation.SwapOwnerTotal | src/ai/evaluate.ts:26-101 | all directions' totals move to the opponent unchanged |
| Evaluation.EvaluateColourBlind | src/ai/evaluate.ts:22-104 | evaluating the colour-swapped board for the opponent gives the same value as the original for the player |
| Search.ExtRealOrder | src/ai/minimax.ts:48-50 | the comparisons on scores with infinities form a total order, negation reverses it, and the maximum is one of its arguments and bounds both |
| Search.ExtRealTrans | src/ai/minimax.ts:48-50 | the order on scores with infinities is transitive, strictly when either step is strict |
| Search.Terminal | src/ai/minimax.ts:21-28 | a win by the last stone scores `-(1 000 000 + depth)` first; otherwise a full move count scores 0, then depth 0 scores the evaluation; the search goes on exactly when the last stone did not win, moves are left and the depth is nonzero |
| Search.LoopStep | src/ai/minimax.ts:35-50 | after one loop turn the best score and alpha are each the larger of their old value and the child's score, so neither falls and both reach the score; the loop stops exactly when alpha reaches beta |
| Search.NegamaxLoop | src/ai/minimax.ts:33-53 | the loop's result is finite once a move has been scored, and is never below the best score so far |
| Search.MaxFrom | src/ai/minimax.ts:33-53 | the unpruned best of the remaining moves is finite exactly when a move remains |
| Search.FindBestMove | src/ai/minimax.ts:56-88 | there is no move exactly when there is no candidate, and the move returned is always a candidate |
| Search.RootLoop | src/ai/minimax.ts:65-87 | the root loop ends on a candidate index, either the best one so far or one it has reached |
| Search.CutoffStep | src/ai/minimax.ts:48-50 | a beta cutoff returns a lower bound on the true value of the node |
| Search.ContinueStep | src/ai/minimax.ts:48-50 | without a cutoff, the raised alpha and best score keep the loop invariant |
| Search.EndStep | src/ai/minimax.ts:53 | after the last move the best score is sound for the original window |
| Search.MaxAssoc | src/ai/minimax.ts:48 | taking maxima in either grouping gives the same score |
| Search.ChildSound | src/ai/minimax.ts:37-45 | the child searched in the negated window (-beta, -alpha) gives a sound score for the move |
| Search.NegamaxSound | src/ai/minimax.ts:12-54 | alpha-beta returns the exact minimax value when its result lies strictly inside the window, an upper bound at or below alpha, and a lower bound at or above beta |
| Search.LoopTurn | src/ai/minimax.ts:35-50 | one turn of the move loop either cuts off with a sound result or carries the invariant to the next move |
| Search.LoopSound | src/ai/minimax.ts:33-53 | from any point where the invariant holds, the rest of the move loop returns a sound result for the original window |
| Search.FullWindowIsExact | src/ai/minimax.ts:12-54 | with the window (-inf, +inf) the pruned search returns exactly the minimax value |
| Search.RootStep | src/ai/minimax.ts:70-84 | a root score that beats the best so far is the move's exact minimax value, and one that does not shows the move is worth no more than the best so far |
| Search.RaiseBest | src/ai/minimax.ts:81-84 | a strictly larger score becomes the first maximum so far, and a score that is not larger keeps the current one |
| Search.FirstMaxFrom | src/ai/minimax.ts:81-84 | the reference scan for the first maximum always ends on an index of the list |
| Search.FirstMaxFromIsFirstMax | src/ai/minimax.ts:81-84 | the reference scan ends on the first index of a greatest value |
| Search.RootLoopAgrees | src/ai/minimax.ts:65-87 | with the move values known, the root loop picks the same index as the reference scan |
| Search.RootFromStart | src/ai/minimax.ts:65-87 | the root loop from its initial state picks the index the reference scan picks |
| Search.FindBestMoveIsFirstBest | src/ai/minimax.ts:56-88 | whenever there is a candidate, the move returned is the first candidate whose minimax value is greatest |
| Search.FindBestMoveIsLegal | src/ai/minimax.ts:62-63 | on the first move the answer is the centre; afterwards any move returned is an empty cell within distance 2 of a stone |
| Search.WinningMoveValue | src/ai/minimax.ts:22-25 | a move that completes five is worth the win score plus the remaining depth, in any window |
| Search.QuietLeafValues | src/ai/minimax.ts:27-31 | without a win by the last stone, a full move count scores 0, depth 0 scores the evaluation, and no candidates also scores the evaluation |
| InPlace.Write | src/ai/minimax.ts:36 | one array assignment changes the board at that cell alone |
| InPlace.ChildInPlace | src/ai/minimax.ts:36-46 | placing, searching and clearing one move scores it like the functional model and restores the board |
| InPlace.NegamaxInPlace | src/ai/minimax.ts:12-54 | the mutating negamax returns the functional model's value and leaves the board unchanged |
| InPlace.LoopInPlace | src/ai/minimax.ts:33-53 | the mutating move loop, including its early break, returns the functional loop's result and leaves the board unchanged |
| InPlace.FindBestMoveInPlace | src/ai/minimax.ts:56-88 | the mutating `findBestMove` returns the functional model's move and leaves the board unchanged |
| InPlace.RootInPlace | src/ai/minimax.ts:65-87 | the mutating root loop keeps the same best index as the functional root loop and leaves the board unchanged |
| InPlace.RootTurn | src/ai/minimax.ts:67-85 | after one turn of the mutating root loop, the functional root loop run on from the next candidate with the new index and score gives the same move as run from this candidate with the old ones; the board is restored |

## Left out

- Floating point: evaluation and search scores are exact reals. `1.1` is 11/10 and sums never round. `Infinity` is a separate value, not a float.
- Purity: `checkWin`, `getCandidates` and `evaluate` only read the board. Every function here takes the board as an immutable value, so this holds by construction. The writes of the search are modelled separately in `InPlace`.
- Iterative deepening, time limits, the worker thread, the network client and the UI composables are outside the core. So are the difficulty presets in `src/types/ai.ts`. The search is modelled for any depth given.
- The constants module is not part of this model. `BOARD_SIZE` is fixed at 15, the value the tests assume.
- The concrete test positions (for example specific depth-2 positions or hand-built evaluation boards) are not replayed. General lemmas stand in for them: `Search.WinningMoveValue`, `Search.FindBestMoveIsFirstBest`, `Evaluation.RunPointsMonotone` and `Evaluation.EmptyBoardIsLevel`.
- Search.FindBestMove: the source's result is `undefined` when there are no candidates. The model returns `None`, and its contract says this happens exactly then. At a negative move count the functional search scores every root move on an unchanged board; the source's undo does not always restore its board there (see `InPlace.NegamaxInPlace` below), so the functional search departs from the source at such counts.
- GameBoard.IsCellEmpty: a row off the board makes the source throw on `board[row]!`, so the row must be on the board. A column off the board reads `undefined`, which is not `null`, and the model answers false, as the source does.
- Win.CheckWin: a last move whose row is off the board makes the source throw on `board[row]!`, so the row must be on the board. A column off the board reads `undefined`, and the model returns no winner, as the source does.
- InPlace.NegamaxInPlace: it requires a move count of at least 1, and `InPlace.FindBestMoveInPlace` requires at least 0. `negamax` is only called from `findBestMove` with the count plus one. A negative count would let a nested call see move 0 and propose the centre even when it is occupied. The source's undo, which writes `null`, would then not restore the board.
