# Hunters and wolves: a verified model of the game engine

The game is played on a 5×5 board whose cells are numbered 0 to 24, row by
row. Fifteen wolves fill the top three rows, and three hunters stand on
cells 21, 22 and 23 of the bottom row.

- A piece steps to an empty orthogonal neighbour.
- A hunter also captures ("snipes") a wolf two cells away, jumping over an
  empty middle cell.
- The hunters win when at most three wolves are left.
- The wolves win when no hunter can step or capture.
- The computer plays with an alpha-beta minimax search under a time budget.
- A store object holds the game for the user interface.

The model has one Dafny module per source file:

| file | module | source |
|---|---|---|
| `types.dfy` | `Types` | cells, roles, options, counting and filtering |
| `board.dfy` | `Grid` | `src/lib/board.ts` |
| `moves.dfy` | `Moves` | `src/lib/moves.ts` |
| `snipe.dfy` | `Snipe` | `src/lib/snipe.ts` |
| `game_state.dfy` | `GameState` | `src/lib/gameState.ts` |
| `ai_moves.dfy` | `AiMoves` | `src/lib/aiMoves.ts` |
| `evaluation.dfy` | `Evaluation` | `src/lib/evaluation.ts` |
| `ai_worker.dfy` | `AiWorker` | `src/workers/aiWorker.ts` |
| `game_store.dfy` | `GameStore` | `src/store/gameStore.ts` |

**Board and move rules.** A board is a sequence of 25 cells: 0 is empty,
1 is a hunter, 2 is a wolf. The source reads `board[p]` at indexes that may
be off the board or fractional, where JavaScript yields `undefined`.
`Types.Holds` models such a read as "the index is a cell of the board and
holds that value". The rules are pure functions, each with lemmas that tie
it to its meaning:

- the neighbour list is exactly the adjacent cells;
- a step list is exactly the empty neighbours;
- a capture list is exactly the legal captures;
- moves and captures change the piece counts as they should.

**Move generation and evaluation.** These are loops in the source, so they
are modelled as methods with loop invariants. Each method is proved equal
to a recursive specification function, and the properties are proved as
lemmas about those functions.

**The search.** The search is a method that follows the source branch by
branch. Its specification is the plain minimax value `AiWorker.Value`. The
proofs show the following:

- Without a timeout, every call returns a fail-soft alpha-beta result
  against that value.
- The root loop returns the first candidate of greatest exact value.
- The two per-role evaluators are parameters.
- The wall clock is an oracle that the search consults once per node and
  once per root candidate.

**The store.** The store is a class with the source's ten fields. Each
method changes the fields in place and is proved to produce the state that
a pure transition function computes on a snapshot of those fields
(`GameStore.StoreState`). Lemmas about the transition functions state:

- the store's invariant;
- that the game-over flag always matches `checkGameOver` on the board;
- who moves next;
- which inputs are ignored.

Three behaviours of the code worth noting:

- The code tests a capture by the index difference alone (±2 or ±10)
  rather than by row and column. So a capture from cell 4 to cell 6 across
  a row boundary is legal when cell 5 is empty
  (`Snipe.SnipeWrapsAcrossRows`).
- A side without moves inside the search scores ±100000 with no depth
  offset.
- The source orders moves (`orderMoves`) but the search never calls it.

## Model

| member | source | states |
|---|---|---|
| `Types.Opponent` | src/workers/aiWorker.ts:91 | the other side is never the same side |
| `Types.Count` | src/lib/gameState.ts:6-8 | a count of one kind of cell never exceeds the board's length |
| `Types.CountIsMultiplicity` | src/lib/gameState.ts:6-8 | counting cells of a kind is their multiplicity in the board's multiset |
| `Types.CountUpdate` | src/lib/moves.ts:39-44 | writing one cell changes each kind's count by exactly the cell it removed and the one it wrote |
| `Types.CountConcat` | src/lib/gameState.ts:6-8 | counts add up over concatenation |
| `Types.CountZero` | src/lib/gameState.ts:6-8 | a count is zero exactly when no cell holds that kind |
| `Types.CountTwoKinds` | src/lib/gameState.ts:6-12 | wolves and hunters together never outnumber the cells |
| `Types.Filter` | src/lib/moves.ts:34-37 | `Array.filter`: keeps exactly the elements satisfying the test and is never longer |
| `Types.FilterConcat` | src/lib/moves.ts:34-37 | filtering distributes over concatenation, keeping order |
| `Types.FilterDistinct` | src/lib/moves.ts:34-37 | filtering a list without repeats gives a list without repeats |
| `Grid.CreateInitialBoard` | src/lib/board.ts:3-15 | cells 0-14 are wolves, 21-23 hunters, 15-20 and 24 empty |
| `Grid.InitialCounts` | src/lib/board.ts:3-15 | the starting board has 15 wolves, 3 hunters and 7 empty cells |
| `Grid.Row` | src/lib/board.ts:21-23 | a cell's row is between 0 and 4 |
| `Grid.IsValidPosition` | src/lib/board.ts:17-19 | an index names a cell exactly when it lies in 0..24; with `Grid.RowColDecompose` every such cell has a row and a column in 0..4 and is recovered from them |
| `Grid.Col` | src/lib/board.ts:25-27 | a cell's column is between 0 and 4 (JavaScript remainder, which keeps the sign of the dividend) |
| `Grid.RowColDecompose` | src/lib/board.ts:17-27 | every cell is recovered from its row and column |
| `Grid.RowColRoundTrip` | src/lib/board.ts:21-27 | row and column of the cell at (row, col) give back row and col |
| `Grid.SameRowColEquivalence` | src/lib/board.ts:29-35 | same-row and same-column are equivalence relations |
| `Grid.IsSameRow` | src/lib/board.ts:29-31 | two indices share a row; `Grid.SameRowColEquivalence` proves it an equivalence |
| `Grid.IsSameCol` | src/lib/board.ts:33-35 | two indices share a column; `Grid.SameRowColEquivalence` proves it an equivalence, and `Grid.SameCellIffSameRowAndCol` that both together mean the same cell |
| `Grid.SameCellIffSameRowAndCol` | src/lib/board.ts:29-35 | two cells are equal exactly when they share row and column |
| `Moves.Abs` | src/lib/moves.ts:9-10 | `Math.abs` is the value or its negation, never negative |
| `Moves.AdjacentSymmetricIrreflexive` | src/lib/moves.ts:3-13 | adjacency is symmetric and no cell is adjacent to itself |
| `Moves.IsAdjacent` | src/lib/moves.ts:3-13 | orthogonal neighbours by row and column; `Moves.AdjacentSymmetricIrreflexive` and `Moves.AdjacentIffOffset` give its meaning as an index offset of 5, or of 1 within a row |
| `Moves.AdjacentIffOffset` | src/lib/moves.ts:3-13 | two cells are adjacent exactly when they are ±5 apart, or ±1 apart within one row |
| `Moves.AdjacentPositions` | src/lib/moves.ts:15-26 | at most four neighbours are listed |
| `Moves.AdjacentPositionsExact` | src/lib/moves.ts:15-26 | the listed neighbours are exactly the adjacent cells of the board, without repeats |
| `Moves.AdjacentPositionsSize` | src/lib/moves.ts:15-26 | a corner has 2 neighbours, an interior cell 4, any other edge cell 3 |
| `Moves.AdjacentCountByEdges` | src/lib/moves.ts:15-26 | the neighbour count is 4 minus the number of board edges the cell touches |
| `Moves.CornerIffBothEdges` | src/lib/moves.ts:20-23 | a cell is a corner exactly when it is on the top or bottom row and on the left or right column |
| `Moves.ValidMoves` | src/lib/moves.ts:34-37 | at most four steps are listed, each of them legal |
| `Moves.ValidMovesExact` | src/lib/moves.ts:28-37 | a step is listed exactly when it is legal; listed steps are empty cells of the board, without repeats |
| `Moves.CanMove` | src/lib/moves.ts:28-32 | a step goes to an empty on-board neighbour; `Moves.ValidMovesExact` proves `getValidMoves` lists exactly these |
| `Moves.MovePiece` | src/lib/moves.ts:39-44 | the origin is emptied, the destination receives the piece, every other cell is kept |
| `Moves.MovePieceKeepsCounts` | src/lib/moves.ts:39-44 | a step onto an empty cell keeps every count |
| `Moves.MovePieceOntoItselfErases` | src/lib/moves.ts:39-44 | moving a piece onto its own cell deletes it |
| `Moves.MovePieceUndo` | src/lib/moves.ts:39-44 | moving back undoes a step onto an empty cell |
| `Snipe.CanSnipeShape` | src/lib/snipe.ts:4-15 | a legal capture goes from a hunter to a wolf, both on the board, over an empty middle cell on the board |
| `Snipe.CanSnipe` | src/lib/snipe.ts:4-15 | a hunter on the origin, a wolf on the target two cells away by index, an empty middle cell; `Snipe.CanSnipeShape` states this on the board's cells |
| `Snipe.VerticalSnipeSameColumn` | src/lib/snipe.ts:8-14 | a ±10 capture stays in one column, and the middle cell is halfway between the two rows |
| `Snipe.HorizontalSnipeRow` | src/lib/snipe.ts:8-14 | a +2 jump stays in one row exactly when it starts in column 0, 1 or 2 |
| `Snipe.SnipeWrapsAcrossRows` | src/lib/snipe.ts:4-15 | a hunter on cell 4 may capture a wolf on cell 6 in the next row over the empty cell 5 |
| `Snipe.Snipe` | src/lib/snipe.ts:17-26 | the hunter lands on the target, the middle cell (when the index sum is even) and the origin are emptied, and nothing else changes |
| `Snipe.SnipeCounts` | src/lib/snipe.ts:17-26 | a legal capture removes exactly one wolf, keeps the hunters and adds one empty cell |
| `Snipe.SnipesUpTo` | src/lib/snipe.ts:28-40 | the first k directions give at most k targets |
| `Snipe.PossibleSnipes` | src/lib/snipe.ts:28-40 | at most four capture targets are listed |
| `Snipe.SnipesUpToMembers` | src/lib/snipe.ts:28-40 | a target is listed by the first k directions exactly when one of them gives a legal capture; no repeats |
| `Snipe.PossibleSnipesExact` | src/lib/snipe.ts:28-40 | a target is listed exactly when the capture is legal; targets are on the board and distinct; a non-hunter has none |
| `Snipe.GetPossibleSnipes` | src/lib/snipe.ts:28-40 | the loop computes the capture list |
| `Snipe.GetAllHunterSnipes` | src/lib/snipe.ts:42-55 | the map's keys are exactly the hunters with a capture, each mapped to its capture list |
| `GameState.CountWolves` | src/lib/gameState.ts:6-8 | at most 25 wolves |
| `GameState.CountHunters` | src/lib/gameState.ts:10-12 | at most 25 hunters |
| `GameState.PiecesFitOnBoard` | src/lib/gameState.ts:6-12 | wolves and hunters together fit on the board |
| `GameState.CanHunterMoveIff` | src/lib/gameState.ts:18-22 | a hunter can move exactly when it has a legal step or a legal capture |
| `GameState.CheckHunterWin` | src/lib/gameState.ts:14-16 | the hunters win once at most three wolves remain; `GameState.CheckGameOverMeaning` relates it to the verdict |
| `GameState.CanHunterMove` | src/lib/gameState.ts:18-22 | a hunter can step or capture; `GameState.CanHunterMoveIff` states it as the existence of a legal step or capture |
| `GameState.NoHunterCanMoveFrom` | src/lib/gameState.ts:24-33 | the loop from cell i returns true exactly when no hunter at or after i can move |
| `GameState.WolfWinWithoutHunters` | src/lib/gameState.ts:24-33 | with no hunter left the wolves have won |
| `GameState.CheckWolfWin` | src/lib/gameState.ts:24-33 | the wolves win when no hunter can move; `GameState.NoHunterCanMoveFrom` and `GameState.WolfWinWithoutHunters` state its meaning |
| `GameState.CheckGameOver` | src/lib/gameState.ts:35-45 | the game is over exactly when there is a winner |
| `GameState.CheckGameOverMeaning` | src/lib/gameState.ts:35-45 | hunters win exactly when at most three wolves are left; wolves win exactly when more are left and no hunter can move; otherwise the game goes on |
| `GameState.InitialNotOver` | src/lib/gameState.ts:35-45 | the starting board is not over |
| `AiMoves.MovesTo` | src/lib/aiMoves.ts:18-20 | one move per target, in order, from the given origin |
| `AiMoves.WolfMovesUpToShape` | src/lib/aiMoves.ts:12-25 | every wolf move generated over the first n cells is a step of a wolf; the list has no repeats and its origins ascend |
| `AiMoves.WolfListed` | src/lib/aiMoves.ts:12-25 | every legal step of a wolf on the first n cells is generated |
| `AiMoves.WolfMovesExact` | src/lib/aiMoves.ts:12-25 | a move is generated exactly when it is a legal wolf step; no repeats; ordered by origin |
| `AiMoves.PushMoves` | src/lib/aiMoves.ts:18-20 | the inner loop appends one move per target |
| `AiMoves.GenerateWolfMoves` | src/lib/aiMoves.ts:12-25 | the loops compute the wolf move list |
| `AiMoves.HunterMovesFromShape` | src/lib/aiMoves.ts:31-41 | one hunter's moves are its legal steps then its legal captures, flagged as such, without repeats |
| `AiMoves.HunterMovesUpToSound` | src/lib/aiMoves.ts:27-45 | every generated hunter move is a legal step or capture of a hunter on the first n cells |
| `AiMoves.HunterListed` | src/lib/aiMoves.ts:27-45 | every move of a hunter on the first n cells is generated |
| `AiMoves.HunterMovesUpToOrdered` | src/lib/aiMoves.ts:27-45 | the generated hunter moves have no repeats and ascending origins |
| `AiMoves.HunterMovesExact` | src/lib/aiMoves.ts:27-45 | a move is generated exactly when it is a legal hunter step (unflagged) or capture (flagged); no repeats; ordered by origin |
| `AiMoves.GenerateHunterMoves` | src/lib/aiMoves.ts:27-45 | the loops compute the hunter move list |
| `AiMoves.PushHunterMoves` | src/lib/aiMoves.ts:31-41 | one hunter's pass appends its steps, then its captures |
| `AiMoves.DistanceToCenter` | src/lib/aiMoves.ts:59-63 | on the board the distance is at most 4, and 0 exactly at cell 12 |
| `AiMoves.Insert` | src/lib/aiMoves.ts:47-57 | inserting adds exactly that move to the multiset |
| `AiMoves.BeforeOrder` | src/lib/aiMoves.ts:48-56 | the comparator is a strict weak order: irreflexive, asymmetric, with transitive incomparability |
| `AiMoves.InsertSorted` | src/lib/aiMoves.ts:47-57 | inserting into a sorted list keeps it sorted |
| `AiMoves.OrderMoves` | src/lib/aiMoves.ts:47-57 | the result is a permutation of the input, sorted by the comparator |
| `AiMoves.OrderMovesGroups` | src/lib/aiMoves.ts:47-57 | all captures come before all steps, and within each group the distance to the centre never decreases |
| `Evaluation.ManhattanMetric` | src/lib/evaluation.ts:48-54 | the distance is symmetric, obeys the triangle inequality, is 1 exactly for adjacent cells, and on the board is at most 8 and 0 only for equal cells |
| `Evaluation.PositionsExact` | src/lib/evaluation.ts:9-12 | the collected list holds exactly the cells of that kind, ascending, as many as their count |
| `Evaluation.PiecePositions` | src/lib/evaluation.ts:9-12 | the wolf or hunter list is as long as the count, on the board and strictly ascending |
| `Evaluation.LocalValidMovesAgree` | src/lib/evaluation.ts:56-67 | the evaluation's own step list equals that of the move rules, order included |
| `Evaluation.LocalValidMoves` | src/lib/evaluation.ts:56-67 | the evaluator's own copy of the step generator; `Evaluation.LocalValidMovesAgree` proves it equal to `getValidMoves` on every cell |
| `Evaluation.FilterFour` | src/lib/moves.ts:34-37 | filtering the four neighbour candidates by the step rule keeps the empty ones in order |
| `Evaluation.NeighboursAdjacent` | src/lib/evaluation.ts:58-64 | each bounds test admits a cell of the board adjacent to the origin |
| `Evaluation.FilterNeighbour` | src/lib/moves.ts:34-37 | one neighbour candidate survives the step filter exactly when it is empty |
| `Evaluation.LocalPossibleSnipes` | src/lib/evaluation.ts:69-88 | the evaluation's own capture list equals that of the capture rules |
| `Evaluation.CollectPieces` | src/lib/evaluation.ts:9-12 | the loop collects the wolf and hunter cells in ascending order |
| `Evaluation.Compactness` | src/lib/evaluation.ts:16-23 | the spread term is minus the sum of the distances of all wolf pairs |
| `Evaluation.Mobility` | src/lib/evaluation.ts:25-31 | the mobility term is, over all hunters, steps plus twice the captures |
| `Evaluation.SumRows` | src/lib/evaluation.ts:33-34 | the `reduce` is the sum of the wolf rows |
| `Evaluation.TrapPotential` | src/lib/evaluation.ts:36-43 | the trap term is 15 per adjacent (wolf, hunter) pair |
| `Evaluation.EvaluateBoard` | src/lib/evaluation.ts:5-46 | the method computes the score `BoardScore` states term by term, NaN without wolves |
| `Evaluation.ScoreNaNIffNoWolves` | src/lib/evaluation.ts:33-45 | the score is NaN exactly when no wolf is left |
| `Evaluation.BoardScore` | src/lib/evaluation.ts:5-46 | the weighted sum of the four terms, NaN without wolves; `Evaluation.ScoreNaNIffNoWolves`, `Evaluation.ScoreTerms` and `Evaluation.InitialScoreFinite` state its meaning |
| `Evaluation.PairDistancesZeroIff` | src/lib/evaluation.ts:16-23 | the spread term is zero exactly when there is at most one wolf |
| `Evaluation.HunterMobilityBound` | src/lib/evaluation.ts:25-31 | mobility is at most 12 per hunter |
| `Evaluation.RowSumBound` | src/lib/evaluation.ts:33-34 | the row sum lies between 0 and 4 per wolf |
| `Evaluation.TrapPairsBound` | src/lib/evaluation.ts:36-43 | there are at most (wolves × hunters) adjacent pairs |
| `Evaluation.TrapPairsByHunter` | src/lib/evaluation.ts:36-43 | counting adjacent pairs wolf by wolf or hunter by hunter gives the same number |
| `Evaluation.AdjacentWolvesWithin` | src/lib/evaluation.ts:36-43 | distinct wolves next to a hunter number at most the cells that can hold them |
| `Evaluation.AdjacentWolvesAtMostFour` | src/lib/evaluation.ts:36-43 | a hunter has at most four wolves next to it |
| `Evaluation.PairsByHunterBound` | src/lib/evaluation.ts:36-43 | the first m hunters account for at most 4m adjacent pairs |
| `Evaluation.AdvancementBound` | src/lib/evaluation.ts:33-34 | the advancement term lies between 0 and 12 |
| `Evaluation.ScoreTerms` | src/lib/evaluation.ts:5-46 | 1000 per wolf; the spread term is at most 0; the mobility penalty is at most 60 per hunter; the advancement term is 0 to 12; the trap term is 0 to 15 per pair and at most 60 per hunter |
| `Evaluation.InitialScoreFinite` | src/lib/evaluation.ts:5-46 | the starting board has a finite score |
| `AiWorker.MaxE` | src/workers/aiWorker.ts:102-103 | `Math.max` on numbers with infinities is an upper bound equal to one argument |
| `AiWorker.MinE` | src/workers/aiWorker.ts:116-117 | `Math.min` likewise from below |
| `AiWorker.FailSoftWindow` | src/workers/aiWorker.ts:64-122 | a fail-soft result agrees with the exact value inside the window, lies on the same side outside it, and is exact for the infinite window |
| `AiWorker.GenerateMoves` | src/workers/aiWorker.ts:96 | the searching side's moves come from the wolf or the hunter generator |
| `AiWorker.MovesForOnBoard` | src/workers/aiWorker.ts:96 | every generated move starts and ends on the board |
| `AiWorker.ApplyMove` | src/workers/aiWorker.ts:128-141 | applies a move on a copy: destination, middle cell of a capture, origin; `AiWorker.ApplyMoveAgrees` proves it is `movePiece` for a step and `snipe` for a hunter's capture |
| `AiWorker.ApplyMoveAgrees` | src/workers/aiWorker.ts:128-141 | applying a step is `movePiece`; applying a hunter's capture is `snipe` |
| `AiWorker.ApplyMoveCounts` | src/workers/aiWorker.ts:128-141 | a generated capture removes one wolf; steps keep every count; hunters are never removed |
| `AiWorker.ChildValues` | src/workers/aiWorker.ts:100-119 | one value per move |
| `AiWorker.MaxOf` | src/workers/aiWorker.ts:93-106 | the maximum bounds every value and is one of them |
| `AiWorker.MinOf` | src/workers/aiWorker.ts:107-121 | the minimum bounds every value from below and is one of them |
| `AiWorker.NoTimeoutSplit` | src/workers/aiWorker.ts:75-77 | a stretch of time tests without a timeout is two such stretches back to back |
| `AiWorker.NoTimeoutMeaning` | src/workers/aiWorker.ts:75-77 | in a stretch without a timeout no test reported one |
| `AiWorker.MaxStep` | src/workers/aiWorker.ts:100-105 | raising alpha by the best score so far keeps the running maximum fail-soft |
| `AiWorker.MinStep` | src/workers/aiWorker.ts:114-119 | lowering beta by the best score so far keeps the running minimum fail-soft |
| `AiWorker.MaxLoopStep` | src/workers/aiWorker.ts:100-105 | one iteration of the maximizing loop keeps the result fail-soft against the maximum of the values seen, and a cut-off makes it fail-soft against the maximum of all values |
| `AiWorker.MinLoopStep` | src/workers/aiWorker.ts:114-119 | the same for the minimizing loop |
| `AiWorker.MaxShift` | src/workers/aiWorker.ts:102-103 | raising alpha score by score equals raising it by the best score |
| `AiWorker.MinShift` | src/workers/aiWorker.ts:116-117 | lowering beta score by score equals lowering it by the best score |
| `AiWorker.ValueOfNode` | src/workers/aiWorker.ts:91-121 | a node with moves is worth the maximum, or the minimum, of its children's values |
| `AiWorker.Minimax` | src/workers/aiWorker.ts:64-122 | every call tests the clock; a timeout returns the static score; a finished game scores ±(100000 + depth); depth 0 returns the static score; without a timeout the result is fail-soft against the minimax value |
| `AiWorker.SearchChild` | src/workers/aiWorker.ts:101 | the recursive call for one move is fail-soft against that move's value |
| `AiWorker.MaximizingNode` | src/workers/aiWorker.ts:93-106 | the maximizing branch is fail-soft against the node's value; a side without moves scores -100000 |
| `AiWorker.MaxLoop` | src/workers/aiWorker.ts:100-106 | the loop with beta cut-off is fail-soft against the greatest child value |
| `AiWorker.MinimizingNode` | src/workers/aiWorker.ts:107-121 | the minimizing branch is fail-soft against the node's value; a side without moves scores 100000 |
| `AiWorker.MinLoop` | src/workers/aiWorker.ts:114-120 | the loop with alpha cut-off is fail-soft against the least child value |
| `AiWorker.DangerousIff` | src/workers/aiWorker.ts:143-153 | a move is dangerous exactly when a hunter on one of the four capture offsets can capture the moved piece afterwards |
| `AiWorker.Dangerous` | src/workers/aiWorker.ts:143-153 | after the move some hunter can capture the moved wolf; `AiWorker.DangerousIff` states it as a capture onto the moved piece from one of the four capture directions |
| `AiWorker.IsDangerousForWolf` | src/workers/aiWorker.ts:143-153 | the loops decide whether some hunter can capture the destination after the move |
| `AiWorker.SafeMovesMembers` | src/workers/aiWorker.ts:25-31 | the safe moves are exactly the moves that are not dangerous |
| `AiWorker.FilterSafeMoves` | src/workers/aiWorker.ts:26-28 | the filter keeps the moves that are not dangerous, in order |
| `AiWorker.Candidates` | src/workers/aiWorker.ts:25-31 | there is a root candidate exactly when the side has a move, and every candidate is on the board |
| `AiWorker.CandidatesShape` | src/workers/aiWorker.ts:25-31 | candidates are generated moves, and a wolf never picks a dangerous candidate when a safe move exists |
| `AiWorker.FirstMax` | src/workers/aiWorker.ts:33-59 | the index of the first greatest value: not smaller than any value, strictly greater than every earlier one |
| `AiWorker.RootStep` | src/workers/aiWorker.ts:42-58 | a candidate replaces the best exactly when its exact value is strictly greater, and then its score is that value |
| `AiWorker.SearchCandidate` | src/workers/aiWorker.ts:42-58 | one root pass keeps the best move as the first candidate of greatest value so far, when no timeout occurs |
| `AiWorker.SearchRoot` | src/workers/aiWorker.ts:33-59 | the root loop returns a candidate; without a timeout, the first candidate of greatest value; if time is already up before the first iteration, the first candidate with score minus infinity |
| `AiWorker.ChooseMove` | src/workers/aiWorker.ts:14-62 | no move exactly when the side has none; otherwise a generated candidate, and without a timeout the first candidate of greatest minimax value, with that value as its score; if time is already up at the start, the first candidate with score minus infinity |
| `GameStore.InitialState` | src/store/gameStore.ts:34-44 | the new store satisfies the invariant |
| `GameStore.ResetIsInitial` | src/store/gameStore.ts:46-56 | a reset gives the new store's state with the player's role kept; the game is not over |
| `GameStore.Reset` | src/store/gameStore.ts:46-56 | the initial state keeping the player's role; `GameStore.ResetIsInitial` states it |
| `GameStore.WithRole` | src/store/gameStore.ts:58 | records the player's role only; `GameStore.RoleKeepsVerdict` proves the verdict kept |
| `GameStore.CursorStepMeaning` | src/store/gameStore.ts:280-304 | the cursor moves ±5 or ±1 in the requested direction unless it is on that edge, never leaves the board, and moves at most to an adjacent cell |
| `GameStore.CursorStep` | src/store/gameStore.ts:280-304 | one cursor step, clamped at the border; `GameStore.CursorStepMeaning` and `GameStore.CursorStepOneAxis` state it |
| `GameStore.CursorStepOneAxis` | src/store/gameStore.ts:280-304 | a cursor move changes at most one of row and column, by one |
| `GameStore.AiDepthSchedule` | src/store/gameStore.ts:199-200 | depth 6 above twelve wolves, 5 from seven to twelve, 4 otherwise; monotone in the wolf count; 6 at the start |
| `GameStore.AiDepth` | src/store/gameStore.ts:199-200 | the search depth from the wolf count; `GameStore.AiDepthSchedule` states the schedule and its monotonicity |
| `GameStore.SelectConsistent` | src/store/gameStore.ts:58-93 | choosing a role or selecting a piece keeps the store's invariant |
| `GameStore.MovesConsistent` | src/store/gameStore.ts:95-164 | moveHunter, hunterSnipe and executeMovePiece keep the invariant |
| `GameStore.AIMoveConsistent` | src/store/gameStore.ts:166-191 | makeAIMove keeps the invariant |
| `GameStore.CursorConsistent` | src/store/gameStore.ts:280-304 | moveCursor keeps the invariant |
| `GameStore.ConfirmConsistent` | src/store/gameStore.ts:306-344 | confirmMove keeps the invariant |
| `GameStore.RoleKeepsVerdict` | src/store/gameStore.ts:58 | choosing a role keeps the game-over flags matching the board |
| `GameStore.SelectKeepsVerdict` | src/store/gameStore.ts:60-93 | selecting a piece keeps the game-over flags matching the board |
| `GameStore.CursorKeepsVerdict` | src/store/gameStore.ts:280-304 | moving the cursor keeps the game-over flags matching the board |
| `GameStore.CommitKeepsVerdict` | src/store/gameStore.ts:98-134 | an applied move takes its game-over flags from the new board |
| `GameStore.MovesKeepVerdict` | src/store/gameStore.ts:95-164 | player moves keep the game-over flags matching the board |
| `GameStore.ConfirmKeepsVerdict` | src/store/gameStore.ts:306-344 | confirmMove keeps the game-over flags matching the board |
| `GameStore.AIMoveKeepsVerdict` | src/store/gameStore.ts:166-191 | the AI's move keeps the game-over flags matching the board |
| `GameStore.SelectionConsistent` | src/store/gameStore.ts:72-90 | selecting one's own piece lists only cells of the board |
| `GameStore.SelectOnlySelects` | src/store/gameStore.ts:60-93 | selection does nothing once the game is over and never touches the board, the turn, the verdict, the role or the cursor |
| `GameStore.Select` | src/store/gameStore.ts:60-93 | selection only; `GameStore.SelectOnlySelects`, `GameStore.SelectListsLegalMoves` and `GameStore.SelectConsistent` state it |
| `GameStore.SelectListsLegalMoves` | src/store/gameStore.ts:72-90 | a selected hunter lists exactly its legal steps and captures; a selected wolf lists exactly its legal steps and no capture |
| `GameStore.MoveHunterGuarded` | src/store/gameStore.ts:95-137 | moveHunter changes the store only for a listed target on the hunters' turn, capturing listed capture targets and stepping otherwise |
| `GameStore.MoveHunterStep` | src/store/gameStore.ts:95-137 | the hunter's move from the selection; `GameStore.MoveHunterGuarded` and `GameStore.CommitPassesTurn` state it |
| `GameStore.HunterSnipeIsCaptureOnly` | src/store/gameStore.ts:139-164 | hunterSnipe is moveHunter restricted to capture targets |
| `GameStore.HunterSnipeStep` | src/store/gameStore.ts:139-164 | the hunter's capture; `GameStore.HunterSnipeIsCaptureOnly` states it |
| `GameStore.ExecuteAgreesWithMoveHunter` | src/store/gameStore.ts:211-278 | with a hunter selected it is moveHunter; a wolf moves only for a wolf player on the wolves' turn by a listed step |
| `GameStore.ExecuteStep` | src/store/gameStore.ts:211-278 | the shared move path for both roles; `GameStore.ExecuteAgreesWithMoveHunter` states it |
| `GameStore.CommitPassesTurn` | src/store/gameStore.ts:98-134 | after an applied move the selection is cleared, the verdict is the new board's, and the turn passes unless the game ended |
| `GameStore.AppliedMovesPassTurn` | src/store/gameStore.ts:95-278 | every move the store applies for the player hands the turn to the other side |
| `GameStore.AIMoveGuarded` | src/store/gameStore.ts:166-191 | the AI's move is ignored unless it is the wolves' running turn, and otherwise applies the capture or step with the new board's verdict, keeping the selection |
| `GameStore.AIMoveStep` | src/store/gameStore.ts:166-191 | applies the chosen wolf move on the wolves' turn; `GameStore.AIMoveGuarded` states it |
| `GameStore.ConfirmAgrees` | src/store/gameStore.ts:306-344 | confirming on one's own unselected piece is selectPiece; confirming on a listed target is executeMovePiece |
| `GameStore.ConfirmStep` | src/store/gameStore.ts:306-344 | confirms at the cursor by selecting or moving; `GameStore.ConfirmAgrees` states it |
| `GameStore.Store.constructor` | src/store/gameStore.ts:34-44 | the new store holds the initial state and its invariant |
| `GameStore.Store.ResetGame` | src/store/gameStore.ts:46-56 | the fields become the reset state, with the invariant |
| `GameStore.Store.SetPlayerRole` | src/store/gameStore.ts:58 | only the role changes |
| `GameStore.Store.SelectPiece` | src/store/gameStore.ts:60-93 | the fields become the selection transition's state, with the invariant |
| `GameStore.Store.CommitMove` | src/store/gameStore.ts:98-134 | the fields become the applied-move state |
| `GameStore.Store.MoveHunter` | src/store/gameStore.ts:95-137 | the fields become the moveHunter transition's state, with the invariant |
| `GameStore.Store.HunterSnipe` | src/store/gameStore.ts:139-164 | the fields become the hunterSnipe transition's state, with the invariant |
| `GameStore.Store.MakeAIMove` | src/store/gameStore.ts:166-191 | the fields become the AI-move transition's state, with the invariant |
| `GameStore.Store.ExecuteMovePiece` | src/store/gameStore.ts:211-278 | the fields become the executeMovePiece transition's state, with the invariant |
| `GameStore.Store.MoveCursor` | src/store/gameStore.ts:280-304 | only the cursor changes, by the clamped step, with the invariant |
| `GameStore.Store.ConfirmMove` | src/store/gameStore.ts:306-344 | the fields become the confirmMove transition's state, with the invariant |

## Left out

- The worker's messaging (`onmessage`, `postMessage`) is reduced to the method `AiWorker.ChooseMove`: its arguments are the message and its results are the reply.
- `Date.now()` and the 800 ms budget are not modelled. Each time test reads an oracle `expired`, indexed by the number of tests made so far. With no timeout the search is exact; with a timeout only the shape of the answer is promised.
- The two per-role evaluators the worker imports, `evaluateWolfPerspective` and `evaluateHunterPerspective`, are not defined in `src/lib/evaluation.ts`, which defines only `evaluateBoard`. They are parameters of the search, and nothing about them is assumed.
- Scores are exact integers and reals, not floating point. The only non-finite score the evaluation can produce, NaN (0/0 with no wolves), is a separate value.
- `src/store/aiStore.ts` is not part of this model: the worker's lifecycle, the timeout race and the fallback. Neither is `triggerAIMove`'s asynchronous flow with its `isThinking` flag; only its depth rule (`GameStore.AiDepth`) is modelled.
- Vibration feedback, rendering and the role-selection screen are presentation and are left out.
- `AiWorker.ApplyMove`: requires both cells of the move to be on the board. Every move the generators produce is on the board (`AiWorker.MovesForOnBoard`).
- `GameStore.Store.MakeAIMove`: requires both cells of the move to be on the board, for the same reason. A move from elsewhere, which would write outside the array in the source, is not modelled.
- `GameStore.MoveHunterStep`, `GameStore.HunterSnipeStep`, `GameStore.ExecuteStep` and `GameStore.ConfirmStep` require the store's invariant, which every reachable store satisfies.
- `Snipe.GetAllHunterSnipes`: returns a Dafny map. The insertion order of the source's `Map` is not modelled.
- `AiMoves.OrderMoves`: is proved to be a sorted permutation, but not to be stable.
- The `currentAlpha` of the root loop is always equal to the best score so far, so the model searches each candidate with the best score as alpha.
- `selectPiece` and `confirmMove` compute the capture targets inline. The model calls `getPossibleSnipes` instead, whose list is the same (`Snipe.PossibleSnipesExact`).
- The zustand `set`/`get` machinery is replaced by methods that update the store's fields in place.
- The store's invariant `Valid()` does not include the agreement between the game-over flags and the board. That agreement is stated per transition by the `...KeepsVerdict` lemmas.
