# Verified models of the chess search, the history checkers and the rainfall kernels

This project models three parts of the repository in Dafny and proves what they promise, for all
inputs.

**The parallel game-tree search** (`project3/src/main.cpp`). The same fixed-depth score is computed
by a recursive alpha-beta search, by exhaustive minimax, by a root split with or without a seed
bound, by a frontier of independent tasks, by a stack machine over a flattened tree, and by a
hybrid that puts alpha-beta above flattened chunks. The model proves that all of them return the
same score and the same move, what each of them counts, how those counts are ordered, how little a
pruned search can visit on a uniform tree and exactly when it does so, and that neither the number
of ranks nor the schedule of the threads matters.

**The session-guarantee checkers** (`src/project1/checker.py`). Each one-pass algorithm is proved
to return exactly the verdict of a definition that compares every pair of events.

**Numeric and sequence kernels** (`project2`). Midrank AUC, cumulative-sum CRPS, the F1 threshold
sweep, rain events, repeated-flag spans and stuck-at-zero runs are each proved against a plain
definition.

## How the search is modelled

A position carries its board and an unspecified `state` (castling rights, clocks, repetition
history). The rules are a record of functions (`Rules`: legal moves, playing a move, check, drawn),
and every theorem holds for every such record. A `Board` is changed in place by `MakeMove` and put
back by `UnmakeMove`, which pops what `MakeMove` pushed; that the pair is inverse is thus a property
of `Board` rather than of chess. The specification is the game tree of a position (`GameTree`), built
with the program's order of tests: no moves, then drawn, then depth zero. `Value` is its exact
negamax value. The static evaluation is modelled in full, and its bound of 57600 is proved.

`Score` and `Count` say what the pruned search returns and counts on a tree; the methods are proved
equal to them, and the theorems are about them. `Answers` says what a root search has to return: the
exact value, with the least index of a best move, or -1 when there is no move to choose.
`AnswersAreUnique` makes it a single answer, so two searches that both satisfy it agree.

Exceptions are results (`TooLarge`, `Refused`, `None`, `false`), with the exact condition under which
they occur. The options allow depths from 1 to 12, well within `InRange`, which only asks that a mate
score stays inside the infinities.

`ValueTellsMate` gives the scores their meaning in terms of the rules alone. It needs evaluations below the
mate scores; the bound of 57600 on the evaluation is above `MATE`, so a position with that much material
would be scored like a mate.

## Exact conditions

- A uniform tree is searched with the fewest possible leaves if and only if it has one move everywhere
  or is well ordered: a best move first along the leftmost path (where it does not lead straight to a
  leaf), and every other move refuted by its first reply (`BoundMetExactly`). A best move first at
  every node is sufficient (`FirstIsBestIsWellOrdered`) but not necessary: in the game of
  `FirstIsBestIsNotNecessary` the search tries a stalemate before a mate in one and still visits the
  fewest leaves.
- The test that compares the number of covered effect indices with the number of candidates succeeds
  if and only if every candidate is confirmed and no two effects carry the same index
  (`CountingIsExact`). `SharedIndexFails` is a history in which every candidate is confirmed and the
  test fails; indices equal to positions rule it out (`PositionedIsDistinct`).
- The sweep returns the largest threshold of greatest F1 if and only if some row is positive
  (`SelectF1Threshold`); without one, every threshold has the same F1.
- The docstring of `event_table` says that wet readings are chained while less than an hour apart. The
  code chains over gaps up to and including 3900 seconds, and the model follows the code.

## Model

| member | source | states |
|---|---|---|
| `Chess.StaticIsBoundedAndZeroSum` | project3/src/main.cpp:32-45 | the evaluation of any board is within 64 times 900 and changes sign with the side to move |
| `Chess.StaticByPieces` | project3/src/main.cpp:32-45 | from White's side the evaluation is the difference in pawns, knights, bishops, rooks and queens at 100, 320, 330, 500 and 900, and from Black's side its negative |
| `Chess.Evaluate` | project3/src/main.cpp:37-45 | the loop over the squares computes the material sum from the mover's side |
| `Chess.GameTreeIsSound` | project3/src/main.cpp:51-71 | every node of a game tree has a score strictly inside the infinities, mates included, and inner nodes have moves |
| `Chess.ValueInRange` | project3/src/main.cpp:51-82 | the exact value lies strictly inside the infinities |
| `Mates.ValueTellsMate` | project3/src/main.cpp:57-81 | with evaluations smaller than the mate scores: the value is at least that of mate in n plies if and only if the side to move can force mate within n, and at most that of being mated in n if and only if it cannot avoid it |
| `Mates.FastestMate` | project3/src/main.cpp:127-131 | a root search that can force mate answers the first move of a fastest mate, and the score says in how many plies |
| `Mates.SlowestLoss` | project3/src/main.cpp:127-131 | a root search that cannot avoid mate answers a move that puts it off longest |
| `Mates.LevelIsZero` | project3/src/main.cpp:56-68 | where nobody can be mated and the material is level at the horizon, the value is zero, whatever stalemates and draws are on the way |
| `AlphaBeta.Negamax` | project3/src/main.cpp:51-82 | returns the score of the tree for the window, counts its nodes, leaves and cutoffs, and leaves the board as it was on every path, cutoffs included |
| `AlphaBeta.SearchIsFailSoft` | project3/src/main.cpp:69-81 | at most alpha is an upper bound, at least beta a lower bound, in between exact |
| `AlphaBeta.FullIsExact` | project3/src/main.cpp:116 | over the whole range pruning does not change the value |
| `AlphaBeta.CutoffsAreEarlyOrLate` | project3/src/main.cpp:76-79 | a recursive search's cutoffs are those with moves left plus those on a node's last move |
| `Counting.SizeIsWholeTree` | project3/src/main.cpp:53-68 | without pruning the nodes are all positions of the tree, the leaves those that end the search, and there is no cutoff |
| `Counting.CutoffsAreFailHighs` | project3/src/main.cpp:75-79 | the cutoffs are the visited inner nodes that return at least their beta |
| `Counting.EarlyCutoffsSkip` | project3/src/main.cpp:75-79 | early cutoffs are at most the nodes skipped, and there is none if and only if nothing is skipped |
| `Counting.ScoreIsReached` | project3/src/main.cpp:69-81 | every window's result is the score of some line of play, also outside the window |
| `Windows.NarrowerIsCheaper` | project3/src/main.cpp:69-81 | a window inside another visits no more nodes and no more leaves |
| `Windows.WideAlphaStaysBelow` | project3/src/main.cpp:73-75 | the wider search's alpha never overtakes the narrower one's while that goes on |
| `Windows.PruningNeverCosts` | project3/src/main.cpp:75-79 | pruning never visits more than the whole tree |
| `Windows.RootSplitsCostMore` | project3/src/main.cpp:169-176 | serial counts at most what the seeded root counts, and that at most what the full-window root split counts |
| `Counting.SeededIsSerial` | project3/src/main.cpp:151-176 | when the first move is best, the seeded root counts exactly what the serial search counts, in every counter |
| `Windows.DeeperFrontierCostsMore` | project3/src/main.cpp:276-290 | splitting one level deeper never counts less |
| `Windows.DeepFrontierIsExhaustive` | project3/src/main.cpp:286-290 | a frontier as deep as the tree counts exactly what minimax counts, in every counter |
| `Windows.WorkOrdering` | project3/src/main.cpp:112-318 | serial, seeded root, root split, frontiers by depth and minimax are ordered by nodes and by leaves, for every position, depth and split; where the root has no moves or is drawn, all counts are equal |
| `Pruning.LeavesNeeded` | project3/src/main.cpp:69-81 | on a uniform tree, for every window, the leaves that a lower, an upper and an exact result cost at least |
| `Pruning.LeafBounds` | project3/src/main.cpp:69-81 | the serial search visits at least b^ceil(d/2) + b^floor(d/2) - 1 leaves and at most b^d |
| `Pruning.RefutedIsCheapest` | project3/src/main.cpp:76-79 | a node that reaches beta costs the least exactly when its first move reaches beta and is itself held cheaply |
| `Pruning.BoundMetExactly` | project3/src/main.cpp:69-81 | the lower bound is met if and only if there is one move everywhere or the tree is well ordered |
| `Pruning.FirstIsBestIsWellOrdered` | project3/src/main.cpp:69-81 | a best move first at every node suffices for the bound |
| `Pruning.FirstIsBestIsNotNecessary` | project3/src/main.cpp:69-81 | the tree of a concrete game and position meets the bound with its better move second |
| `FlatTree.FlatTree.BuildNode` | project3/src/main.cpp:357-386 | succeeds exactly when the tree fits, never grows beyond the limit or its first size, writes the tree below its slot, changes no other slot, and restores the board |
| `FlatTree.FlatTree.BuildChildren` | project3/src/main.cpp:376-385 | all children get neighbouring slots first, and building one disturbs no finished sibling |
| `FlatTree.BuiltForest` | project3/src/main.cpp:340-386 | links go forward and stay in bounds, every slot but the roots has exactly one parent, roots have none, and the array decodes to the trees it was built for |
| `FlatTree.LeavesAreSlots` | project3/src/main.cpp:366-374 | every stored leaf board belongs to exactly one slot, and every leaf index to a stored board |
| `FlatTree.ShownDecodes` | project3/src/main.cpp:357-386 | reading a written block back gives the tree that was written |
| `Device.DeviceEvaluate` | project3/src/main.cpp:390-408 | the device evaluation of a snapshot is the host's static score |
| `Device.TurnOfLoop` | project3/src/main.cpp:426-450 | one turn of the machine does one step of the recursive search, for every counter |
| `Device.PushTurn` | project3/src/main.cpp:445-449 | opening a child keeps what the machine will return and count, uses up a step, and stays within the tree's height |
| `Device.PopTurn` | project3/src/main.cpp:429-443 | closing a frame keeps what the machine will return and count, and closing the last one returns it |
| `Device.DeviceSearch` | project3/src/main.cpp:418-452 | terminates; returns the recursive score with its visits and leaves and its cutoffs less those on a last child; the cutoffs are at most the nodes skipped and zero if and only if none is; the stack never holds more than the tree's height and fits the fixed array |
| `Schedule.RankIndependence` | project3/src/main.cpp:193-219 | for every deal to every number of ranks, the sums and maxima of the merged slots are those of one process |
| `Schedule.RoundRobinTurns` | project3/src/main.cpp:170 | the deal gives task i below the number of ranks to rank i and then starts over |
| `Threads.RunInv` | project3/src/main.cpp:151-176 | in every state of every run, with or without a seed, a slot holds its own task's outcome once that task is written, in the rank it was dealt to, and its filler or the broadcast seed otherwise; nothing is written twice |
| `Threads.EveryScheduleAgrees` | project3/src/main.cpp:151-219 | in every run that has come to a stop, with or without a seed, every task was run exactly once and the reductions give what one process computes |
| `Threads.EveryScheduleEnds` | project3/src/main.cpp:169-176 | no run makes more than two steps a task |
| `Parallel.SolvedAboveFiller` | project3/src/main.cpp:146 | a computed score is strictly above the filler, so the maximum picks it |
| `Parallel.RunTask` | project3/src/main.cpp:171-175 | an independent search returns its task's outcome |
| `Parallel.RunTasks` | project3/src/main.cpp:168-176 | whatever the order, each task is written in its own rank's slot and nothing else changes |
| `Parallel.MaxReduce` | project3/src/main.cpp:193-195 | the combined scores are the maxima over the ranks |
| `Parallel.SumReduce` | project3/src/main.cpp:208-218 | the counters are the sums over moves and ranks |
| `Root.AnswersAreUnique` | project3/src/main.cpp:84-86 | there is one right score and one right move index |
| `Root.SelectStep` | project3/src/main.cpp:203-207 | the strict comparison keeps the first best move although scores that do not beat the best so far are only upper bounds |
| `Root.ExactWhenBetter` | project3/src/main.cpp:127-129 | with the best score so far as bound, a better score is exact |
| `Root.SerialSearch` | project3/src/main.cpp:112-139 | answers the root with and without pruning, and counts exactly what the recursive search of the root counts |
| `ParallelRoot.SeedBoundIsSafe` | project3/src/main.cpp:151-176 | a move truly better than the seed gets its exact score, any other a score between its value and the seed |
| `ParallelRoot.SumOfMoveOutcomes` | project3/src/main.cpp:208-212 | the moves' counts and the root add up to the count of the seeded or plain split |
| `Schedule.MergedScores` | project3/src/main.cpp:166-195 | also with the seed sent to every rank, the reduced scores are one process's scores |
| `Schedule.MergedSums` | project3/src/main.cpp:208-219 | also with the seed sent to every rank, the reduced counters are one process's counters |
| `ParallelRoot.RootSearch` | project3/src/main.cpp:141-230 | for any number of ranks, seeded or not, answers the root and counts what that split counts |
| `Frontier.Frontier.Build` | project3/src/main.cpp:244-265 | succeeds exactly when the frontier fits, lays out the expanded part, and stores the frontier positions with their plies in order |
| `FrontierSearch.Combine` | project3/src/main.cpp:267-274 | terminates because links go forward, and computes the combined score |
| `FrontierSearch.CombinedIsValue` | project3/src/main.cpp:267-274 | from exact task scores the combined score is the exact value of the frontier's root |
| `FrontierSearch.NodesMinusTasks` | project3/src/main.cpp:318 | slots less tasks are exactly the expanded positions |
| `FrontierSearch.TasksAreSlots` | project3/src/main.cpp:244-253 | every stored position is the task of exactly one slot, and every task index belongs to a stored position |
| `FrontierSearch.FrontierAddsUp` | project3/src/main.cpp:312-318 | the tasks' counts and the expanded positions add up to the count of the split |
| `FrontierSearch.TasksMerge` | project3/src/main.cpp:284-299 | for any number of ranks the reduced scores and counters are those of the tasks |
| `FrontierSearch.Search` | project3/src/main.cpp:276-336 | refused exactly when the frontier is too large; otherwise answers the root for every split and every number of ranks, with the count of that split |
| `Gpu.BuildRoots` | project3/src/main.cpp:533-540 | one tree per root move in one array, which decodes to those trees; fails exactly when one does not fit |
| `Gpu.GpuSearch` | project3/src/main.cpp:525-585 | refused exactly when too deep, over, too large or not on a required device, with the first of these reasons; otherwise answers the root with the root split's visits and leaves and its early cutoffs, which are zero if and only if nothing was skipped |
| `Chunked.ChunkIsFailSoft` | project3/src/main.cpp:591-665 | the fail-soft contract holds for the hybrid, with exact scores from the chunks whatever their window |
| `Chunked.ChunkedNegamax` | project3/src/main.cpp:591-665 | fails exactly when a chunk it reaches does not fit; otherwise returns and counts what the hybrid search of the tree does, and restores the board |
| `Chunked.SearchChunk` | project3/src/main.cpp:620-664 | builds a chunk and searches it on the device: exact value, visits, leaves and early cutoffs |
| `ChunkCounting.WholeChunkCutoffs` | project3/src/main.cpp:655-663 | a chunk's cutoffs are at most the nodes it skips, and zero if and only if it skips none |
| `ChunkCounting.ChunkCutoffsAreFailHighs` | project3/src/main.cpp:602-616 | the hybrid's cutoffs are the host's nodes that return at least their beta and the cutoffs inside the chunks |
| `Chunked.ChunkedWorkOrdering` | project3/src/main.cpp:587-590 | nodes and leaves of the hybrid lie between those of the serial search and those of minimax |
| `ChunkCounting.RootWithoutCutoffs` | project3/src/main.cpp:687-697 | a chunked search without cutoffs has visited the whole tree |
| `ChunkCounting.ChunksRightBelowRoot` | project3/src/main.cpp:591-593 | with chunks right below the root, the hybrid counts what a frontier of two levels counts, with the device's cutoffs |
| `Chunked.ChunkedSearch` | project3/src/main.cpp:667-700 | answers the root, counts what the hybrid counts, and is refused exactly on its error conditions, with the first of them as reason |
| `Sessions.CheckReadYourWrites` | src/project1/checker.py:44-69 | the whole verdict: the status of the definition by pairs, and as evidence the first read that goes backward with the earliest write of greatest version before it |
| `Sessions.CheckMonotonicReads` | src/project1/checker.py:72-96 | the whole verdict: the status of the definition by pairs, although only the last read is remembered, and as evidence the first read that goes backward with the last read before it |
| `Sessions.OneIsEnough` | src/project1/checker.py:51-63 | an event completes a backward pair exactly when it is behind the one remembered operation |
| `Sessions.FirstIsUnique` | src/project1/checker.py:60-68 | no other pair satisfies the definition of the evidence |
| `Sessions.ViolationHasFirst` | src/project1/checker.py:60-68 | every violation has such a pair |
| `Sessions.AppendingKeepsViolations` | src/project1/checker.py:44-96 | whatever is appended to a violating history, the verdict is equal, evidence included |
| `Sessions.ReorderingKeepsStatus` | src/project1/checker.py:44-96 | no reordering that keeps each client's operations on each key in order changes the verdict |
| `History.Finish` | src/project1/checker.py:25-41 | a pass exactly when the observations are complete and no write, read, probe, partition or stop failed; otherwise inconclusive, without evidence |
| `Dependencies.FindDependencies` | src/project1/checker.py:99-120 | the list of effects with their last justified causes, in order |
| `Dependencies.ListIsExact` | src/project1/checker.py:103-119 | a pair is listed if and only if the cause is the last earlier operation that justifies the effect |
| `Dependencies.CountingIsExact` | src/project1/checker.py:148-151 | as many covered indices as candidates means that every candidate is confirmed and no two share an index |
| `Dependencies.SharedIndexFails` | src/project1/checker.py:148-151 | a concrete history in which all is confirmed and the count differs because two effects share an index |
| `Dependencies.CheckProbes` | src/project1/checker.py:123-154 | the whole verdict: the status of the definition over probes and candidates, and as evidence the first exposed cause, its effect and the probe |
| `Dependencies.FirstExposedIsEvidence` | src/project1/checker.py:126-147 | the first exposed pair is unique and determines the evidence |
| `Dependencies.ProbeVerdictIsExact` | src/project1/checker.py:99-154 | with indices equal to positions: a violation exactly when some probe shows an effect without its last cause; a pass exactly when there is none, something to check, all confirmed and all succeeded |
| `Dependencies.AppendingKeepsExposure` | src/project1/checker.py:99-154 | with indices equal to positions, whatever is appended to a violation by probes, the verdict is equal, evidence included |
| `Dependencies.AppendingKeepsVerdicts` | src/project1/checker.py:157-204 | the same for both checkers on histories with a probe |
| `Dependencies.CheckOrder` | src/project1/checker.py:179-191 | remembering one write per client finds a reversed pair exactly when the order has any: the one that is completed first, with its client's last write before it |
| `Dependencies.CheckMonotonicWrites` | src/project1/checker.py:157-198 | the whole verdict: by probes when there are any, and otherwise over the synthetic audits, with the first reversal of the first audit that has one as evidence |
| `Dependencies.WritesAreLast` | src/project1/checker.py:163-167 | the table holds exactly the identities of the recorded writes, each with its last one |
| `Dependencies.OrderVerdictIsExact` | src/project1/checker.py:157-198 | without probes, over the events alone: a violation exactly when a synthetic audit that lists every recorded identity, at least two, lists two of one client whose last writes are the other way round; a pass exactly when there is none, such an audit, and all succeeded |
| `Dependencies.FirstAuditIsEvidence` | src/project1/checker.py:168-191 | that reversal is unique and determines the evidence |
| `Dependencies.CheckWritesFollowReads` | src/project1/checker.py:201-242 | the whole verdict: by probes when there are any, and otherwise over the synthetic observers, with the first miss by candidate, sighting and read as evidence |
| `Dependencies.FirstMissIsEvidence` | src/project1/checker.py:208-235 | that miss is unique and determines the evidence |
| `Auc.AucIsPairwise` | project2/experiments/distributional/evaluate.py:26-33 | times the number of positive-negative pairs, the midrank form is the pairs won plus half the pairs tied, for all scores with ties |
| `Auc.MidRankCounts` | project2/experiments/distributional/evaluate.py:28-31 | a midrank is a half plus the row's points against all rows |
| `Auc.PositivesShare` | project2/experiments/distributional/evaluate.py:32-33 | positives among themselves share half of all their pairs |
| `Crps.ByParts` | project2/experiments/distributional/evaluate.py:77-79 | summation by parts for two cumulative sums |
| `Crps.GiniIsMeanDistance` | project2/experiments/distributional/evaluate.py:78-79 | the single cumulative sum equals the double sum of w_i w_j abs(x_i - x_j) |
| `Crps.EabsIsDistance` | project2/experiments/distributional/evaluate.py:80-82 | the prefix-sum form equals the sum of w_i abs(x_i - y) for every y, also below or above all values |
| `Crps.ScoreIsDefinition` | project2/experiments/distributional/evaluate.py:76-83 | the weights add up to one, and the score is the mean distance to y less half the mean distance of two draws |
| `Crps.ScoreIsSampleScore` | project2/experiments/distributional/evaluate.py:76-83 | without weights: the score is that of the sample, in which every value occurs as often as it was counted |
| `Threshold.OneMoreBin` | project2/scripts/select_decision_threshold.py:65-67 | a bin adds its rows to the confusion counts at the bin above |
| `Threshold.F1IsFraction` | project2/scripts/select_decision_threshold.py:42-47 | the F1 of precision and recall is the sweep's single fraction, with its zero cases |
| `Threshold.F1IsPerfect` | project2/scripts/select_decision_threshold.py:42-47 | F1 is between zero and one, and one exactly when something is predicted and nothing is wrong or missed |
| `Threshold.NextOccupied` | project2/scripts/select_decision_threshold.py:53-57 | a threshold in an empty bin does what the next occupied bin does, or predicts nothing |
| `Threshold.SelectF1Threshold` | project2/scripts/select_decision_threshold.py:50-72 | nothing for no rows; otherwise the F1 that the confusion counts give at the returned threshold, greatest among all multiples of a thousandth, and the largest of those if and only if some row is positive |
| `Runs.StretchIsGroup` | project2/scripts/eda_patterns.py:71-74 | rows grouped by a running count of marks: a stretch without a mark, cut off by marks, is one group |
| `Runs.GroupIsStretch` | project2/scripts/eda_patterns.py:71-74 | every non-empty group is such a stretch |
| `Runs.GroupsPartition` | project2/scripts/eda_patterns.py:73-76 | the groups' totals add up to the total: nothing is lost or counted twice |
| `Events.EventTableIsExact` | project2/scripts/eda_patterns.py:63-78 | the events are exactly the maximal chains of wet readings with gaps up to 3900 s, with their ends, depth and counts, each once and in order |
| `Rainfall.EventTableIsRain` | project2/scripts/eda_patterns.py:63-78 | over the readings alone: the events run from a wet reading to another, each with the next at most 3900 s away and none that near outside, with the rain, wet readings and readings in between, and complete exactly when every slot was observed |
| `Events.CompleteIsEverySlot` | project2/scripts/eda_patterns.py:77 | the row numbers span a full count if and only if every slot in between was observed |
| `Events.CompleteEvents` | project2/scripts/eda_patterns.py:65-77 | an event is marked complete if and only if the station reported every slot from its first to its last |
| `Events.DepthIsConserved` | project2/scripts/eda_patterns.py:73-74 | the events' depths add up to all wet rain |
| `QualityControl.RepeatSpans` | project2/src/rainfall_project/qc.py:161-178 | for every limit and least number of days: exactly the maximal chains of flagged days with enough days, by station and more than the limit apart |
| `QualityControl.Closed` | project2/src/rainfall_project/qc.py:174-177 | closing a chain reports it exactly when it is long enough and loses no other |
| `QualityControl.DaysAreFlagged` | project2/src/rainfall_project/qc.py:163-165 | a station's list holds exactly its flagged days |
| `QualityControl.StuckZeroRunsAreExact` | project2/src/rainfall_project/qc.py:136-147 | for every choice of limits: exactly the stretches of zero days cut off by rain that have enough days with wet neighbours, with their ends and counts, each once and in order |

## Left out

- Move generation, FEN, check and draw detection: the chess header is not in the repository; they are the functions of `Rules`. That `unmakeMove` undoes `makeMove` is built into `Board`.
- MPI, OpenMP and device transport, memory copies, timers, device probing and `profile_device_batch`: plumbing; the assignment of tasks, the broadcast of the seed and the reductions are modelled. Whether a target region ran on a device is an argument.
- The result fields that only report (`tree_nodes` outside the frontier, `gpu_chunks`, `rank_nodes`, `seed_nodes`, all times and byte counts): they influence no result.
- 64-bit counter overflow, the width of indices, and floating-point rounding: naturals, integers and exact reals instead.
- Command-line parsing and printing: only the bounds on depth, split and chunk appear, as preconditions.
- Parallel.RunTasks: the shared loop is one loop that takes rank-task pairs in an arbitrary order; interleavings of steps are in `Threads`, on values.
- FlatTree.FlatTree.BuildNode: the vectors are sequence fields that the methods reassign, so aliasing of their storage is not modelled.
- Device.DeviceSearch: the counters are results instead of pointers; the depth limit appears as a bound on the tree's height, which `Windows.GameTreeHeight` shows for every built tree.
- The text of verdict reasons, property names, and the dispatcher `check`; operations and statuses outside the checkers' tests are one constructor or a flag.
- Dependencies.AppendingKeepsExposure: stated for histories whose indices are positions, as recorded histories are; otherwise a later effect with a small index could pair with an earlier probe.
- Crps.ScoreIsDefinition: from the distinct values and their counts on; that these come from the training sample by sorting, and the lattice likelihood beside it, are not part of this model.
- Auc.AucIsPairwise: the sort is a stable insertion sort; only its result matters.
- Threshold.SelectF1Threshold: grouping and ordering of the bins by the query engine are functions; thresholds are counted in thousandths.
- Events.EventTableIsExact: for one station, whose readings come in slot order, one a slot, on the five-minute grid, as the slot table provides; peak, duration, calendar columns and the rounding of depths are left out.
- QualityControl.RepeatSpans: station identifiers are integers in their sort order, and the sorted distinct days are a function.
- QualityControl.StuckZeroRunsAreExact: for one station in day order; the two columns that sum and maximise neighbour medians are left out, as are the other rules of the quality control.
- Spark fitting, neural training, distributions with special functions, plotting, cluster control and the experiment drivers: unseen libraries or input and output.
