# futcache: verified models of its exact parts

futcache is a library of novelty caches: given a stream of points, it reports whether each one is
farther than epsilon from everything seen before, and keeps what it has seen in bounded memory.
This project models the parts of the repository that promise something exact, in the form the code
has (classes, pointer structures, arrays and loops where it has them), and proves those promises.

- **The instrumented CDCL engine.** `Cnf`, `CdclState`, `CdclWatches`, `CdclAnalysis`, `CdclSteps`
  and `CdclResults` hold the invariants and one lemma for every branch of the engine; `CdclUip` says
  which cut of the implication graph is learned; `Cdcl` is the engine as a class over its trail, watch
  lists and clause database; `Luby` is its restart sequence.
  The engine watches the first two literals of a learned clause without choosing a highest level
  for the second, so the usual watch invariant is false. What is kept is weaker: no clause has both
  watches processed as false (`CdclWatches.Live`). It is suspended while a conflict is pending and
  restored by the backjump.
- **The one-dimensional interval cache.** `Numbers` has exact reals and ordered grids of representable
  values with round-to-nearest; `Intervals` canonical interval lists; `Avl` the tree on values;
  `AvlNodes` the same tree as linked nodes rotated in place; `IntervalSpec` the oracle and what a
  history means; `IntervalCache` the cache. `BoxList` is the append-only box engine and `Lockstep`
  drives both with the same calls, on exact reals and on representable numbers, and `DoubleRuns` has two
  runs in binary64 on which rounding shows.
- **Snapshots.** `Bytes`, `Crc32` (the CRC-32 of section 8 of RFC 1952), `Gf2` (the same as a remainder
  of polynomials), `Doubles` (binary64 as a grid), `Snapshot` (the version 1 format on values, and its
  layout byte for byte) and `Persistence` (writing and reading it over the tree).
- **The Voronoi CRDT and its fleet.** `Cells` is the join-semilattice, `Crdt` the cache, `Gossip` the
  replicas as a state machine over observation, sending, delivery, injection and clearing, `Replicas`
  the caches driven through it, `Peers` the sampling of gossip peers, `FleetSpec`, `FleetRuns` and `Fleet` the
  fleet benchmark, `FleetGrid` its anchors.
- **Geometric certificates.** `Metrics`, `Grid`, `Anchors` and `Embed`.
- **Supporting algorithms.** `Recency` and `Lru` (the linked-list-and-hash cache), `Arithmetic`,
  `PrimeNumbers` and `PrimeTables` (both prime generators), `Padic`.

`Wrappers` has the option type, `Telemetry` the status codes and saturating counters.

## How the model reads the code

- Every public call is one atomic step. A failed allocation is a parameter of the call (`allocOk`,
  a count of allocations, or one answer for each update), with the outcome the code gives it.
- Pointers that the code requires to be non-null are ordinary parameters. A point with a missing or
  non-finite coordinate is a point of the wrong length, which draws the same status.
- Callbacks are function values: the distance, the hash behind a CRDT priority, the hash of the LRU
  keys, the square root (anything that behaves like one) and the random draws.
- The residual that TwoSum computes in `make_epsilon_ball` is taken to be the exact rounding error.
- Where code and comments disagree, the code is modelled. (1) `src/crdt.c` and its header call the
  merge commutative; it is so exactly without ties (`Cells.MergeCommutesIffNoTie`). (2) The header
  comment of `src/box.c` says that only novel points store a box, and that the box count is the number of
  novel observations; every observation stores one (`BoxList.BoxCache.CountIsNovelIff`,
  `BoxList.ObserveTwice`). (3) The fleet
  comment promises ceil(1 / epsilon) cells and points of one cell within epsilon; the code makes half as
  many cells, and the promise holds only for a domain no wider than epsilon (`FleetGrid.FleetContractIff`).
  (4) The fleet counts an update as a conflict only when the cell shows a payload, and the benchmark
  stores none (`FleetSpec.ConflictsAsDocumented`, `FleetSpec.ConflictsGoUncounted`). (5) Its convergence
  round is documented as the first round with every worker at the target, but the check before gossip is
  not remembered: the first round then reports 1, and 0 also stands for never
  (`FleetRuns.ReportIsRightIffGathered`, `FleetRuns.OneWorkerIsReportedLate`). (6) `src/embed.c` has a
  bound for other metrics that no call can reach, because the grid generator refuses them first.
- Branches shown to be unreachable are left out of the bodies: the engine's guards for stale or short
  watched clauses, an exhausted trail in the analysis, and the asserting literal that contradicts it.

## Model

| member | source | states |
|---|---|---|
| Cdcl.InstrumentedCdcl.constructor | demos/real_cdcl_trace_benchmark.py:80-105 | A fresh engine is in a valid, ready state over exactly the given clauses, with nothing assigned, no activity and no conflict counted. |
| Cdcl.InitialWatches | demos/real_cdcl_trace_benchmark.py:90-94 | Watching the first two literals of every clause of two or more makes each clause listed under both, once, and nowhere else. |
| Cdcl.InstrumentedCdcl.Assign | demos/real_cdcl_trace_benchmark.py:117-126 | An assigned variable is left alone and the call reports whether the literal holds; an unassigned one is appended to the trail with its level and reason. |
| Cdcl.InstrumentedCdcl.OrderWatches | demos/real_cdcl_trace_benchmark.py:143-144 | Swapping the first two literals of a visited clause in place puts the false literal second and keeps the trail, reason and watch invariants. |
| Cdcl.InstrumentedCdcl.FindReplacement | demos/real_cdcl_trace_benchmark.py:151-152 | The first index from 2 on whose literal is not false, with every earlier one false, or the clause length. |
| Cdcl.InstrumentedCdcl.MoveToLiteral | demos/real_cdcl_trace_benchmark.py:153-156 | Moving a watch to a literal that is not false keeps every invariant and leaves the other clauses as they were. |
| Cdcl.InstrumentedCdcl.PropagateFirst | demos/real_cdcl_trace_benchmark.py:161-168 | When all other literals are false, a false first literal is reported as falsification without a change, an unassigned one is assigned with this clause as reason. |
| Cdcl.InstrumentedCdcl.VisitClause | demos/real_cdcl_trace_benchmark.py:139-168 | One visit keeps the watch only when the other watch is true, moves it only to a literal that is not the false one, assigns the other watch when all else is false, or finds the clause falsified; no other clause changes, the watch invariant holds for the rest of the list, and a moved clause is relisted at the end of its new list. |
| Cdcl.InstrumentedCdcl.VisitWatches | demos/real_cdcl_trace_benchmark.py:133-168 | After the walk over one watch list, also when it aborts on a conflict, every clause is listed under exactly its two watches; without one, every clause still watching the literal has a true other watch, and what was settled for earlier literals stays settled; the reported clause is false with a literal of the current level. |
| Cdcl.InstrumentedCdcl.Bcp | demos/real_cdcl_trace_benchmark.py:128-170 | Propagation ends and misses nothing: without a report the queue is empty and, for every literal that became false, every clause still watching it has a true other watch, so that, from a ready state, no clause of two or more literals is falsified; every variable it assigns has a reason of two or more literals, and an empty queue changes nothing; a reported clause is falsified with a literal of the current level. |
| Cdcl.InstrumentedCdcl.PropagateNext | demos/real_cdcl_trace_benchmark.py:129-168 | The next literal of the queue is dealt with: unless a clause is falsified, every clause that watches a literal dealt with so far has a true other watch. |
| CdclSteps.VisitSettles | demos/real_cdcl_trace_benchmark.py:139-168 | A visit that is no conflict leaves its clause with a true other watch, or no longer watching the false literal, and unsettles no other. |
| CdclSteps.AllSettled | demos/real_cdcl_trace_benchmark.py:128-170 | When the queue is empty, that holds for every literal that became false during the call. |
| CdclSteps.ReadyNothingFalsified | demos/real_cdcl_trace_benchmark.py:128-170 | The invariant that replaces the textbook one, no clause whose two watches were both processed as false, is enough for no clause to be falsified at the fixpoint. |
| CdclSteps.VisitKeepsLive | demos/real_cdcl_trace_benchmark.py:139-168 | Each non-conflicting visit keeps that invariant for all clauses but those still pending. |
| CdclSteps.ConflictKeepsLive | demos/real_cdcl_trace_benchmark.py:163-166 | An aborted walk keeps it for every clause after the levels above are undone. |
| CdclWatches.MoveWatch | demos/real_cdcl_trace_benchmark.py:153-154 | Value form of moving a watch from the false literal to literal k. |
| CdclWatches.AppendWatched | demos/real_cdcl_trace_benchmark.py:289-294 | Appending a clause and listing it under its first two literals keeps the watch lists exact. |
| CdclWatches.CutMakesLive | demos/real_cdcl_trace_benchmark.py:221-232 | Undoing levels restores the invariant that a conflict had suspended. |
| CdclWatches.LiveNotFalsified | demos/real_cdcl_trace_benchmark.py:128-170 | A clause of which not both watches were processed as false has a watch that is not false when the queue is empty. |
| CdclState.ExtendCore | demos/real_cdcl_trace_benchmark.py:117-126 | Assigning a literal that its reason makes unit, or deciding right after opening a level, keeps the trail, level and reason invariants. |
| CdclState.CutKeepsCore | demos/real_cdcl_trace_benchmark.py:221-232 | Undoing levels keeps them too: every remaining reason still precedes what it propagated. |
| CdclState.OpenLevel | demos/real_cdcl_trace_benchmark.py:258 | Recording a decision mark keeps them. |
| CdclState.ReorderCore | demos/real_cdcl_trace_benchmark.py:143-153 | Permuting the literals of a clause in place keeps them. |
| CdclState.LearnCore | demos/real_cdcl_trace_benchmark.py:290-298 | Appending the learned clause and asserting its first literal keeps them. |
| CdclState.RootEntailed | demos/real_cdcl_trace_benchmark.py:188-189 | A literal true at level 0 holds in every model of the formula, which justifies dropping its negation from learned clauses. |
| CdclState.RootConflictRefutes | demos/real_cdcl_trace_benchmark.py:268-269 | A clause falsified at level 0 refutes the formula. |
| CdclAnalysis.WalkStarts | demos/real_cdcl_trace_benchmark.py:174-184 | The falsified clause is where the resolution invariant starts: it follows from the formula and is false. |
| CdclAnalysis.WalkSkips | demos/real_cdcl_trace_benchmark.py:186-189 | Skipping the resolved, the marked and the level-0 literals keeps the clause under construction a consequence. |
| CdclAnalysis.WalkMarksCurrent | demos/real_cdcl_trace_benchmark.py:190-193 | Marking a literal of the current level counts it. |
| CdclAnalysis.WalkMarksLower | demos/real_cdcl_trace_benchmark.py:190-195 | Marking a literal of a lower level puts it in the tail of the learned clause. |
| CdclAnalysis.WalkFinds | demos/real_cdcl_trace_benchmark.py:197-210 | The entry found has the current level; while another is open it has a reason, and resolving with it keeps the invariant. |
| CdclAnalysis.ResolveWithReason | demos/real_cdcl_trace_benchmark.py:206-210 | Resolving on a variable with the clause that propagated it gives a consequence again, with only earlier literals. |
| CdclAnalysis.WalkEnds | demos/real_cdcl_trace_benchmark.py:203-214 | With one open variable left, its negation followed by the tail is an asserting consequence: all false, exactly the first of the current level, no literal of level 0. |
| CdclUip.LearnsOne | demos/real_cdcl_trace_benchmark.py:172-214 | The first cut of the implication graph with a single literal of the current level is one clause, in one order. |
| CdclUip.UipDominates | demos/real_cdcl_trace_benchmark.py:172-214 | Its first literal is a unique implication point: every path of the implication graph from the decision of the current level to the conflict passes through its variable. |
| CdclUip.PathCrosses | demos/real_cdcl_trace_benchmark.py:183-210 | Every path to the conflict crosses every cut of the walk. |
| CdclUip.ReadMarks | demos/real_cdcl_trace_benchmark.py:183-195 | Reading a clause marks exactly its variables above level 0 but the resolved one. |
| CdclUip.CutBelow | demos/real_cdcl_trace_benchmark.py:197-210 | What is marked when an entry of the trail is resolved lies before it. |
| CdclUip.MarkedOnce | demos/real_cdcl_trace_benchmark.py:187-191 | No variable is marked, and so bumped, twice in one analysis. |
| Cdcl.InstrumentedCdcl.MarkClause | demos/real_cdcl_trace_benchmark.py:183-195 | Reading one antecedent marks exactly what the cut of the implication graph gains, keeps the resolution invariant and bumps the activity of exactly the newly marked variables. |
| Cdcl.InstrumentedCdcl.FindMarked | demos/real_cdcl_trace_benchmark.py:197-201 | The scan finds the topmost marked entry, passes over no marked one, and never runs off the trail. |
| Cdcl.InstrumentedCdcl.LearnClause | demos/real_cdcl_trace_benchmark.py:172-214 | The analysis loop ends with an asserting consequence of the formula, and that is the first cut with a single literal of the current level; every variable marked on the way gains one activity increment, and no other gains any. |
| Cdcl.InstrumentedCdcl.AnalyzeConflict | demos/real_cdcl_trace_benchmark.py:172-219 | The first cut with a single literal of the current level, the number of its levels, and the highest level among the literals after the first, which is strictly below the current one. |
| Cdcl.InstrumentedCdcl.MaxLevel | demos/real_cdcl_trace_benchmark.py:218 | The highest level after the first literal, attained, or 0. |
| Cdcl.InstrumentedCdcl.PopEntries | demos/real_cdcl_trace_benchmark.py:226-231 | Popping the trail unassigns exactly the popped entries. |
| Cdcl.InstrumentedCdcl.BacktrackTo | demos/real_cdcl_trace_benchmark.py:221-232 | The state is cut back to the given level, or untouched when not above it; the queue ends with the trail. |
| CdclSteps.CutCore | demos/real_cdcl_trace_benchmark.py:221-232 | After a backjump every invariant holds and every clause is live again. |
| CdclSteps.CutAsserting | demos/real_cdcl_trace_benchmark.py:288-298 | After the backjump the first learned literal is unassigned and all others are still false. |
| Cdcl.InstrumentedCdcl.Attach | demos/real_cdcl_trace_benchmark.py:289-294 | Appends the clause and lists it under its first two literals, when it has two. |
| Cdcl.InstrumentedCdcl.AppendLearned | demos/real_cdcl_trace_benchmark.py:289-298 | The learned clause joins the database with its first two literals watched and the first asserted; the RuntimeError branch cannot be reached. |
| Cdcl.InstrumentedCdcl.Learn | demos/real_cdcl_trace_benchmark.py:288-298 | Backjump and learning together: the level is the backjump level, the clause is appended, its first literal true, the others false, and the engine is ready again. |
| Cdcl.InstrumentedCdcl.Restart | demos/real_cdcl_trace_benchmark.py:240-244 | Everything above level 0 is undone and the next limit is 32 times the next Luby entry. |
| Luby.Luby | demos/real_cdcl_trace_benchmark.py:66-74 | Entry i of the sequence whose blocks are the previous block twice and then the next power of two. |
| Cdcl.InstrumentedCdcl.PickBranchLit | demos/real_cdcl_trace_benchmark.py:234-238 | The unassigned variable of highest activity, the smallest on ties; none exactly when all are assigned. |
| Cdcl.InstrumentedCdcl.Decide | demos/real_cdcl_trace_benchmark.py:258-259 | Opens a level and decides positively, keeping every invariant. |
| Cdcl.InstrumentedCdcl.Branch | demos/real_cdcl_trace_benchmark.py:254-300 | Deciding and settling: without a conflict the last decision is the positive literal of the most active variable, the smallest on ties, among those not on the trail before it, and fewer variables are left. |
| CdclSteps.BestIsDecided | demos/real_cdcl_trace_benchmark.py:234-259 | The variable that comes first among the unassigned comes first among those not on the trail before it. |
| Cdcl.InstrumentedCdcl.MeanActivity | demos/real_cdcl_trace_benchmark.py:278-281 | The recorded activity times the clause length is the sum of the activities of its variables. |
| Cdcl.InstrumentedCdcl.RecordConflict | demos/real_cdcl_trace_benchmark.py:271-283 | Appends one trace entry with the conflict number, the learned clause, its number of levels, its backjump level and its mean activity. |
| Cdcl.InstrumentedCdcl.HandleConflict | demos/real_cdcl_trace_benchmark.py:271-300 | Records the first such cut of the falsified clause, raises the activities it touched, and, below the target, learns the recorded clause at its backjump level and scales the activity increment. |
| Cdcl.InstrumentedCdcl.MeetConflict | demos/real_cdcl_trace_benchmark.py:266-300 | One conflict: counted, also since the last restart, and then at level 0 the formula is refuted, at the target the learned clause is recorded only, and otherwise it is recorded and learned. |
| Cdcl.InstrumentedCdcl.Settle | demos/real_cdcl_trace_benchmark.py:261-300 | Propagates and learns until nothing is falsified; stops with the target reached or, at level 0, with the formula refuted; the trace and the learned clauses keep in step with the conflicts counted, and so does the count since the last restart. |
| Cdcl.InstrumentedCdcl.Round | demos/real_cdcl_trace_benchmark.py:250-300 | One round terminates and either makes progress or ends the search for a stated reason; it restarts exactly when the conflicts since the last restart reach the limit, which is 32 times the Luby entry, and else counts on. |
| Cdcl.InstrumentedCdcl.CollectConflicts | demos/real_cdcl_trace_benchmark.py:246-302 | Every reported clause is a nonempty consequence of the formula; the search ends with enough conflicts, or with every variable assigned and every clause of two or more literals satisfied, or with the formula refuted, or, when called above level 0, at once with a falsified clause and nothing counted. From a fresh engine the trace numbers its clauses 1, 2, ... and has one for each conflict, but for a last one at level 0; the learned clauses are those of the trace up to literal order, but for a last one that met the target. |
| CdclResults.FinalAssignmentSatisfies | demos/real_cdcl_trace_benchmark.py:254-256 | When no variable is left, the assignment satisfies every learned clause and every original clause of two or more literals. |
| CdclResults.FinalAssignmentModelsIff | demos/real_cdcl_trace_benchmark.py:254-256 | It is a model of the formula exactly when no original clause is empty and every original unit happens to hold. |
| CdclResults.UnitsAreDecidedPositively | demos/real_cdcl_trace_benchmark.py:91-94 | Without clauses of two or more literals every variable ends up true, so the result is a model exactly when all clauses are positive units. |
| Cdcl.SearchUnits | demos/real_cdcl_trace_benchmark.py:80-302 | So ends every search of such a formula, on a fresh engine. |
| Cdcl.BaseUnitsAreNotPropagated | demos/real_cdcl_trace_benchmark.py:80-302 | Original unit clauses are never enqueued: the run on the satisfiable formula of the unit -1 ends with trail 1, which falsifies it. |
| CdclSteps.ForcedKeepsSourced | demos/real_cdcl_trace_benchmark.py:128-170 | Propagation keeps it that every variable is a positive decision or has as reason a learned clause or one of two or more literals. |
| CdclSteps.RecordedGrows | demos/real_cdcl_trace_benchmark.py:271-294 | Recording and learning a conflict keep the learned clauses a prefix of the trace. |
| Numbers.RoundIsNearest | src/futcache.c:327-328 | No representable value is closer to a number than its rounding. |
| Numbers.LowerExact | src/futcache.c:327-342 | The computed lower end is at or below a representable value exactly when x - epsilon is. |
| Numbers.UpperExact | src/futcache.c:328-350 | The computed upper end is at or above a representable value exactly when x + epsilon is. |
| Numbers.BallExact | src/futcache.c:320-364 | A representable domain point lies in the computed ball exactly when its real distance to the centre is at most epsilon; the ball holds its centre and stays in the domain. |
| Intervals.CanonicalUnique | src/futcache.c:367-407 | Two lists of disjoint ordered closed intervals with the same cover are equal. |
| Avl.InsertOrder | src/futcache.c:225-240 | Insertion puts the interval at its place in the in-order list. |
| Avl.DeleteOrder | src/futcache.c:250-276 | Deletion, by successor copy when there are two children, removes exactly that interval from the in-order list. |
| Avl.InsertBalances | src/futcache.c:225-240 | Insertion keeps balance and exact heights, and raises the height by at most one. |
| Avl.DeleteBalances | src/futcache.c:250-276 | Deletion keeps balance and exact heights, and lowers the height by at most one. |
| Avl.RebalanceBalances | src/futcache.c:174-200 | Rebalancing repairs a node whose children differ in height by at most two. |
| Avl.RebalanceKeepsOrder | src/futcache.c:138-200 | Rotations and rebalancing keep the in-order list. |
| Avl.FindOverlapExact | src/futcache.c:288-304 | The one-path search finds an overlapping interval whenever there is one. |
| Avl.CoversPointExact | src/futcache.c:306-318 | The lookup decides membership in the union of all intervals. |
| Avl.NodesAtLeastFib | src/futcache.c:174-200 | A tree of height h has at least Fib(h + 2) - 1 nodes. |
| Avl.LookupBound | src/futcache.c:306-318 | A lookup that visits s nodes needs at least Fib(s + 2) - 1 intervals, and so at least 2^(s / 2) - 1: lookups are logarithmic. |
| Avl.SummaryExact | src/futcache.c:461-508 | validate_node accepts exactly the balanced trees of disjoint ordered intervals inside the domain with exact heights. |
| Avl.SummaryCounts | src/futcache.c:461-508 | Its count and measure are those of the in-order list. |
| AvlNodes.UpdateHeight | src/futcache.c:133-136 | Writes the exact height into a node whose children are in order. |
| AvlNodes.RotateRight | src/futcache.c:138-154 | The pointer rotation computes the tree rotation on the same nodes. |
| AvlNodes.RotateLeft | src/futcache.c:156-172 | The mirror image. |
| AvlNodes.Rebalance | src/futcache.c:174-200 | The pointer rebalancing computes the tree rebalancing on the same nodes. |
| AvlNodes.TreeInsert | src/futcache.c:225-240 | Linking a detached node into the pointer tree computes the insertion and adds just that node. |
| AvlNodes.MinimumNode | src/futcache.c:242-248 | The leftmost node carries the minimum of the tree. |
| AvlNodes.TreeDelete | src/futcache.c:250-276 | Deletion in the pointer tree computes the tree deletion without new nodes. |
| IntervalCache.FindOverlap | src/futcache.c:288-304 | The loop over the nodes returns what the tree search finds, as a node of the tree. |
| IntervalCache.TreeCoversPoint | src/futcache.c:306-318 | The loop over the nodes decides cover; in a balanced tree 2 to half its number of iterations is at most the number of intervals plus one. |
| IntervalCache.ValidateNode | src/futcache.c:461-508 | The recursion over the nodes computes the validation summary. |
| IntervalCache.CombineSummaries | src/futcache.c:477-507 | How the summaries of two children and a node combine, each rejection reason included. |
| IntervalCache.FutCache.constructor | src/futcache.c:623-665 | A new cache is valid and has observed nothing. |
| IntervalCache.FutCache.IsNovel | src/futcache.c:680-706 | An in-domain point is novel exactly when the list does not cover it, that is, when it is farther than epsilon from every point observed since the last clear; of a restored cache the list is all that is known. |
| IntervalCache.FutCache.Record | src/futcache.c:708-754 | The change to tree and telemetry, for reachable and for restored caches: the ball of the point is merged, only an uncovered point may add an interval, and everything a snapshot vouches for is kept; it runs out of memory exactly when there is none and no interval holds the whole ball. |
| IntervalCache.FutCache.Observe | src/futcache.c:708-754 | The same verdict, and the point joins the history; a failed allocation changes nothing, and can only happen when asked for. A restored cache stays what a snapshot vouches for. |
| IntervalCache.FutCache.AbsorbAll | src/futcache.c:385-399 | The absorb loop terminates; nothing left overlaps the grown ball, whose union with the rest is the old union with the ball. |
| IntervalCache.FutCache.Absorb | src/futcache.c:396-398 | One pass unlinks one interval and keeps the running measure and count exact. |
| IntervalCache.FutCache.NextOverlap | src/futcache.c:373-385 | An interval of the list that meets the ball, if there is one. |
| IntervalCache.FutCache.MergeBall | src/futcache.c:367-407 | The new list is the canonical form of the old union with the ball; memory runs out exactly when there is none and no single interval holds the ball, and then before any change. |
| IntervalCache.FutCache.Link | src/futcache.c:401-405 | Linking the grown ball inserts it into the list and updates the totals. |
| IntervalCache.FutCache.FullyCovered | src/futcache.c:438-443 | The fully-covered flag is true iff no real of the domain is uncovered; no representable domain point is novel iff the intervals are contiguous, and the flag asks in addition for a single one; over exact reals that is the same. |
| IntervalCache.FutCache.Clear | src/futcache.c:851-874 | Forgets the history and the telemetry; the generation goes on. |
| IntervalCache.FutCache.Validate | src/futcache.c:876-911 | Accepts exactly the states with a proper tree, exact count, measure within 64 units in the last place, and ordered telemetry. |
| IntervalCache.FutCache.ValidateReachable | src/futcache.c:876-911 | Every reachable state is accepted. |
| IntervalCache.FutCache.MemoryBound | src/futcache.c:735-743 | Stored intervals are at most the novel observations, and (novel - 1) epsilon is at most the domain width, however long the run. |
| IntervalCache.FutCache.ValidIsRestored | src/futcache.c:893-902 | Every reachable state satisfies everything a snapshot must vouch for. |
| IntervalSpec.NovelIsUncovered | src/futcache.c:306-364 | For representable domain points, being outside the union of balls is being farther than epsilon from every observed point. |
| IntervalSpec.HistorySnoc | src/futcache.c:708-754 | Observing a point and merging its ball keeps list, history and novel points in step; a point that is not novel adds no interval. |
| IntervalSpec.CoveredIsNotNovel | src/futcache.c:306-318 | The cover decides novelty at every representable domain point. |
| IntervalSpec.StateIsUnion | src/futcache.c:367-407 | Two histories have the same list exactly when their balls have the same union. |
| IntervalSpec.StateIgnoresOrder | src/futcache.c:367-407 | Permuting or repeating a history does not change the list. |
| IntervalSpec.FutureEquivalence | src/futcache.c:367-407 | Histories with equal lists have equal lists and equal answers after any common continuation. |
| IntervalSpec.AbsorbStep | src/futcache.c:385-399 | Absorbing one overlapping interval keeps the union with the growing ball and removes one interval. |
| IntervalSpec.AbsorbEnd | src/futcache.c:401-405 | Inserting the grown ball gives the canonical list of the old union with the ball and creates no new endpoint. |
| IntervalSpec.FullyCovered | src/futcache.c:438-443 | One interval spanning the domain, and only that, leaves no real domain point uncovered. |
| IntervalSpec.ContiguousCovers | src/futcache.c:438-443 | All numbers of the domain are covered exactly by intervals that reach from end to end with no number in a gap. |
| DoubleRuns.CoveredWithoutFlag | src/futcache.c:438-443 | In binary64, observing the two points of a domain of neighbouring doubles with epsilon 0 leaves nothing novel, and the flag false. |
| IntervalSpec.Packing | src/futcache.c:735-743 | n points of a domain, pairwise more than epsilon apart, need a width of (n - 1) epsilon. |
| BoxList.ClipExact | src/box.c:277-282 | Inside the domain a clipped box holds the points within epsilon in every coordinate, and no others unless an end was rounded outward. |
| BoxList.EndsExact | src/box.c:278-281 | The same for the rounded ends of one coordinate. |
| BoxList.FarIsMaxDistance | src/box.c:119-132 | Being outside a box is being farther than epsilon in the L-infinity distance. |
| BoxList.BoxCache.Covered | src/box.c:119-132 | The scan finds a box exactly when some kept box holds the point. |
| BoxList.UnseenIsNovel | src/box.c:119-132 | Being in no box is being farther than epsilon from every observed point, on exact reals and as long as nothing was rounded outward. |
| BoxList.BoxCache.Grow | src/box.c:213-227 | Makes room by doubling, keeping every box. |
| BoxList.BoxCache.IsNovel | src/box.c:229-242 | The verdict, or why the point was rejected: a wrong length, or a coordinate outside the domain. |
| BoxList.BoxCache.Observe | src/box.c:244-296 | A box is kept for every observation, novel or not; the verdict is taken before, and counted. |
| BoxList.AllNovelIff | src/box.c:290 | The novel counter equals the number of observations exactly when each was unseen at its time. |
| BoxList.BoxCache.CountIsNovelIff | src/box.c:20-23 | The number of boxes is the number of novel observations, as the comment says, exactly when every observation was novel; without outward rounding, when every point is farther than epsilon from all earlier ones. |
| BoxList.ObserveTwice | src/box.c:20-23 | One point observed twice: two boxes and one novel observation. |
| BoxList.BoxCache.Clear | src/box.c:314-331 | Forgets the observations and keeps the array. |
| BoxList.BoxCache.Validate | src/box.c:333-362 | Accepts exactly the states with consistent counters and boxes inside the domain. |
| BoxList.BoxCache.ValidateReachable | src/box.c:333-362 | Every reachable state is accepted. |
| BoxList.AgreesWithIntervals | src/box.c:119-132 | On one-dimensional histories the novelty of the box list and of the interval cache coincide. |
| Lockstep.ObserveBoth | src/futcache.c:708-754 | One observation by both engines, on exact reals or representable numbers: the AVL cache answers by real distance to the history, the box list by its rounded boxes. |
| Lockstep.BoxesDecideNovelty | src/box.c:119-132 | The rounded boxes hold all that is not novel, and nothing else as long as no observed point rounds outward. |
| Lockstep.Replay | src/box.c:244-331 | Every sequence of observe and clear calls gets the oracle's answers from the AVL cache and those of the rounded boxes from the list; they are the same on exact reals, and on representable numbers as long as no observed point rounds outward. |
| Lockstep.RoundedEnginesAgreeIff | src/box.c:275-280 | With rounded ends one observation covers the same representable domain points in both engines exactly when neither end rounds outward within the domain. |
| Lockstep.StreamsAgreeIff | src/box.c:275-282 | Over a set of representable domain points, both engines cover the same points after every history made of them exactly when no point of the set rounds outward. |
| DoubleRuns.EnginesDiffer | src/box.c:275-282 | Two observations in binary64 whose second is farther than epsilon from the first: the AVL cache reports it novel and the box list does not. |
| Bytes.ReadWrite | src/futcache.c:516-561 | Reading a little-endian number of n bytes gives back what was written, when it fits. |
| Bytes.ByteRange | src/futcache.c:516-536 | A byte is a number from 0 to 255. |
| Bytes.WrittenDigit | src/futcache.c:516-536 | Byte i of a written number is its i-th digit to the base 256. |
| Bytes.BitAt | src/futcache.c:582-589 | Bit i of a number is set when its quotient by 2^i is odd. |
| Bytes.WriteInto | src/futcache.c:516-536 | Writing a number into a buffer changes just those bytes. |
| Crc32.PolynomialValue | src/futcache.c:578-592 | The feedback word is 0xEDB88320. |
| Crc32.ShiftByte | src/futcache.c:586-589 | Eight mask-selected shifts are eight shifts of the register. |
| Crc32.FeedIsShifts | src/futcache.c:578-592 | Mixing a byte in and shifting eight times feeds its bits one at a time. |
| Crc32.Crc32Bytes | src/futcache.c:578-592 | The loop computes the CRC-32 of the first bytes of the buffer, which Gf2.CrcIsRemainder says what it is. |
| Gf2.CrcIsRemainder | src/futcache.c:578-592 | The complement of the CRC is the remainder, and the only one, modulo the generator polynomial over GF(2), of the message with its first 32 bits flipped and 32 zero bits appended. |
| Gf2.RemainderUnique | src/futcache.c:578-592 | Division by the generator has one quotient and one remainder. |
| Gf2.PolynomialIsGenerator | src/futcache.c:588 | The reversed constant is the generator x^32 + x^26 + ... + x + 1 without its leading term. |
| Gf2.CrcOfNothing | src/futcache.c:580-591 | The empty string has checksum 0. |
| Gf2.BitStringAt | src/futcache.c:582-589 | Bits are fed byte by byte, the lowest bit of each byte first. |
| Crc32.FeedInjective | src/futcache.c:578-592 | Equal input cannot make two different registers equal. |
| Crc32.ShortStringsReveal | src/futcache.c:578-592 | Two strings of at most 32 bits that lead to the same register differ exactly where the registers did. |
| Crc32.BurstDetected | src/futcache.c:578-592 | Bit strings that differ only within 32 consecutive bits leave different registers. |
| Crc32.ByteBurstDetected | src/futcache.c:578-592 | Equal-length byte strings that differ only in a window of four bytes have different CRCs. |
| Doubles.GridIsSensible | src/futcache.c:563-576 | The finite doubles are an increasing grid inside the overflow threshold. |
| Doubles.FiniteIsOnGrid | src/futcache.c:570-576 | Every finite bit pattern stands for a value of that grid. |
| Doubles.DoubleRoundTrip | src/futcache.c:563-576 | Decoding the eight bytes of a finite double gives it back. |
| Doubles.OneIsOne | src/futcache.c:563-576 | The pattern 3ff0000000000000 is the number one. |
| Doubles.ExponentDoubles | src/futcache.c:563-576 | From a normal pattern, one more in the exponent doubles the value. |
| Doubles.StepsAreEven | src/futcache.c:563-576 | The step to the next pattern depends on the exponent alone, and the subnormals share that of the first binade. |
| Doubles.SignAndSpecials | src/futcache.c:563-576 | Zero has the zero pattern, the top bit negates, and exactly the largest exponent has no finite values. |
| Doubles.NoSign | src/futcache.c:563-576 | What is not negative is written without the top bit. |
| Doubles.TiesToEven | src/futcache.c:327-328 | Half way between two neighbours, rounding goes to the one with the even pattern. |
| Doubles.OverflowIsHalfway | src/futcache.c:327-328 | Rounding overflows half way from the largest finite value to what would be the next. |
| Snapshot.RoundTrip | src/futcache.c:913-1097 | The reader accepts the snapshot of every storable state and restores exactly that state. |
| Snapshot.AcceptedIff | src/futcache.c:913-1097 | The reader accepts bytes as a state exactly when the state can be stored and the bytes are laid out as the format says: the letters FUTCACHE, version 1, a header of 72 bytes, no flags, every field at its offset, and the checksum of all that. |
| Snapshot.EncodedIsLaid | src/futcache.c:949-970 | What is written is laid out that way. |
| Snapshot.DecodeIntervalsIff | src/futcache.c:1053-1086 | The interval section is read exactly when it holds ordered disjoint intervals inside the domain. |
| Snapshot.IntervalsRoundTrip | src/futcache.c:594-608 | The interval section decodes to the encoded list. |
| Snapshot.AcceptedIsStorable | src/futcache.c:1007-1097 | Whatever the reader accepts satisfies every invariant of a storable state and fills its frame exactly. |
| Snapshot.MismatchRejected | src/futcache.c:1031-1035 | A body whose CRC differs from the stored one is rejected. |
| Snapshot.BurstRejected | src/futcache.c:1031-1035 | A snapshot corrupted inside any window of four consecutive bytes of its checksummed part is rejected. |
| Persistence.StateIsStorable | src/futcache.c:913-974 | Every reachable binary64 cache of representable size has a storable snapshot. |
| Persistence.SerializeIntervals | src/futcache.c:594-608 | Writes the intervals of a subtree in order, and nothing else. |
| Persistence.WriteHeader | src/futcache.c:957-967 | Writes the eleven header fields at their offsets. |
| Persistence.WriteSnapshot | src/futcache.c:957-970 | The buffer starts with the encoded snapshot, checksum included; the rest is untouched. |
| Persistence.Serialize | src/futcache.c:913-974 | Size query, too-small buffer and success, each with its exact effect. |
| Persistence.LoadInterval | src/futcache.c:1074-1081 | Links one interval after the ones before it. |
| Persistence.LoadIntervals | src/futcache.c:1054-1084 | Succeeds exactly when the pairs decode and the allocations suffice, and then the tree holds the decoded list. |
| Persistence.CheckLoaded | src/futcache.c:1089-1093 | A loaded tree passes the validator exactly when its telemetry does. |
| Persistence.DecodeCache | src/futcache.c:1037-1096 | Everything after the frame check, as accepted, corrupt or out of memory, each exactly when the code says so: memory runs out when what is read until then is acceptable. |
| Persistence.Deserialize | src/futcache.c:976-1097 | Accepts exactly what the decoder accepts, given memory for the cache and each interval, and rebuilds the decoded state; each error code has its exact cause. |
| Persistence.SaveAndLoad | src/futcache.c:913-1097 | Saving a reachable cache and loading it gives a cache with the same history and answers that saves to the same bytes. |
| Cells.SnapshotMerges | src/crdt.c:490-531 | Merging a snapshot update by update is the pointwise join with the sender. |
| Cells.MergeIdempotent | src/crdt.c:8-9 | Merging with itself, or twice with the same state, changes nothing. |
| Cells.MergeAssociative | src/crdt.c:8-9 | The merge is associative without any premise. |
| Cells.MergeCommutesIffNoTie | src/crdt.c:8-9 | The merge commutes on exactly the pairs of states without a cell that holds two different entries of equal priority. |
| Cells.MergeNeedNotCommute | src/crdt.c:494-496 | The documented commutativity fails on a tie, because the local entry is kept. |
| Cells.MergeShapeCommutes | src/crdt.c:494-496 | Occupancy and priorities commute unconditionally. |
| Cells.ApplyJoins | src/crdt.c:494-531 | Applying an update to a join of updates gives the join with it. |
| Cells.PrefixJoins | src/crdt.c:490-531 | A partly applied snapshot forwards everything its sender had heard for the cells that got through. |
| Cells.WholeForwarded | src/crdt.c:490-531 | A whole snapshot forwards everything its sender had heard. |
| Cells.MergeJoins | src/crdt.c:490-531 | The merge of two joins is the join of both sets of updates. |
| Cells.SameHeardSameShape | src/crdt.c:494-496 | States that have heard the same agree on occupancy and priorities. |
| Cells.HearingMoreIsAbove | src/crdt.c:494-531 | Hearing more never empties a cell or lowers a priority. |
| Cells.JoinUniqueIffTopsUnique | src/crdt.c:494-496 | What was heard determines the entries exactly when no cell has two different entries at its top priority. |
| Cells.NoCollisionSameCells | src/crdt.c:494-496 | In particular when no two different entries of a cell share a priority. |
| Crdt.NearestUnique | src/crdt.c:168-184 | Exactly one anchor is the first of the nearest. |
| Crdt.VoronoiCache.constructor | src/crdt.c:274-343 | A new cache is valid and empty. |
| Crdt.VoronoiCache.QuantizeImpl | src/crdt.c:168-184 | The loop finds the first of the nearest anchors. |
| Crdt.VoronoiCache.Quantize | src/crdt.c:366-381 | The cell of an acceptable point, or why it is rejected. |
| Crdt.VoronoiCache.Store | src/crdt.c:512-529 | Writing one cell keeps the number of occupied cells and the owned bytes exact. |
| Crdt.VoronoiCache.Observe | src/crdt.c:383-453 | The first point of a cell is kept with its priority and counted; an occupied cell never changes, whatever the priority; a failed allocation changes nothing. |
| Crdt.BatchAcceptable | src/crdt.c:465-480 | A batch is accepted exactly when every update is in range, complete and in the domain. |
| Crdt.VoronoiCache.CheckBatch | src/crdt.c:465-480 | The loop reports the first unacceptable update. |
| Crdt.RefusalIsFirst | src/crdt.c:465-480 | A refused batch has a first unacceptable update: a missing cell or wrong dimension is an invalid argument, a coordinate outside the domain is out of range. |
| Cells.BatchIsFirstBest | src/crdt.c:484-533 | Merging a batch leaves in every cell the first of the highest entries. |
| Cells.NothingHigher | src/crdt.c:484-489 | A batch with no higher priority than what the cells hold changes nothing. |
| Crdt.VoronoiCache.Merge | src/crdt.c:455-535 | Each cell ends with the first of the highest entries among its own and those of the batch, its own winning ties: a changed cell holds a strictly higher priority, and a batch that every cell already matches changes nothing and needs no memory. A bad batch is refused for its first unacceptable update and changes nothing; memory runs out at the first update that would raise its cell and has none. |
| Crdt.VoronoiCache.Send | src/crdt.c:537-578 | Size query, too-small buffer, or the occupied cells in order. |
| Crdt.VoronoiCache.WriteListing | src/crdt.c:561-573 | Writes the occupied cells in order and leaves the rest of the buffer alone. |
| Crdt.VoronoiCache.GetPayload | src/crdt.c:580-605 | The payload of a cell, none when there is none to show. |
| Crdt.VoronoiCache.Clear | src/crdt.c:625-643 | Every cell is empty, the telemetry and owned bytes are reset, the generation goes on. |
| Crdt.VoronoiCache.Validate | src/crdt.c:645-681 | Accepts exactly the consistent states. |
| Crdt.VoronoiCache.ValidateReachable | src/crdt.c:645-681 | Every reachable state is accepted. |
| Gossip.EveryStateIsAJoin | src/crdt.c:383-578 | On every run, with messages delayed, duplicated, reordered, lost or applied in part, with hand-made batches and clears, each replica is the pointwise highest-priority join of the effective updates it has transitively received. |
| Gossip.SameReceivedSameState | src/crdt.c:383-578 | Replicas that have received the same updates agree on occupancy and priorities, and on whole entries without collisions, even across different runs. |
| Gossip.MoreReceivedIsAbove | src/crdt.c:383-578 | A replica that has received more is above. |
| Gossip.NothingInvented | src/crdt.c:383-578 | Every entry any replica holds was observed or injected somewhere. |
| Replicas.PerformObservation | src/crdt.c:383-453 | Observing, on the cache, is the observed event of the state machine; a refused or failed one changes nothing. |
| Replicas.PerformMerge | src/crdt.c:455-535 | Merging a batch is the event of the updates that got through. |
| Replicas.PerformDelivery | src/crdt.c:455-535 | Merging a message, wholly or up to a failed allocation, is its delivery. |
| Replicas.PerformSend | src/crdt.c:537-578 | A snapshot taken by two calls is a message of the sender's state, acceptable to every replica. |
| Replicas.PerformClear | src/crdt.c:625-643 | Clearing is the cleared event. |
| Replicas.Perform | src/crdt.c:383-643 | Every call on the replicas is one step of the state machine and the event it should be. |
| Replicas.Replay | src/crdt.c:383-643 | Any sequence of calls on fresh caches is a run of the state machine that ends in what the caches hold, each of them the join of what it has received. |
| FleetRuns.ShardOccupies | bench/crdt_fleet.c:417-424 | A worker occupies the cells of the points it was given. |
| FleetRuns.ShardingIsIrrelevant | bench/crdt_fleet.c:417-424 | However a stream is split over the workers, together they occupy the cells of the stream. |
| FleetRuns.RoundRobinShares | bench/crdt_fleet.c:417-423 | Two positions of the stream go to one worker exactly when they differ by a multiple of the number of workers. |
| FleetSpec.JointIsKept | bench/crdt_fleet.c:451-497 | However far gossip has come, the fleet occupies together what it occupied at first. |
| FleetSpec.ReachedIffJoint | bench/crdt_fleet.c:385-394 | A worker occupies the joint set exactly when it occupies as many cells. |
| FleetSpec.FullyInformed | bench/crdt_fleet.c:455-486 | Once everyone has heard everything, all workers are the join of the starting states: same cells and priorities, and equal without collisions. |
| FleetRuns.RunInformed | bench/crdt_fleet.c:417-497 | On every run, for every sharding and schedule, each worker is the join of what it has heard, and the fleet occupies together the cells of the stream. |
| FleetRuns.FullRound | bench/crdt_fleet.c:455-486 | In a round in which all send to all others, everyone has heard what each sender started with. |
| FleetRuns.FanInEnds | bench/crdt_fleet.c:455-486 | After such a round every worker has heard every worker. |
| FleetRuns.PicksEveryone | bench/crdt_fleet.c:332-353 | Whoever picks as many peers as there are picks them all. |
| FleetRuns.FullFanIn | bench/crdt_fleet.c:417-486 | For every sharding of every stream, after a full round every worker occupies exactly the cells of the stream and is the join of all starting states; all agree on priorities, and are equal without collisions. As many random peers as there are count as full. |
| FleetRuns.ReportedIsDocumentedIff | bench/crdt_fleet.c:308-308 | The convergence round reported is the documented first round exactly when the target is reached either before gossip or after some round, but not both. |
| FleetRuns.ReachedStays | bench/crdt_fleet.c:451-497 | Once every worker occupies the cells of the stream, more gossip keeps it so. |
| FleetRuns.ReachedAtStart | bench/crdt_fleet.c:443-449 | The target is reached before gossip exactly when every shard alone has that many cells. |
| FleetRuns.ReportIsRightIff | bench/crdt_fleet.c:443-497 | For the target the benchmark uses, the report is right exactly when it is reached at all, unless every shard alone was complete and there was gossip to hide it; then the report is 1. |
| FleetRuns.HeardIsReached | bench/crdt_fleet.c:455-486 | After r rounds a worker has heard exactly the starting entries of the workers that reach it over the picks. |
| FleetRuns.ReachedIffGathered | bench/crdt_fleet.c:385-394 | A worker occupies the cells of the shards that reach it, so the target is reached exactly when these make up the image for every worker. |
| FleetRuns.ReportIsRightIffGathered | bench/crdt_fleet.c:443-497 | Whether the report is right is read off the stream, the sharding and the picks. |
| FleetRuns.FullFanInReport | bench/crdt_fleet.c:443-497 | Under full fan-in the report is 1 when there is gossip and the target is the size of the image, else 0, and it is right exactly when gossip was needed. |
| FleetRuns.OneWorkerIsReportedLate | bench/crdt_fleet.c:443-497 | A single worker has reached the target before any gossip, and 1 is reported. |
| FleetRuns.SumOfJoint | bench/crdt_fleet.c:499-509 | The local counts add up to at least the joint count and at most that for each worker, which they do once all have reached it. |
| FleetSpec.ConflictsOfListing | bench/crdt_fleet.c:221-243 | The conflict count of a snapshot is the number of its cells that show a payload locally. |
| FleetSpec.ConflictsAsDocumented | bench/crdt_fleet.c:214-243 | It is the documented number of updates for occupied cells exactly when each of those cells has a payload. |
| FleetSpec.ConflictsGoUncounted | bench/crdt_fleet.c:214-243 | Two replicas without payloads that share a cell: one conflict documented, none counted. |
| FleetSpec.BareNeverConflicts | bench/crdt_fleet.c:221-243 | Without payloads no conflict is ever counted. |
| Peers.SelectPeers | bench/crdt_fleet.c:332-353 | Reservoir sampling: the peers are distinct workers other than the one that picks, and every slot holds the last candidate that the generator sent there. |
| Peers.ReservoirUnique | bench/crdt_fleet.c:332-353 | The seed decides the peers. |
| Peers.RoundPickedUnique | bench/crdt_fleet.c:318-353 | Two rounds from one seed pick alike. |
| Peers.StepValues | bench/crdt_fleet.c:322-330 | The state after one, and that no other state leads to zero. |
| Peers.ZeroSeed | bench/crdt_fleet.c:332-353 | A seed that cancels to zero makes every worker pick the same: the last candidate, and the first ones but one. |
| Fleet.Collect | bench/crdt_fleet.c:456-464 | The two-call snapshot into a growing batch gives the occupied cells of the worker. |
| Fleet.MergeWithDiagnostics | bench/crdt_fleet.c:221-243 | Applies every update; merges, adoptions and conflicts add up. |
| Fleet.RunSingle | bench/crdt_fleet.c:257-283 | One worker occupies exactly the cells of the in-domain points, one for each novel observation. |
| Fleet.Distribute | bench/crdt_fleet.c:417-424 | Whatever worker each point goes to, every worker ends up with exactly the cells of its shard. |
| Fleet.DeliverTo | bench/crdt_fleet.c:470-484 | One delivery joins the sender's cells into one receiver and leaves the other workers alone. |
| Fleet.FanIn | bench/crdt_fleet.c:468-476 | Every other worker, and no one else, has merged the batch of one worker and heard what it has. |
| Fleet.SendToPeers | bench/crdt_fleet.c:477-485 | The peers picked, and no one else, have merged the batch of one worker and heard what it has. |
| Fleet.GossipRound | bench/crdt_fleet.c:455-486 | A round is every worker in turn sending to the right number of others, those the generator picks or all; it merges one update for each occupied cell and receiver. |
| Fleet.GossipRounds | bench/crdt_fleet.c:451-497 | The rounds are a run of the gossip with the peers the generator decides, and what is reported is the first successful check after a round, or 0. |
| Fleet.AllWorkersReached | bench/crdt_fleet.c:385-394 | True exactly when every worker occupies the target number of cells. |
| Fleet.ComputeJoint | bench/crdt_fleet.c:355-381 | The mark counts give the number of cells that some worker occupies. |
| FleetRuns.ConvergedSum | bench/crdt_fleet.c:451-509 | After a reported round, or any round of full fan-in, every worker counts as many cells as the fleet. |
| Fleet.SumLocal | bench/crdt_fleet.c:504-509 | The sum of the workers' own counts. |
| Fleet.RunFleet | bench/crdt_fleet.c:396-524 | The benchmark goes through a run of the fleet, given as a ghost result, whose peers the seed decides: the joint count is that of one worker seeing the whole stream, the convergence round the first successful check after a round, the sum lies between one and workers times the joint count, merges are counted exactly and none as a conflict. |
| Metrics.BuiltinIsMetric | src/crdt.c:687-702 | L1, Euclidean and L-infinity distances are symmetric, non-negative and satisfy the triangle inequality in every dimension. |
| Metrics.EuclideanTriangle | src/crdt.c:773-776 | The Euclidean triangle inequality in every dimension, for any square-root function. |
| Metrics.DistScaled | src/crdt.c:896-920 | If every coordinate shrinks by a factor, so does a built-in distance. |
| Metrics.OrthogonalSteps | src/pack.c:86-122 | From p to q in two steps over disjoint coordinates the sums add up, the squares of the Euclidean distances do, and of the maxima the larger one counts. |
| Metrics.AlongAxis | src/pack.c:86-122 | Moving one coordinate by t is a distance of the size of t in each metric. |
| Grid.DigitsOfIndex | src/crdt.c:836-846 | Every digit vector belongs to an index of the grid, which decodes to it. |
| Grid.IndexOfDigits | src/crdt.c:836-846 | Every index of the grid is the one of its digits, so each vector comes exactly once. |
| Grid.CellIndexNear | src/crdt.c:842-844 | Some cell centre of an axis is within half a cell width of any coordinate. |
| Grid.GridCovers | src/crdt.c:896-920 | Every domain point lies within norm / (2n) of an anchor, for L-infinity, L1 and L2 in any dimension. |
| Grid.AnchorsInside | src/crdt.c:836-846 | Every anchor lies in the domain. |
| Anchors.CheckedMul | src/crdt.c:139-144 | Succeeds with the product exactly when it fits. |
| Anchors.TotalCells | src/crdt.c:827-834 | The number of cells, unless it overflows. |
| Anchors.GenerateGridAnchors | src/crdt.c:809-848 | Writes the whole grid in index order, or nothing and the reason. |
| Anchors.AnchorAt | src/crdt.c:837-844 | Peeling the index digit by digit gives the centre with those digits. |
| Anchors.DiagonalNorm | src/crdt.c:755-777 | The length of the domain diagonal in the metric. |
| Anchors.GridCoveringRadius | src/crdt.c:896-920 | The reported radius covers the domain from the grid's anchors; other metrics are refused. |
| Anchors.NearestDistance | src/crdt.c:883-888 | The least distance to an anchor, attained. |
| Anchors.EstimateCoveringRadius | src/crdt.c:850-894 | The sampled radius is 0 or the least distance of some probe, and every probe is within it of an anchor; so it never exceeds a radius that covers the domain. |
| Anchors.Probe | src/crdt.c:879-882 | The probe lies at the drawn fraction of every side. |
| Anchors.CeilingIsLeast | src/crdt.c:963-968 | The ceiling of norm / epsilon is the least number of cells per axis whose diagonal is within epsilon. |
| Anchors.GenerateSafeGrid | src/crdt.c:922-990 | On success the fewest cells per axis, all anchors written and a covering radius of at most half of epsilon; when too many, their number and radius, unless the number itself overflows. |
| Anchors.SameCellWithinDiameter | src/crdt.c:168-184 | Points of one cell are at most twice the covering radius apart, in any metric. |
| Anchors.SameCellWithinEpsilon | src/crdt.c:955-990 | With safe grid anchors, points of one cell are at most epsilon apart. |
| FleetGrid.MakeCrdt | bench/crdt_fleet.c:180-209 | The fleet's anchors are the grid with ceil(width / (2 epsilon)) cells, at least one. |
| FleetGrid.FleetCellDiameter | bench/crdt_fleet.c:180-209 | Points of one fleet cell are within a cell width, at most 2 epsilon. |
| FleetGrid.WidthWithinIff | bench/crdt_fleet.c:180-194 | Cells are no wider than epsilon only when the domain is, and then there is one cell. |
| FleetGrid.FleetContractIff | bench/crdt_fleet.c:172-194 | The documented contract, points of one cell within epsilon, holds exactly when the whole domain is no wider than epsilon; it fails for every fleet of two or more cells. |
| FleetGrid.FleetContractFails | bench/crdt_fleet.c:172-194 | It fails for epsilon one half on the unit interval. |
| Embed.EmbeddingContracts | include/futcache/embed.h:29-31 | Embedding never increases a distance. |
| Embed.EmbeddingLosesLittle | include/futcache/embed.h:33-42 | Over a domain covered within delta it loses at most 2 delta. |
| Embed.CertifiedIsConservative | include/futcache/embed.h:46-55 | At epsilon - 2 delta no point novel at epsilon is called seen, and no point within epsilon - 2 delta is called novel. |
| Embed.Create | src/embed.c:74-182 | A supplied bound certifies exactly when every probe is within it of an anchor, which a true bound never fails; without one the radius is the sampled one, a lower bound, and not certified; each status has its exact cause. |
| Embed.BoundMeetsSample | src/embed.c:169-176 | A bound is at least the sampled radius exactly when every probe is within it of an anchor. |
| Embed.BufferBytes | src/embed.c:326-329 | The guarded products reject exactly the buffers of too many bytes. |
| Embed.EmbedPoint | src/embed.c:194-218 | Writes the distances to the anchors; stops exactly at a negative one. |
| Embed.EmbedDistance | src/embed.c:269-280 | The L-infinity distance of the first coordinates. |
| Embed.AdjustedEpsilon | src/embed.c:242-263 | epsilon - 2 delta, refused without a certificate or when not positive. |
| Embed.CornerIsFarthest | src/embed.c:414-424 | No domain point is farther from an anchor than the corner made of its farther sides. |
| Embed.CoordinateBound | src/embed.c:407-428 | The accumulated bound is the distance to that corner. |
| Embed.AllBounds | src/embed.c:405-429 | Every embedded domain point stays within the bounds. |
| Embed.PackParameters | src/embed.c:286-429 | Certified embedding within the target radius, reduced threshold and valid bounds; arguments are out of range exactly when the least grid is too large or epsilon is at most twice its radius, never by the certificate check. |
| Recency.TouchTake | bench/cache_comparison.c:107-150 | One observation of a bounded cache is one of the unbounded recency list, truncated. |
| Recency.ReplayIsRecent | bench/cache_comparison.c:107-150 | After any stream the cache holds the first capacity keys of the recency list; capacity 0 acts as 1. |
| Recency.ResidentIffRecent | bench/cache_comparison.c:107-150 | A key is resident iff it is among the last capacity distinct keys. |
| Recency.LargerHoldsMore | bench/cache_comparison.c:107-150 | A hit at one capacity is a hit at every larger one. |
| Recency.LargerMissesLess | bench/cache_comparison.c:386-421 | No larger cache reports more novel points. |
| Lru.LruCache.constructor | bench/cache_comparison.c:73-85 | A new cache is valid and empty. |
| Lru.LruCache.UnlinkList | bench/cache_comparison.c:87-92 | Relinking the neighbours takes one node out of the doubly linked list. |
| Lru.LruCache.UnlinkChain | bench/cache_comparison.c:94-104 | Relinking takes the node out of its hash chain and out of no other. |
| Lru.LruCache.Previous | bench/cache_comparison.c:99-102 | The walk finds the node before. |
| Lru.LruCache.PushList | bench/cache_comparison.c:117-121 | Relinking puts a node at the head of the list. |
| Lru.LruCache.PushChain | bench/cache_comparison.c:122-123 | And at the head of its hash chain. |
| Lru.LruCache.Find | bench/cache_comparison.c:112-113 | The chain search finds a key exactly when it is resident. |
| Lru.LruCache.Unlink | bench/cache_comparison.c:87-105 | List and chains lose the node and stay well linked. |
| Lru.LruCache.MoveToFront | bench/cache_comparison.c:115-125 | A hit moves the node to the head. |
| Lru.LruCache.Evict | bench/cache_comparison.c:130-135 | A miss on a full list drops the least recent node. |
| Lru.LruCache.Insert | bench/cache_comparison.c:137-148 | A new node leads the list; the peak is kept. |
| Lru.LruCache.Observe | bench/cache_comparison.c:107-150 | The list of keys changes as the recency list does and the report is a miss; every resident node stays once in the list and once in its chain, within capacity. A failed allocation evicts and reports a hit. |
| Lru.RunLru | bench/cache_comparison.c:386-421 | Over any stream the number of novel reports, the peak and the final size are those of the recency list. |
| PrimeNumbers.EnoughPrimes | src/crdt.c:716-729 | There are as many primes as one likes. |
| PrimeNumbers.FirstPrimesUnique | examples/prime_novelty_experiment.c:201-244 | There is one list of the first primes of each length, so both generators agree. |
| PrimeTables.IsNextPrime | src/crdt.c:721-725 | Dividing by the primes found so far up to the root decides primality. |
| PrimeTables.FirstPrimesByDivision | src/crdt.c:715-729 | Terminates for every count with the first primes in order. |
| PrimeTables.Strike | examples/prime_novelty_experiment.c:222-226 | Strikes out exactly the multiples of a candidate from its square on. |
| PrimeTables.Sieve | examples/prime_novelty_experiment.c:214-227 | Up to the bound exactly the composites are struck out. |
| PrimeTables.CollectPrimes | examples/prime_novelty_experiment.c:228-232 | Copies the primes up to the bound until the table is full. |
| PrimeTables.GeneratePrimes | examples/prime_novelty_experiment.c:201-244 | Any first estimate gives the first primes; with memory it fails only when the arguments exceed the machine or too few primes lie below half of it. |
| Padic.PadicDistance | examples/prime_novelty_experiment.c:254-264 | The loop computes one over the power of the local prime in the difference. |
| Padic.PowerDividesIff | examples/prime_novelty_experiment.c:259-262 | The powers that divide are those up to the valuation. |
| Padic.Ultrametric | examples/prime_novelty_experiment.c:254-264 | The distance is an ultrametric: not negative, zero only between equals, symmetric, with the strong triangle inequality. |

## Left out

- Cdcl.InstrumentedCdcl.CollectConflicts: does not claim satisfaction of original unit clauses, because the engine never propagates them (`Cdcl.BaseUnitsAreNotPropagated` is a run that falsifies one, `CdclResults.FinalAssignmentModelsIff` the condition); clauses are taken to have pairwise distinct variables, as the generators produce.
- Cdcl.InstrumentedCdcl.MarkClause: does not model the floating-point rounding of activities, which only order the decisions.
- Numbers.BallExact: does not model the arithmetic of TwoSum itself; the residual is the exact one.
- IntervalCache.FutCache.Observe: does not model the rounding of the long double measure; the running total is exact, so the validator's tolerance is never used up. A tree of 2^64 - 1 nodes counts as out of memory.
- BoxList.BoxCache.Observe: does not model the byte accounting; a list of 2^64 - 1 boxes counts as out of memory.
- Lockstep.Replay: takes fewer than 2^64 - 1 calls, the most a list can count.
- Lockstep.ObserveBoth: takes fewer than 2^64 - 1 earlier observations.
- Snapshot.AcceptedIff: does not say that writing an accepted state again gives the same bytes, because a negative zero in a hand-made snapshot is read as zero.
- Persistence.Deserialize: does not model the platform check for binary64.
- Crdt.VoronoiCache.Merge: does not model the byte layout behind the FNV-1a priority; any function of point and payload will do. One answer stands for the two allocations of an update.
- Crdt.VoronoiCache.Send: does not model the aliasing of snapshot pointers with the cache; updates are copied.
- Fleet.RunFleet: does not model failing allocations, timing or the workload generators, and takes at least one worker, without which the code divides by zero.
- Anchors.EstimateCoveringRadius: does not model the generator of the probe points beyond its range [0, 1).
- Anchors.GenerateSafeGrid: does not model the Halton strategy, whose radius is only sampled.
- Embed.PackParameters: does not model the cache that is created from the parameters, which is not part of this model.
- Lru.LruCache.Observe: does not model negative zero and NaN keys, whose equality and hash disagree.
- PrimeTables.GeneratePrimes: does not model the logarithms of the first estimate, which is a parameter.
- The accessors, statistics copies and copy_intervals of the caches.
- The argument checks of the three cache constructors, which would only add easy members: configurations are taken to have passed them.
- Locks, allocator callbacks and platform checks.
- The packing cache, its VP-tree, the tower, persistence and selection engines, and the minimum description length search over them.
- The second CDCL engine in demos/cdcl_futcache_benchmark.py.
- Workload generators, embedding-model demos, plots, files and network access.
