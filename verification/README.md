# MiniOB in Dafny

A model of the parts of MiniOB (a small SQL database) where correctness is least obvious, with proofs that
hold for every input, every run and every interleaving.

- **Query rewriting and execution** (`Wrappers`, `Expressions`, `PredicatePushdown`, `Conjuncts`, `LogicalPlan`,
  `Rewriter`, `Execution`, `SelectRuns`). Three-valued evaluation, the split of a predicate into scan conjuncts and a residual,
  the rewrite rules with their fixpoint loop, and the pull operators. A plan's meaning is the stream it delivers:
  its rows and whether it ends normally or with a failure. Operators the rules do not look into have an arbitrary
  meaning, so the theorems hold whatever they do. A failing evaluation ends the stream, so the theorems also say
  which queries fail; the pushdown changes that, and the exact condition under which it does not is proved. For
  selects over one table the operators are run, and the run is the meaning of the plan.
- **Joins** (`Tuples`, `Joins`, `JoinOperators`). Column lookup in stored, joined and cached tuples, both join
  operators as pull machines over children that may fail, each proved to deliver its exact stream, and the
  theorems about when the two streams hold the same pairs.
- **Recursive read/write lock** (`RecursiveSharedMutex`). The critical sections as methods of the lock object, and
  all interleavings of any number of threads through them, with both condition variables and spurious wake-ups.
- **MD5 streaming** (`Md5`, `Md5Context`), for an arbitrary compression function, against RFC 1321.
- **LRU cache** (`LruHistory`, `LruCache`). Pointers and index refine an ordered list, and the list is what the
  history of operations prescribes.
- **Calendar** (`Calendar`, `Durations`). Julian day numbers, the addition of durations, weekdays.
- **Buffers** (`RingBuffer`, `BufferedWriter`), **thread pool** (`ThreadPool`), **aggregate validator**
  (`AggregateValidator`), **item pool** (`MemPool`), **bitmap** (`Bitmap`).

Check the whole project with `dafny verify dfyconfig.toml`.

## Where the code does not do what it is for

Each of these is proved, with the exact condition under which the code is right.

- *Constant false filters.* The splice rule leaves the parent of a constant-false predicate without children. A
  projection without children is a constant select: it delivers one tuple (and fails if the select list needs a
  column of it), so `select 1 from t where 0` yields a row, and so does `where null`
  (`Rewriter.NeverTrueSelect`). In a grouped select the group is left without a child, which the physical planner
  refuses; and without a FROM part any constant filter vanishes (`Rewriter.SelectKeptIff`). In general, a parent is
  right if and only if without children it means what it means over a child that delivers nothing (`Rewriter.SpliceKeepsMeaningIff`). Constant-false predicates that no rule touches
  are harmless (`Rewriter.FalseLeftAlone`).
- *Failing conjuncts.* The scan tests the pushed conjuncts first and stops at the first that is not true, so the
  optimized query can fail where the original ends normally (`1 > 2 and a = <failing>`,
  `Execution.PushdownAddsFailure`) and end normally where the original fails (`<failing> and a = 1` on `a = 2`,
  `Execution.PushdownHidesFailure`). `Conjuncts.FailsIff` and `Conjuncts.SplitFailsIff` say for each row when
  either form fails. The split changes nothing on rows the scan passes; on a row the scan rejects it changes nothing
  if and only if the predicate does not fail there, and on a row the scan fails on if and only if the predicate
  fails with the same code (`Conjuncts.SplitKeepsVerdictIff`). A select over one table keeps its stream on all data
  if and only if its filter is not a constant false or NULL and that holds on every row (`Rewriter.SelectKeptIff`,
  `SelectRuns.SelectRunsAlikeIff`).
- *Stacked predicates.* Pushing down replaces the predicates of the scan instead of adding to them
  (`Rewriter.StackedPredicatesLoseOne`); no statement plans such a stack today. Where nothing fails, one pushdown is
  right if and only if the predicate implies what was there (`LogicalPlan.PushdownRowsIff`); `Rewriter.Rewritable`
  is the plan condition that rules the clash out.
- *What is pushed.* The second guard of the pushdown never fires: an equality moves as soon as one side is a column,
  although the comment asks the other side to be a column or a constant (`PredicatePushdown.CanPushIffAColumnSide`).
  The model follows the code.
- *Keys read from cached tuples.* A cached tuple compares aliases before names. No column is asked for with an alias
  and no stored column has one, so every left key is the first cell of the left tuple, and so is every column read
  by name above the equi-join (`Tuples.CachedIsFirstCell`, `Tuples.JoinedWithCacheReadsFirstCell`). The equi-join
  returns the pairs of the nested loop on all data without NULLs if and only if its left column is the first
  (`Joins.JoinsAgreeOnAllDataIff`, `Joins.OtherColumnLosesPair`). The first stored column of a table is a system
  column (src/observer/storage/table/table_meta.cpp:66-90), so no column of the user's is read right.
- *NULL join keys.* The map order treats NULL as equal to everything, so a right row with a NULL key joins with every
  cached row. On the first left column, with non-NULL left keys, the two joins agree if and only if no right key is
  NULL or the left side is empty (`Joins.FirstColumnJoinsAgreeIff`).
- *Join conditions with their sides the other way round.* The left key is found all the same, in the first cached
  cell; the right key is not, so the join fails on the first right row, and ends normally when there is none
  (`JoinOperators.SidesSwapped`).
- *Empty disjunction.* It evaluates to true (`Expressions.ConjunctionIsKleene`).
- *Durations that lead below January.* When the months lead to a month of the starting year or later, or to the
  January of any year, only the days can go wrong: the backward carry counts December as 28 days, and the sum is right if and only if the days do not lead before 1 January of the
  shifted year (`Durations.DayBeforeNewYear`). When the months lead to any other month of an earlier year, every month is
  taken for 28 days long, by the clamp as well: 31 January 2000 and `P-1M` give 28 December 1999
  (`Durations.MonthBeforeJanuary`). `Durations.AddsRight` is the exact condition for both
  (`Durations.AdditionExactIff`, `Durations.LowCarryIff`).
- *Large MD5 chunks.* With bytes buffered, and the chunk reaching 2^32 together with them, the block loop's position
  wraps to where it began and the loop never ends; in every other case, a chunk of 2^32 - 1 bytes into an empty
  buffer included, the guard is right wherever it is tested (`Md5Context.LoopEndsIff`, `Md5Context.GuardExactIff`,
  `Md5Context.WrappingChunk`).
- *Lock upgrades.* A thread that asks for one kind of hold while it has the other waits forever and blocks all later
  writers (`RecursiveSharedMutex.UpgradesAreReachable`, `RecursiveSharedMutex.TrappedForever`). All waits can still
  end if and only if nobody has done so (`RecursiveSharedMutex.WaitEndsIffNoUpgrade`).
- *A second `init` of the thread pool.* After a failed one it may ask for fewer threads than are already there
  (`ThreadPool.LeftOverExceeds`); every other step keeps the table within the maximal size
  (`ThreadPool.StepKeepsSizeIff`).
- *Clearing an allocated item.* Four bytes are cleared whatever the item size. That stays inside the item if and
  only if items have four bytes or more, and clears all of it if and only if they have four or fewer
  (`MemPool.ClearingFitsIff`).

## Model

| member | source | states |
|---|---|---|
| `Expressions.EvalConjunctsIsKleene` | src/observer/sql/expr/expression.cpp:227-265 | the loop with its NULL flag and early exit computes the Kleene conjunction or disjunction of all children |
| `Expressions.ConjunctionIsKleene` | src/observer/sql/expr/expression.cpp:227-265 | a conjunction has its Kleene value except exactly for the empty disjunction |
| `Expressions.DeMorgan` | src/observer/sql/expr/expression.cpp:535-556 | NOT of an AND has the truth of the OR of the NOTs |
| `Expressions.OppositeComparisons` | src/observer/sql/expr/expression.cpp:122-160 | opposite operators have opposite truth; NULL operands give NULL before the operator is looked at |
| `Expressions.CompareIsTrichotomy` | src/observer/sql/expr/expression.cpp:122-160 | exactly one of less, equal and greater holds of two values, and the other operators are put together from them |
| `Expressions.CompareIsOrder` | src/observer/sql/parser/value.cpp:301-334 | the order is transitive, equal values are interchangeable, numbers are ordered as usual and booleans as zero and one |
| `Expressions.TruthIsNotZero` | src/observer/sql/parser/value.cpp:414-453 | a value is true exactly when it is not equal to zero |
| `Expressions.ComparisonOutcome` | src/observer/sql/expr/expression.cpp:122-160 | a comparison fails with its left side, else its right side, else on an unsupported operator; otherwise it is NULL exactly when a side is |
| `Expressions.ColumnAgainstNumber` | src/observer/sql/expr/expression.cpp:137-155 | which rows `column = n`, `column < n` and so on accept |
| `Expressions.DualNegates` | src/observer/sql/expr/expression.cpp:194-265 | for trees of any depth, turning operators and conjunctions around gives the opposite truth and exactly the same failures |
| `Expressions.AndAcceptsIffAllAccept` | src/observer/sql/expr/expression.cpp:227-265 | AND accepts a row exactly when every child does, failing children included |
| `Expressions.GetValue` | src/observer/sql/expr/expression.cpp:194-218 | the evaluator, kind by kind, with its failures |
| `Expressions.ConjunctionGetValue` | src/observer/sql/expr/expression.cpp:227-265 | the loop over the children of a conjunction |
| `PredicatePushdown.SplitKeepsAcceptance` | src/observer/sql/optimizer/predicate_pushdown_rewriter.cpp:39-125 | for every predicate tree and row, the predicate accepts exactly when all pushed conjuncts and the residual do |
| `Conjuncts.AndByLeaves` | src/observer/sql/expr/expression.cpp:227-265 | a tree of ANDs evaluates as the flat list of its conjuncts, failures included |
| `Conjuncts.LeavesAreNoAnds` | src/observer/sql/optimizer/predicate_pushdown_rewriter.cpp:78-100 | the conjuncts are taken out of ANDs of any depth |
| `Conjuncts.SplitByLeaves` | src/observer/sql/optimizer/predicate_pushdown_rewriter.cpp:74-125 | the split takes exactly the pushable conjuncts out and leaves the others, in order |
| `Conjuncts.FailsIff` | src/observer/sql/operator/predicate_physical_operator.cpp:46-49 | the original predicate fails on a row exactly when the first conjunct that is false or fails is one that fails |
| `Conjuncts.SplitFailsIff` | src/observer/sql/operator/table_scan_physical_operator.cpp:80-105 | the split form fails exactly when the first pushed conjunct that is not true fails, or all are true and the residual fails |
| `Conjuncts.SplitKeepsVerdictIff` | src/observer/sql/optimizer/predicate_pushdown_rewriter.cpp:39-65 | a row is accepted, rejected or fails alike before and after the split exactly when the scan passes the row, or rejects it and the predicate does not fail, or fails as the predicate does |
| `Conjuncts.EvaluatesIsSafe` | src/observer/sql/optimizer/predicate_pushdown_rewriter.cpp:39-65 | where pushed conjuncts and residual evaluate, the original does too and all agree |
| `PredicatePushdown.ResidualPushesNothing` | src/observer/sql/optimizer/predicate_pushdown_rewriter.cpp:74-125 | a second split of the residual moves nothing |
| `PredicatePushdown.NothingPushedNothingChanged` | src/observer/sql/optimizer/predicate_pushdown_rewriter.cpp:61-65 | when nothing was moved the predicate is as it was |
| `PredicatePushdown.CanPushIffAColumnSide` | src/observer/sql/optimizer/predicate_pushdown_rewriter.cpp:101-122 | an expression is pushed exactly when it is an equality with a column on one side |
| `PredicatePushdown.GetExprsCanPushdown` | src/observer/sql/optimizer/predicate_pushdown_rewriter.cpp:74-125 | the recursive split computes residual and pushed conjuncts, in order |
| `PredicatePushdown.PushdownChildren` | src/observer/sql/optimizer/predicate_pushdown_rewriter.cpp:85-100 | the erasing loop over the children of an AND |
| `LogicalPlan.SelectTwice` | src/observer/sql/operator/predicate_physical_operator.cpp:32-60 | a filter over a filtered scan is one selection by all predicates in order, in rows and in how it ends |
| `LogicalPlan.SelectUpToFailure` | src/observer/sql/operator/table_scan_physical_operator.cpp:45-50 | up to the first row on which a test fails the accepted rows are delivered, then the failure |
| `LogicalPlan.WhereMeans` | src/observer/sql/operator/predicate_physical_operator.cpp:32-60 | an accepted row stays in its place, any other is left out |
| `LogicalPlan.PushdownStreamsIff` | src/observer/sql/optimizer/predicate_pushdown_rewriter.cpp:39-65 | scan with the pushed conjuncts plus residual filter gives the stream of the original predicate on all data exactly when the split is safe on every row |
| `LogicalPlan.PushdownRowsIff` | src/observer/sql/operator/table_get_logical_operator.cpp:21-24 | where nothing fails, overwriting scan predicates keeps the stream exactly when the predicate implies them |
| `Rewriter.RewriteShrinks` | src/observer/sql/optimizer/rewriter.cpp:29-66 | a pass that reports a change lowers predicates plus pushable conjuncts; one that reports none changed nothing |
| `Rewriter.FixpointIsNormal` | src/observer/sql/optimizer/optimize_stage.cpp:85-100 | the loop ends where no rule applies anywhere, in a plan of the settled shape, and is idempotent |
| `Rewriter.NormalIffSettled` | src/observer/sql/optimizer/predicate_rewrite.cpp:19-41 | no rule applies exactly when no operator has a constant predicate as its only child and no predicate right above a scan has an equality with a column among its conjuncts |
| `Rewriter.UnchangedIffNormal` | src/observer/sql/optimizer/rewriter.cpp:29-66 | a pass reports no change exactly on plans no rule applies to |
| `Rewriter.SpliceKeeps` | src/observer/sql/optimizer/predicate_rewrite.cpp:19-66 | splicing out a constant predicate keeps the meaning and the conditions of later steps |
| `Rewriter.PushdownKeeps` | src/observer/sql/optimizer/predicate_pushdown_rewriter.cpp:21-66 | pushing down keeps the stream, failures included, and the conditions of later steps |
| `Rewriter.RewriteKeeps` | src/observer/sql/optimizer/rewriter.cpp:29-66 | so does a whole pass over a plan of any shape |
| `Rewriter.FixpointKeepsMeaning` | src/observer/sql/optimizer/optimize_stage.cpp:85-100 | the optimized plan delivers the same rows and ends the same way, for every stored data and every meaning of the other operators |
| `Rewriter.SpliceKeepsMeaningIff` | src/observer/sql/optimizer/predicate_rewrite.cpp:42-65 | a splice keeps the meaning exactly when the constant is true or a childless parent means what it means over a child without rows |
| `Rewriter.NeverTrueSelect` | src/observer/sql/optimizer/predicate_rewrite.cpp:42-65 | a select with a constant false or NULL filter loses everything below projection and group; ungrouped, it has no rows and its optimized form has one |
| `Rewriter.SelectKeptIff` | src/observer/sql/optimizer/logical_plan_generator.cpp:155-205 | a select, grouped or not, with or without filter and FROM part, keeps its stream for all data exactly under the stated condition on the filter |
| `Rewriter.SelectMeans` | src/observer/sql/optimizer/logical_plan_generator.cpp:155-205 | the plan of a select means the projection of the accepted rows, through the group if there is one |
| `Rewriter.FalseLeftAlone` | src/observer/sql/optimizer/predicate_rewrite.cpp:21-40 | a constant-false predicate at the root or beside another child meets the conditions |
| `Rewriter.TrueInBetween` | src/observer/sql/optimizer/predicate_rewrite.cpp:42-61 | a constant true between a predicate and the scan does not stand in the way |
| `Rewriter.StackedPredicatesLoseOne` | src/observer/sql/operator/table_get_logical_operator.cpp:21-24 | two stacked pushing predicates bring back a rejected row |
| `Rewriter.PredicateRewrite` | src/observer/sql/optimizer/predicate_rewrite.cpp:19-66 | the splice rule with its guards |
| `Rewriter.PredicatePushdownRewrite` | src/observer/sql/optimizer/predicate_pushdown_rewriter.cpp:21-66 | the pushdown rule with its guards and the fake true |
| `Rewriter.RewritePass` | src/observer/sql/optimizer/rewriter.cpp:29-66 | rules in order, then the children |
| `Rewriter.RewriteChildren` | src/observer/sql/optimizer/rewriter.cpp:52-64 | the loop over the children |
| `Rewriter.OptimizeRewrite` | src/observer/sql/optimizer/optimize_stage.cpp:85-100 | the do-while loop terminates in a plan of the settled shape with the meaning of the original |
| `Execution.TableScan.Filter` | src/observer/sql/operator/table_scan_physical_operator.cpp:80-105 | accepts exactly when every predicate is true; the first that is not decides between rejection and failure |
| `Execution.VisibleMeans` | src/observer/sql/operator/table_scan_physical_operator.cpp:37-45 | exactly the visible records are seen, each in its place |
| `Execution.TableScan.Next` | src/observer/sql/operator/table_scan_physical_operator.cpp:33-63 | delivers the next row still to come, skipping invisible and rejected records, or ends as the stream does, a failing record scanner included |
| `Execution.PredicateOperator.Next` | src/observer/sql/operator/predicate_physical_operator.cpp:32-60 | pulls until a row is accepted, or ends as the stream does |
| `Execution.Drain` | src/observer/sql/operator/predicate_physical_operator.cpp:32-60 | a full run is exactly the stream: all its rows and its end |
| `Execution.RunPlain` | src/observer/sql/operator/predicate_physical_operator.cpp:32-60 | the unoptimized run is the selection by the predicate |
| `Execution.RunPushedDown` | src/observer/sql/optimizer/predicate_pushdown_rewriter.cpp:39-65 | the optimized run is the selection by pushed conjuncts and residual, and the same as the unoptimized one where the split is safe |
| `Execution.RunsAgreeWithoutFailures` | src/observer/sql/optimizer/predicate_pushdown_rewriter.cpp:39-65 | where pushed conjuncts and residual evaluate, both runs deliver all accepted rows and end as the record scanner does |
| `Execution.PushdownAddsFailure` | src/observer/sql/operator/table_scan_physical_operator.cpp:46-49 | a query that ends normally and fails after optimization |
| `Execution.PushdownHidesFailure` | src/observer/sql/operator/table_scan_physical_operator.cpp:46-49 | a query that fails and ends normally after optimization |
| `SelectRuns.ProjectOperator.Next` | src/observer/sql/operator/project_physical_operator.cpp:41-53 | projects the next row of the child; without a child one tuple and then the end |
| `SelectRuns.RunPlan` | src/observer/sql/optimizer/physical_plan_generator.cpp:100-233 | the operators created for a plan over one table deliver exactly the meaning of the plan |
| `SelectRuns.RunSelect` | src/observer/sql/optimizer/optimize_stage.cpp:85-100 | a select over one table, optimized and run, delivers the meaning of the optimized plan, and where the filter is harmless the projection of the stored rows it accepts |
| `SelectRuns.SelectRunsAlikeIff` | src/observer/sql/optimizer/optimize_stage.cpp:85-100 | the optimized and the original plan run alike on all records exactly under the condition on the filter |
| `Tuples.CacheFindCell` | src/observer/sql/expr/tuple.h:655-675 | the lookup in a cached tuple: aliases first, then table and field |
| `Tuples.RowFindCell` | src/observer/sql/expr/tuple.h:187-203 | the lookup in a stored tuple |
| `Tuples.CloneTuple` | src/observer/sql/expr/tuple.h:690-710 | copies the cells, or refuses a tuple that does not fit the schema |
| `Tuples.LocateIsFirstColumn` | src/observer/sql/expr/tuple.h:386-394 | in stored and joined tuples the lookup finds the first cell of that table and field |
| `Tuples.CachedIsFirstCell` | src/observer/sql/expr/tuple.h:655-675 | in a cached tuple every column by name is the first cell |
| `Tuples.CachedLocateMeans` | src/observer/sql/expr/tuple.h:655-675 | which cell a cached tuple finds, whatever the aliases |
| `Tuples.CachedLookupAgreesIff` | src/observer/sql/expr/tuple.h:655-675 | caching keeps the lookup of exactly the first column |
| `Tuples.JoinedWithCacheReadsFirstCell` | src/observer/sql/expr/tuple.h:386-394 | above an equi-join every column of either side reads as the first left cell |
| `Joins.EqualRange` | src/observer/sql/operator/hash_join_physical_operator.cpp:124-127 | the range of a key is exactly the entries with it; the range of NULL is the whole table |
| `Joins.BuildWithKey` | src/observer/sql/operator/hash_join_physical_operator.cpp:84-98 | the cached entries under a key are the left rows with it, in left order, however the key is read |
| `Joins.ProbeIsFilteredProduct` | src/observer/sql/operator/hash_join_physical_operator.cpp:108-153 | the equi-join enumerates the product filtered by the keys it reads, plus all left rows for each NULL right key |
| `Joins.JoinsAgreeIff` | src/observer/sql/parser/value.h:143-153 | for a condition on the keys the equi-join reads, both joins return the same multiset exactly when no right key is NULL or the left side is empty |
| `Joins.FirstColumnJoinsAgreeIff` | src/observer/sql/operator/hash_join_physical_operator.cpp:84-98 | the same for the joins of the code, when the left column is the first |
| `Joins.OtherColumnLosesPair` | src/observer/sql/expr/tuple.h:661-665 | for any other left column there are two rows that the nested loop joins and the equi-join does not |
| `Joins.SecondColumnExample` | src/observer/sql/expr/tuple.h:661-665 | t1(x, y) and t2(z) on t1.y = t2.z: a pair that only the nested loop delivers |
| `Joins.JoinsAgreeOnAllDataIff` | src/observer/sql/operator/hash_join_physical_operator.cpp:72-134 | the joins of the code agree on all data without NULLs exactly when the left column is the first |
| `Joins.ProductAt` | src/observer/sql/operator/join_physical_operator.cpp:37-65 | the product holds every pair once, at its left-major place |
| `JoinOperators.NestedLoopJoin.Open` | src/observer/sql/operator/join_physical_operator.cpp:19-35 | fails as the left child does, or everything is still to come |
| `JoinOperators.NestedLoopJoin.LeftNext` | src/observer/sql/operator/join_physical_operator.cpp:87-98 | the next left row, or the end of the left side |
| `JoinOperators.NestedLoopJoin.RightNext` | src/observer/sql/operator/join_physical_operator.cpp:100-133 | the next right row, after closing and opening again when a round is done; or the failure or end met there |
| `JoinOperators.NestedLoopJoin.Next` | src/observer/sql/operator/join_physical_operator.cpp:37-65 | delivers the next pair of the stream, or ends as it does; a round without rows ends it at once, with left rows unread |
| `JoinOperators.LoopIsProduct` | src/observer/sql/operator/join_physical_operator.cpp:37-65 | over children that do not fail the stream is the product in left-major order |
| `JoinOperators.LoopFailsIff` | src/observer/sql/operator/join_physical_operator.cpp:19-133 | exactly which failures of the children make the nested loop fail |
| `JoinOperators.LoopIsPrefix` | src/observer/sql/operator/join_physical_operator.cpp:37-65 | whatever fails, what was delivered is a beginning of the product |
| `JoinOperators.RbTreeEqJoin.Open` | src/observer/sql/operator/hash_join_physical_operator.cpp:11-32 | fails as the stream does, or the whole probe is still to come |
| `JoinOperators.RbTreeEqJoin.GenerateTable` | src/observer/sql/operator/hash_join_physical_operator.cpp:72-106 | caches copies of the left rows in the order of the keys read from the copies, or fails with the first failure met |
| `JoinOperators.RbTreeEqJoin.FetchInRange` | src/observer/sql/operator/hash_join_physical_operator.cpp:136-153 | the next pair of the current range, or the range is used up |
| `JoinOperators.RbTreeEqJoin.FetchInTable` | src/observer/sql/operator/hash_join_physical_operator.cpp:108-134 | the first pair of the next right row that matches, or the end of the stream |
| `JoinOperators.RbTreeEqJoin.Next` | src/observer/sql/operator/hash_join_physical_operator.cpp:34-55 | delivers the next pair of the right-major probe, or ends as it does |
| `JoinOperators.EquiFailsIff` | src/observer/sql/operator/hash_join_physical_operator.cpp:11-134 | the equi-join fails exactly when a child fails or a key on either side does |
| `JoinOperators.ProbeUpToFailure` | src/observer/sql/operator/hash_join_physical_operator.cpp:108-122 | up to the first right key that fails the probe is delivered, then the failure |
| `JoinOperators.SidesSwapped` | src/observer/sql/operator/hash_join_physical_operator.cpp:90-122 | with the sides the other way round it fails on the first right row, and only there |
| `JoinOperators.RunEquiJoin` | src/observer/sql/operator/hash_join_physical_operator.cpp:34-55 | a full run is exactly the probe in right-major order, and its end |
| `JoinOperators.RunNestedLoop` | src/observer/sql/operator/join_physical_operator.cpp:37-65 | a full run is exactly the nested loop, under the filter if there is one, and its end |
| `JoinOperators.SelectPairsUpToFailure` | src/observer/sql/operator/predicate_physical_operator.cpp:46-49 | up to the first pair on which the condition fails those on which it holds are delivered, then the failure |
| `JoinOperators.RunJoin` | src/observer/sql/optimizer/physical_plan_generator.cpp:298-364 | without a condition the bare nested loop, so the product; the filtered nested loop for any condition but an equality of columns; the equi-join for an equality, with the pairs of the filtered product on the first left column |
| `JoinOperators.FirstColumnExample` | src/observer/sql/optimizer/physical_plan_generator.cpp:318-347 | t1(x, y) and t2(z) on t1.x = t2.z is a case in which both joins agree, whatever numbers are stored |
| `RecursiveSharedMutex.RecursiveSharedMutex.LockSharedRound` | deps/common/lang/mutex.cpp:375-382 | gets through exactly when no write hold is outstanding, and otherwise leaves the thread waiting; keeps exclusion and wake-ups |
| `RecursiveSharedMutex.RecursiveSharedMutex.TryLockShared` | deps/common/lang/mutex.cpp:384-392 | the same without waiting |
| `RecursiveSharedMutex.RecursiveSharedMutex.UnlockShared` | deps/common/lang/mutex.cpp:394-401 | gives one read hold back; when it was the last, no writer sleeps without one on its way |
| `RecursiveSharedMutex.RecursiveSharedMutex.LockRound` | deps/common/lang/mutex.cpp:403-416 | gets through exactly when every outstanding hold is a write hold of the caller |
| `RecursiveSharedMutex.RecursiveSharedMutex.Unlock` | deps/common/lang/mutex.cpp:418-432 | the lock is free exactly when this was the only write hold left; then no reader sleeps and a waiting writer is on its way |
| `RecursiveSharedMutex.RunSchedule` | deps/common/lang/mutex.cpp:375-432 | any schedule driven through the object ends in the state of the state machine |
| `RecursiveSharedMutex.StepKeepsInv` | deps/common/lang/mutex.cpp:375-432 | every step of any thread keeps exclusion, counters and wake-ups |
| `RecursiveSharedMutex.Safety` | deps/common/lang/mutex.cpp:375-432 | in every reachable state: counters equal the outstanding holds; with the lock free a sleeping writer implies a notified one; no reader sleeps while no writer holds the lock |
| `RecursiveSharedMutex.ExclusionByThread` | deps/common/lang/mutex.cpp:375-432 | at most one writer thread, and no reader beside it |
| `RecursiveSharedMutex.OwnedUntilMatched` | deps/common/lang/mutex.cpp:403-432 | over any run the owner keeps the lock alone until its unlocks match its locks, and that unlock releases it |
| `RecursiveSharedMutex.LockedTwice` | deps/common/lang/mutex.cpp:403-432 | locked twice and unlocked once, the lock is still owned, and one more unlock frees it |
| `RecursiveSharedMutex.TrappedForever` | deps/common/lang/mutex.cpp:375-416 | waiting for one kind of hold while having the other never ends and blocks all later writers |
| `RecursiveSharedMutex.TrappedIffUpgraded` | deps/common/lang/mutex.cpp:375-416 | a step traps a thread exactly when it is that thread asking for one kind of hold while having the other |
| `RecursiveSharedMutex.UpgradesAreReachable` | deps/common/lang/mutex.cpp:375-416 | both upgrades trap a thread of a fresh lock |
| `RecursiveSharedMutex.RunToIdle` | deps/common/lang/mutex.cpp:375-432 | from an untrapped state a run leads to one in which nobody waits or holds |
| `RecursiveSharedMutex.WaitEndsIffNoUpgrade` | deps/common/lang/mutex.cpp:375-432 | a reachable state can go on to one in which nobody waits exactly when the run so far has no upgrade |
| `Md5.BlocksAppend` | deps/common/math/md5.cpp:170-200 | continuing from the state with the tail is the same as starting over with the longer message |
| `Md5.InitialBytes` | deps/common/math/md5.cpp:160-163 | the initial words have the bytes of RFC 1321 section 3.3, and a digest writes words that way |
| `Md5.PaddingIsFewest` | deps/common/math/md5.cpp:206-222 | the padded message: a byte 0x80, the fewest zeros, and eight bytes of length in bits |
| `Md5.Encode` | deps/common/math/md5.cpp:329-339 | words to bytes, low-order byte first |
| `Md5.Decode` | deps/common/math/md5.cpp:345-352 | the words whose encoding is the input, for every input of whole words |
| `Md5.CountBytes` | deps/common/math/md5.cpp:211-212 | the two count words encode as the 64-bit length |
| `Md5Context.CountAdds` | deps/common/math/md5.cpp:177-180 | the two-word count with its carry is addition modulo 2^64 |
| `Md5Context.IndexIsTailLength` | deps/common/math/md5.cpp:174-175 | the buffer index is the message length modulo 64, even after the count has wrapped |
| `Md5Context.GuardExactIff` | deps/common/math/md5.cpp:191-192 | at the visited positions the guard means "a whole block is left" exactly when the buffer is empty or buffered bytes plus chunk stay below 2^32 |
| `Md5Context.LoopEndsIff` | deps/common/math/md5.cpp:191-192 | the loop, with its 32-bit position, ends exactly under that condition |
| `Md5Context.Context.constructor` | deps/common/math/md5.cpp:154-164 | the initial context holds the four words of the RFC and a zero count, and stands for the empty message |
| `Md5Context.Context.TransformBlocks` | deps/common/math/md5.cpp:191-192 | the loop absorbs all whole blocks |
| `Md5Context.Context.Absorb` | deps/common/math/md5.cpp:182-196 | completes the buffered block, absorbs whole blocks, and leaves the tail |
| `Md5Context.Context.Update` | deps/common/math/md5.cpp:170-200 | the context then stands for the message with the chunk appended |
| `Md5Context.Context.Final` | deps/common/math/md5.cpp:206-230 | the digest of the padded message of RFC 1321, and a cleared context |
| `Md5Context.DigestOfChunks` | deps/common/math/md5.cpp:170-230 | however a message is cut into chunks that fit, the digest is that of the whole message |
| `LruHistory.RunReflectsHistory` | deps/common/lang/lru_cache.h:107-139 | after any operations: last put value under each key, distinct keys, most recently used first |
| `LruCache.Cache.Unlink` | deps/common/lang/lru_cache.h:175-181 | taking a node out leaves one list of the others |
| `LruCache.Cache.LinkFront` | deps/common/lang/lru_cache.h:194-204 | putting a node in front gives one list |
| `LruCache.Cache.LruTouch` | deps/common/lang/lru_cache.h:168-189 | the node moves to the front, the others keep their order |
| `LruCache.Cache.LruPush` | deps/common/lang/lru_cache.h:191-206 | a new node in front and in the index |
| `LruCache.Cache.LruRemove` | deps/common/lang/lru_cache.h:208-227 | the node is gone from list and index |
| `LruCache.Cache.Get` | deps/common/lang/lru_cache.h:107-117 | finds the value and moves the entry to the front; otherwise changes nothing |
| `LruCache.Cache.Put` | deps/common/lang/lru_cache.h:119-131 | the entry is in front with its new value |
| `LruCache.Cache.Remove` | deps/common/lang/lru_cache.h:133-139 | the entry is gone |
| `LruCache.Cache.ForEach` | deps/common/lang/lru_cache.h:147-155 | visits the entries in order up to the first one declined |
| `LruCache.Cache.ForEachReverse` | deps/common/lang/lru_cache.h:157-165 | visits the reverse order up to the first one declined |
| `LruCache.RunOps` | deps/common/lang/lru_cache.h:107-227 | after any operations on the pointers: the value last put under each key, distinct keys, most recently used first; every get answered with the value last put |
| `Calendar.DateRoundTrip` | deps/common/time/datetime.h:232-252 | date to day number to date, for every valid date from 1 March -4800 on |
| `Calendar.DayRoundTrip` | deps/common/time/datetime.h:232-252 | day number to a valid date and back |
| `Calendar.NextDayIsNextNumber` | deps/common/time/datetime.h:232-252 | consecutive day numbers are consecutive dates |
| `Calendar.NoOverflowIff` | deps/common/time/datetime.h:241-252 | every intermediate value fits 32 bits exactly up to day 536838867 |
| `Calendar.MaxDayIsDaysIn` | deps/common/time/datetime.cpp:232-250 | the month lengths of the Gregorian calendar, leap rule included |
| `Durations.CarryForward` | deps/common/time/datetime.cpp:211-226 | carrying forward keeps the day number and ends on a valid date |
| `Durations.CarryBackPastJanuary` | deps/common/time/datetime.cpp:211-226 | carrying back past January loses at least three days |
| `Durations.CarryExactIff` | deps/common/time/datetime.cpp:211-226 | the carry keeps the day number exactly when the day is not before 1 January of its year |
| `Durations.DayBeforeNewYear` | deps/common/time/datetime.cpp:211-226 | the day before 1 January 2000 comes out three days early |
| `Durations.LowCarryIff` | deps/common/time/datetime.cpp:200-226 | from a month below January the carry makes up for the clamp exactly under the stated condition |
| `Durations.MonthBeforeJanuary` | deps/common/time/datetime.cpp:178-208 | one month back from 31 January 2000 comes out three days early |
| `Durations.ClockCarries` | deps/common/time/datetime.cpp:184-197 | the carries of seconds, minutes and hours lose nothing, whatever the signs of duration and time of day |
| `Durations.ClockRestBounds` | deps/common/time/datetime.cpp:184-197 | what is left of the clock stays within a day of zero |
| `Durations.TicksMeans` | deps/common/time/datetime.h:109-116 | whole seconds rounded towards zero, minutes and seconds below sixty |
| `Durations.ShiftMeans` | deps/common/time/datetime.cpp:178-208 | the prescribed start: whole months later, on the same day or else the last day of the month |
| `Durations.AdditionExactIff` | deps/common/time/datetime.cpp:158-230 | to the second, the sum is the prescribed one exactly under the stated condition, for month shifts in either direction; so always for non-negative durations |
| `Durations.AddableWidely` | deps/common/time/datetime.cpp:158-230 | every date takes every duration without negative parts, rightly, and dates of positive years whatever leads back less than 4400 years |
| `Durations.DateTime.AddDuration` | deps/common/time/datetime.cpp:158-230 | the method itself, with the time of day normalised for non-negative durations |
| `Durations.CarryLoop` | deps/common/time/datetime.cpp:211-226 | the loop terminates for every year, month and day |
| `Durations.DayOfYear` | src/observer/sql/expr/function.cpp:209-225 | one plus the day-number distance from 1 January |
| `Durations.DayOfWeek` | src/observer/sql/expr/function.cpp:229-244 | the day number modulo seven, from year 1000 on |
| `RingBuffer.WindowAppend` | src/observer/net/ring_buffer.cpp:98-105 | a piece written behind the queued bytes extends them, around the end and up to full |
| `RingBuffer.Ring.Write` | src/observer/net/ring_buffer.cpp:88-109 | appends as much as there is room for, and says how much |
| `RingBuffer.Ring.Peek` | src/observer/net/ring_buffer.cpp:54-71 | all queued bytes up to the end of the buffer, oldest first |
| `RingBuffer.Ring.Forward` | src/observer/net/ring_buffer.cpp:73-86 | drops the oldest bytes, or nothing on a bad size |
| `RingBuffer.Ring.Read` | src/observer/net/ring_buffer.cpp:30-52 | takes the oldest bytes out, in order |
| `RingBuffer.PositionFitsIff` | src/observer/net/ring_buffer.h:86 | the position arithmetic fits 32 bits in every state exactly for capacities up to 2^30 |
| `BufferedWriter.Writer.FlushInternal` | src/observer/net/buffered_writer.cpp:102-137 | moves bytes to the sink without losing or reordering any; succeeds exactly when the answers of the descriptor are good for what is asked, and a failure uses up answers up to a refusal or the last one |
| `BufferedWriter.EnoughIff` | src/observer/net/buffered_writer.cpp:102-137 | the answers are good for what is asked exactly when, up to the first refusal, they take it: together, or first the bytes before the end of the buffer and then the others |
| `BufferedWriter.PositivesMeans` | src/observer/net/buffered_writer.cpp:118-132 | answers that all take something take at least a byte each |
| `BufferedWriter.Writer.Write` | src/observer/net/buffered_writer.cpp:46-61 | takes everything or fills the buffer; touches the sink only when the buffer is full, and fails exactly when that flush does |
| `BufferedWriter.Writer.WriteN` | src/observer/net/buffered_writer.cpp:63-82 | all data on success, a prefix on error; a failure is a refusal or the end of the answers, and enough answers that take something mean success |
| `BufferedWriter.Writer.Flush` | src/observer/net/buffered_writer.cpp:84-95 | succeeds exactly when the answers are good for all that is pending, and then everything has arrived |
| `BufferedWriter.Writer.Clean` | src/observer/net/buffered_writer.cpp:97-100 | discards what is pending and nothing else |
| `BufferedWriter.Writer.Close` | src/observer/net/buffered_writer.cpp:30-44 | closes exactly when that flush succeeds |
| `ThreadPool.StepKeepsInv` | deps/common/thread/thread_pool_executor.cpp:32-218 | every step of clients and workers keeps the table, the lock, the counters and the whereabouts of every task |
| `ThreadPool.Safety` | deps/common/thread/thread_pool_executor.cpp:32-218 | in every reachable state: a worker finds its entry and unlocks, although it starts before it is entered; bounded table and core threads; active count is the running workers; no task begins twice, only begun tasks finish, and when all is quiet exactly the submitted ones have |
| `ThreadPool.CanFinish` | deps/common/thread/thread_pool_executor.cpp:114-175 | as long as one worker has not left its loop, the workers alone can bring every submitted task to its end |
| `ThreadPool.OneTask` | deps/common/thread/thread_pool_executor.cpp:32-218 | a life without core threads: a task makes a thread, which runs it and leaves after the shutdown |
| `ThreadPool.WhoMayLeave` | deps/common/thread/thread_pool_executor.cpp:138-163 | a core thread leaves only a pool that does not run and has nothing queued, any other idle thread at any time |
| `ThreadPool.PhaseAdvances` | deps/common/thread/thread_pool_executor.cpp:61-82 | a pool runs once `init` is through and no longer once it is shut down |
| `ThreadPool.StepKeepsSizeIff` | deps/common/thread/thread_pool_executor.cpp:35-63 | the table stays within the maximal size over every step but an `init` that asks for less than is there |
| `ThreadPool.BoundedWithoutFailure` | deps/common/thread/thread_pool_executor.cpp:32-63 | in a run in which no `init` fails the table never exceeds the maximal size |
| `ThreadPool.LeftOverExceeds` | deps/common/thread/thread_pool_executor.cpp:53-60 | a failed `init` and a second one with smaller sizes leave more threads than allowed |
| `AggregateValidator.Validator.Validate` | src/observer/sql/expr/expression_refactor.cpp:15-20 | succeeds exactly on acceptable expressions, and then the flags say "has an aggregate" and "has a bare field" |
| `AggregateValidator.Validator.Walk` | src/observer/sql/expr/expression_refactor.cpp:22-124 | the stateful walk against the declarative condition, inside and outside aggregates |
| `AggregateValidator.Validator.WalkAll` | src/observer/sql/expr/expression_refactor.cpp:83-89 | the loop over the arguments |
| `AggregateValidator.LegalInsideHasNone` | src/observer/sql/expr/expression_refactor.cpp:67-70 | a legal expression inside an aggregate has no aggregate |
| `AggregateValidator.LegalIffEverywhere` | src/observer/sql/expr/expression_refactor.cpp:22-124 | an expression is legal exactly when every position in it is: nothing unexpected, aggregates with one argument and none above them, several columns only under EXISTS |
| `AggregateValidator.FlagsByPosition` | src/observer/sql/expr/expression_refactor.cpp:22-124 | the flags: some position holds an aggregate; some position outside every aggregate holds a field |
| `AggregateValidator.CheckList` | src/observer/sql/expr/expression_refactor.cpp:131-156 | a select list passes exactly when each expression does and no aggregate meets a bare field |
| `MemPool.ItemsDisjoint` | deps/common/mm/mem_pool.cpp:90-93 | items of a block never overlap and stay inside it |
| `MemPool.MemPoolItem.Extend` | deps/common/mm/mem_pool.cpp:70-102 | a whole block of free items, or nothing |
| `MemPool.MemPoolItem.Init` | deps/common/mm/mem_pool.cpp:17-45 | all blocks with the asked sizes, or none; a second call changes nothing |
| `MemPool.MemPoolItem.Alloc` | deps/common/mm/mem_pool.cpp:104-127 | the oldest free item, after growing if needed and allowed, with four bytes cleared; items of four bytes or more keep their contents |
| `MemPool.ClearingFitsIff` | deps/common/mm/mem_pool.cpp:125 | the clearing stays inside its item exactly from four bytes on; in a smaller one it runs into the next item or past the block |
| `MemPool.MemPoolItem.Free` | deps/common/mm/mem_pool.cpp:136-151 | an item in use becomes free; any other pointer changes nothing |
| `MemPool.MemPoolItem.Cleanup` | deps/common/mm/mem_pool.cpp:47-68 | no pools and no items afterwards |
| `MemPool.MemPoolItem.LiveItemsApart` | deps/common/mm/mem_pool.cpp:104-127 | two items in use never share a byte |
| `Bitmap.FindFirst` | deps/common/lang/bitmap.cpp:19-37 | the first bit of a byte with the wanted value |
| `Bitmap.BitsMakeByte` | deps/common/lang/bitmap.cpp:50-66 | bit i counts 2^i |
| `Bitmap.BytesHoldBits` | deps/common/lang/bitmap.cpp:39 | the bytes of a bitmap hold all its bits, and no byte more |
| `Bitmap.Bitmap.NextBit` | deps/common/lang/bitmap.cpp:68-110 | the least matching index in range, or -1 exactly when there is none |
| `Bitmap.Bitmap.SetBit` | deps/common/lang/bitmap.cpp:56-60 | sets the one bit and no other |
| `Bitmap.Bitmap.ClearBit` | deps/common/lang/bitmap.cpp:62-66 | clears the one bit and no other |

## Left out

- `Value` conversions: cells are NULL, booleans and integers; strings, dates and floats (with their epsilon comparison, which is not transitive) are not modelled.
- Other expression kinds (LIKE, IN, EXISTS, functions, arithmetic, casts): each is an arbitrary function of the row, so its own code is not modelled.
- Constant folding (`try_get_value`) and the simplification rules: the rules are not registered, and folding does not agree with evaluation on NULL.
- Index scans, transactions, records and the log: a scan is a sequence of records, each visible or not; a visit error other than "invisible" is ignored, as in the code.
- PredicatePushdown.SplitKeepsAcceptance: acceptance only; what the split does to failures is in `Conjuncts`.
- Rewriter.FixpointKeepsMeaning: the condition `Rewritable` is sufficient; the exact conditions are proved for the single steps and for the plans of selects, because an overwritten conjunct can happen to be implied and two failures can happen to be the same.
- Projection failures: projecting a row is an arbitrary total function, so a failing select list is not modelled.
- Joins.FirstColumnJoinsAgreeIff: left keys are non-NULL, because NULL breaks the ordering `std::multimap` requires of its keys.
- JoinOperators.RbTreeEqJoin.Open: what it fails with is stated for all keys; what is still to come only for left keys that are not NULL, for the same reason. Opening twice without closing is not modelled; a child behaves the same every time it is opened.
- JoinOperators.RunEquiJoin: left keys that are NULL, for the same reason.
- JoinOperators.RunJoin: left keys of an equality that are NULL, for the same reason.
- RecursiveSharedMutex.Step: memory model, counter overflow and fairness; a thread that gives back a hold it does not have.
- MD5's compression function: it is a parameter, so the theorems hold for the concrete one; file and string wrappers are not modelled.
- LruCache.Cache: hashing and the destructor; the index is a map from keys to nodes, and `pop` does nothing in the source.
- Durations.DateTime.AddDuration: years before -4798 and 32-bit overflow are not modelled; the duration string parser is replaced by its fields; milliseconds are dropped, as in the code.
- BufferedWriter.Sink: the answers of the operating system are a finite script, after which it fails; endless EAGAIN is not modelled.
- BufferedWriter.Writer.WriteN: an open writer without capacity that is asked for bytes is left out, because the source loops forever on it.
- ThreadPool.Step: liveness (a worker may leave while tasks are queued), thread names, `await_termination`, and the task queue object that a second `init` replaces; the racing test of queued tasks against idle threads is left open, so more threads may be created in the model than in the code.
- AggregateValidator.Validator.Walk: states success exactly, not which error code is returned when an expression has several faults; the rewriting that follows the check is not modelled.
- MemPool.MemPoolItem.Alloc: the lock around each operation is not modelled, nor what clients write into their items. A pointer is the start of an item or a foreign address.
- Bitmap.Bitmap.NextBit: the two searches differ in one value, so they are one method with that value as parameter.
