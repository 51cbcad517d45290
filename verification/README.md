# googlesqlite, modelled and proved

googlesqlite compiles GoogleSQL to SQLite SQL. Where SQLite lacks a construct, the compiler re-expresses it with ones
SQLite has, and the meaning must not change. This project models those places over rows, bags, sets, ordered partitions
and expressions, not over SQL text, and proves the source meaning equal to the target meaning; where the code does
not keep the meaning, it proves exactly when it does. The stateful and arithmetic parts with invariants of their own
follow: the catalog, the inline budget, and the codecs of CAST ... FORMAT.

`dafny verify dfyconfig.toml` checks the whole project (Dafny 4.11).

| module | what it models |
|---|---|
| RecursiveUnion, RecursivePipeline, RecursiveTerm | recursive CTEs: flattening by column-id substitution, splitting a UNION into one recursive SELECT per branch, hoisting constant branches, and SQLite's row queue |
| ErrorHandling | IFERROR, ISERROR, NULLIFERROR, ERROR, IFNULL, IF and CASE on an engine without try and catch |
| Merge, MergeInserts | MERGE as two snapshots and one statement per WHEN clause, run against a table with rowids; clauses that overlap |
| RangeSessionize, GapFill | the window pipelines of RANGE_SESSIONIZE and GAP_FILL |
| BagSetOperation, CompoundSelect | INTERSECT ALL and EXCEPT ALL by row numbers; long UNION chains as bounded trees |
| WindowSum | INT64 window SUM by halves, and the plain sum of a running frame |
| Catalog | table and function registration, incremental and rebuilt |
| CteInlineCost | the budget that decides which WITH entries are inlined |
| MixedParameters, MixedComments | renaming positional parameters in a query that also has named ones and binding them; what comments and escapes do to it |
| BitCodec | BASE2, BASE8 and BASE16 |
| NumberFormat, NumberGrammar, NumberPrinting, NumberLayout | number formats: which are accepted, what is printed and where |
| DateTimeElements, DateTimePrinting, DateTimeParsing | date and time formats, both directions |
| DateTimeMatching, DateTimeFormats, DateTimeShown, DateTimeInput | what a format splits into, what is printed and what is read, stated without the code that does it |
| DateTimeReading, DateTimeEscapes, DateTimeRoundTrip, DateTimeExamples | reading back what was printed |
| Sequences, Arithmetic, Decimals, Ascii | shared definitions and small facts |

## Where the code does not do what is promised

Each of these has a lemma at a concrete input and an if-and-only-if condition for all inputs.

- Hoisting constant branches of a recursive UNION: the GoogleSQL documents disagree on an empty base. Under "repeat
  until no new rows" (docs/third_party/googlesql-docs/resolved_ast.md) the hoisting is always right; under "stop when an
  iteration is empty" (docs/third_party/googlesql-docs/query-syntax.md) it is right if and only if the base has a row or
  nothing is hoisted (`RecursiveUnion.EmptyBaseExample`, `RecursiveUnion.EagerSameRows`,
  `RecursiveTerm.RecursiveCteEager`).
- A failing IF or CASE condition below a handler falls to ELSE (`ErrorHandling.FailingConditionExample`,
  `ErrorHandling.ConditionBelowHandler`).
- ERROR(NULL) returns NULL outside handlers and a marker below them (`ErrorHandling.NullMessageExample`,
  `ErrorHandling.RaisedNullMessage`).
- A failing message of ERROR is lost below handlers (`ErrorHandling.FailingMessageExample`,
  `ErrorHandling.FailingMessageBelowHandler`). Comments in internal/formatter.go say NULL stands for an error; the code
  uses markers, and the model follows the code.
- A failing function without a deferred variant aborts the statement below a handler too
  (`ErrorHandling.RaisingExample`, `ErrorHandling.RaisingBelowHandler`).
- Linear GAP_FILL measures time in whole seconds and so leaves the straight line (`GapFill.SubSecondExample`,
  `GapFill.LinearOnTheLine`).
- A replaced table is not registered again, though a comment at internal/catalog.go:2406-2412 says so: its old handle
  stays until the next rebuild, and a different path under the same storage name stays unregistered
  (`Catalog.StaleHandleExample`, `Catalog.SharedStorageNameExample`; exactly when, for one call:
  `Catalog.ReplaceInStep`, `Catalog.AddRebuilt`, for a whole run: `Catalog.Run`).
- A replaced function reverts to its first definition at the next rebuild (`Catalog.ReplacedFunctionExample`,
  `Catalog.AddFunctionIndexed`).
- A bare `?` directly before an identifier or digit merges into the new parameter name
  (`MixedParameters.RunOnExample`, `MixedParameters.RestoreRewrite`).
- Comments, and escaped backticks in quoted identifiers, are not recognised in a query with mixed parameters: a `?` in a
  comment takes the name and the argument of a parameter, a quote in a comment can hide one, and a `?` in an identifier
  is renamed after an escaped backtick (`MixedComments.CommentedMarkExample`, `MixedComments.HiddenMarkExample`,
  `MixedComments.EscapedBacktickExample`, `MixedComments.RenamesParametersIff`, `MixedComments.PlainQuotesIff`).
- Parameter names are looked up in lower case, the last argument winning: an argument the caller named like a new name
  takes its parameter (`MixedParameters.NameClashExample`, `MixedComments.PositionalBinding`).
- A date format never parses its own output if it begins or ends with white space, has a quoted digit right after a
  delimited year, a backslash in quoted text, which only parsing takes for an escape although the documents promise it
  for printing too, or an apostrophe outside quotes, which printing refuses; and TZH without TZM loses the minutes of an
  offset (`DateTimeExamples.LeadingBlankExample`, `DateTimeExamples.LastQuotedExample`,
  `DateTimeExamples.QuotedExample`, `DateTimeExamples.BackslashExample`, `DateTimeExamples.ApostropheExample`,
  `DateTimeExamples.ZoneExample`, `DateTimeRoundTrip.RoundTrip`).
- MERGE clauses that overlap, as the source comments admit: later clauses act on rows already decided, and may hit an
  inserted row that took the rowid of a deleted one (`Merge.OverlapExample`, `Merge.ReuseExample`, `Merge.InTurnIff`,
  `Merge.TargetsLeftIff`, `Merge.InsertsIff`, `MergeInserts.RunIff`, `MergeInserts.EveryRunIff`).

## Model

| member | source | states |
|---|---|---|
| `RecursiveUnion.DistinctSameRows` | internal/formatter_recursive.go:237-323 | UNION DISTINCT: for every term that splits into constant rows and a row-wise step, level-by-level iteration of the whole term and a de-duplicating row queue started from base plus constants produce exactly the same rows, for infinite runs too |
| `RecursiveUnion.DistinctSameTermination` | internal/formatter_recursive.go:237-323 | the two forms terminate on the same inputs, and then with the same set |
| `RecursiveUnion.EagerSameRows` | internal/formatter_recursive.go:237-244 | if iteration stops at once on an empty base, hoisting constant branches is right if and only if the base has a row or nothing is hoisted |
| `RecursiveUnion.EmptyBaseExample` | internal/formatter_recursive.go:237-244 | over an empty base the hoisted row 1 appears although stop-at-empty iteration yields nothing |
| `RecursiveUnion.AllSameBag` | internal/formatter_recursive.go:279-322 | UNION ALL: level-by-level iteration terminates if and only if the row-at-a-time queue does, and then both give the same multiset of rows |
| `RecursiveUnion.QueueReaches` | internal/formatter_recursive.go:237-323 | fairness of the queue: every row reachable in n steps is seen after finitely many queue steps |
| `RecursivePipeline.EvalSubstitute` | internal/formatter_recursive.go:86-96 | substituting expressions for column ids evaluates to what the original expression gives over the columns they stand for |
| `RecursivePipeline.FlatBranchSound` | internal/formatter_recursive.go:98-184 | the one SELECT built by column-id substitution with AND-ed conditions returns, row for row and in order, what the stages of projections and TRUE-only filters return over every table |
| `RecursivePipeline.FlattenAccepts` | internal/formatter_recursive.go:103-163 | flattening succeeds exactly on the row-wise pipelines over the self-reference, and every visible column then has an expression |
| `RecursivePipeline.VolatileIff` | internal/formatter.go:3617-3645 | an expression counts as volatile if and only if a volatile function is called somewhere inside it |
| `RecursivePipeline.FlatBranchAccepts` | internal/formatter_recursive.go:165-184 | a branch is flattened exactly when its scan is row-wise |
| `RecursivePipeline.FilterKeeps` | internal/formatter_recursive.go:111-126 | a filter keeps every row on TRUE and numbers other than 0, and none on FALSE, 0, NULL and text |
| `RecursiveTerm.PassThroughSetOperation` | internal/formatter_recursive.go:186-235 | the loop over projection layers that rewrites column ids in place finds the set operation that PassThroughIff describes, and gives up where there is none |
| `RecursiveTerm.PassThroughIff` | internal/formatter_recursive.go:186-235 | the result is a set operation if and only if the scan is a stack of projections ending in it, and each of its columns is carried up the stack, layer by layer through column references alone, to the column of the same place on top |
| `RecursiveTerm.RefsAre` | internal/formatter_recursive.go:56-71 | the references collected from a scan are its self-reference scans, each at its own place in the tree, all of them and from left to right |
| `RecursiveTerm.PassThroughSound` | internal/formatter_recursive.go:186-235 | looking through forwarding projections keeps the rows and the column order of the set operation below them |
| `RecursiveTerm.FormatBranches` | internal/formatter_recursive.go:293-322 | the emission loop puts each branch in the initial or the recursive list, or gives the lowering up, as LowerItems says |
| `RecursiveTerm.LowerItemsOrder` | internal/formatter_recursive.go:293-322 | the initial list is the branches without a reference, and the recursive list the flattened branches with one, both in the order of the UNION |
| `RecursiveTerm.FormatFlatRecursiveTerm` | internal/formatter_recursive.go:245-323 | the whole lowering of a recursive term, refusals included, gives the result whose acceptance, order and meaning LowerTermAccepts, LowerItemsOrder, TermBag and TermSet state |
| `RecursiveTerm.TermBag` | internal/formatter_recursive.go:245-323 | UNION ALL: nothing is hoisted, and one pass of the lowered SELECTs over any table yields the term's rows as a multiset |
| `RecursiveTerm.TermSet` | internal/formatter_recursive.go:245-323 | UNION DISTINCT: the term's rows over any table are the hoisted rows plus what the lowered SELECTs yield, as a set |
| `RecursiveTerm.LowerTermAccepts` | internal/formatter_recursive.go:245-323 | the lowering applies if and only if every reference has the width of the term, and the term is one row-wise pipeline over a single reference, or a stack of projections carries up the columns of a UNION ALL, or under UNION DISTINCT a UNION, some branch of which has a reference and each branch of which is row-wise over one or, under UNION DISTINCT only, has none |
| `RecursiveTerm.ForwardedUnionExample` | internal/formatter_recursive.go:186-323 | SELECT x FROM (SELECT f(n) FROM t UNION ALL SELECT g(n) FROM t) becomes two recursive SELECTs, f first |
| `RecursiveTerm.RecursiveCteDistinct` | internal/formatter_recursive.go:237-323 | end to end, UNION DISTINCT: the lowered CTE produces the same rows as iterating the term, and terminates on the same inputs |
| `RecursiveTerm.RecursiveCteAll` | internal/formatter_recursive.go:237-323 | end to end, UNION ALL: the lowered CTE terminates on the same inputs with the same multiset of rows |
| `RecursiveTerm.RecursiveCteEager` | internal/formatter_recursive.go:237-323 | end to end, if iteration stops at once on an empty base: the lowered CTE produces the rows of the iterated term if and only if the base has a row or no row is hoisted |
| `ErrorHandling.SafeNeverAborts` | internal/formatter_deferred.go:134-150 | below a handler an expression all of whose functions have deferred variants never aborts the statement |
| `ErrorHandling.DeferrableIff` | internal/formatter_deferred.go:134-150 | the condition above, in terms of places: every function called anywhere in the expression has a deferred variant |
| `ErrorHandling.RaisingBelowHandler` | internal/formatter_deferred.go:134-150 | below a handler a call over arguments that do not abort aborts if and only if its function has no deferred variant and the call fails |
| `ErrorHandling.RaisingExample` | internal/formatter_deferred.go:134-150 | ISERROR of a failing function without a deferred variant aborts where the source gives TRUE |
| `ErrorHandling.LowerStands` | internal/formatter.go:141-247 | mutual induction over both modes: values, aborts and markers of the lowered expression stand for the result of the source expression |
| `ErrorHandling.RaisingSound` | internal/formatter.go:141-247 | outside handlers the lowered expression aborts with the source's error if and only if the source fails, and otherwise has the same value, NULL included |
| `ErrorHandling.SafeSound` | internal/formatter.go:672-724 | below a handler it yields the marker of the leftmost error if and only if the source fails, and otherwise the same value |
| `ErrorHandling.SafeDetects` | internal/formatter.go:672-724 | detecting a failure needs fewer assumptions than reproducing its message |
| `ErrorHandling.ApplyStands` | internal/function_register.go:471-526 | the raising and deferred variants of a function call pass on the leftmost error of their arguments, or the function's own |
| `ErrorHandling.IfErrorStands` | internal/formatter.go:681-704 | IFERROR lowered to a CASE on the marker stands for the source in both modes |
| `ErrorHandling.IfNullStands` | internal/formatter.go:474-480 | the native IFNULL stands for the source in both modes |
| `ErrorHandling.PickStands` | internal/formatter.go:726-740 | a CASE whose conditions do not fail below a handler stands for the source in both modes |
| `ErrorHandling.ConditionBelowHandler` | internal/formatter.go:481-490 | IF below a handler is right if and only if the condition does not fail, or the ELSE branch gives the very same error |
| `ErrorHandling.FailingConditionExample` | internal/formatter.go:481-490 | a failing condition below IFERROR falls to ELSE: 2 where the source gives 3 |
| `ErrorHandling.RaisedNullMessage` | internal/functions/debugging/error.go:12-20 | outside handlers ERROR is right if and only if its message is not NULL |
| `ErrorHandling.NullMessageExample` | internal/functions/debugging/error.go:12-20 | ERROR(NULL) outside handlers gives NULL where the source fails |
| `ErrorHandling.FailingMessageBelowHandler` | internal/formatter.go:706-724 | below a handler ERROR is always detected, and carries the right message if and only if computing the message does not fail, or fails with the text ERROR |
| `ErrorHandling.FailingMessageExample` | internal/formatter.go:706-724 | below a handler ERROR(ERROR('x')) carries the text ERROR where the source fails with x |
| `RangeSessionize.SameSessionIffChained` | internal/range_sessionize.go:195-218 | two rows of a partition get the same session id if and only if a chain of meeting-or-overlapping (MEETS) or overlapping (OVERLAPS) ranges links them |
| `RangeSessionize.SessionRangeIsUnion` | internal/range_sessionize.go:220-227 | a row's session_range holds exactly the points of the ranges of its session |
| `RangeSessionize.SessionsApart` | internal/range_sessionize.go:205-218 | a row of a later session starts after every range of an earlier one has ended |
| `RangeSessionize.SessionRangesApart` | internal/range_sessionize.go:220-227 | session ranges of different sessions never overlap, and under MEETS do not even touch |
| `RangeSessionize.SameRangeIffChained` | internal/range_sessionize.go:195-227 | rows of a partition show the same session_range if and only if they are chained |
| `RangeSessionize.AnyOrder` | internal/range_sessionize.go:195-227 | rows of equal start in any order, and rows repeated: a row's session_range depends on the rows alone |
| `RangeSessionize.OrderExists` | internal/range_sessionize.go:195-218 | the rows of every table with non-empty ranges can be put in the order the windows ask for, so the results above cover them all |
| `GapFill.WindowIsKnown` | internal/gap_fill.go:372-439 | MAX over a group numbered by a running COUNT is the value, or the time, of the nearest row with a value, looking back or forward, and NULL when there is none |
| `GapFill.LocfIsLastObservation` | internal/gap_fill.go:379-424 | LOCF gives the last non-null value at or before the row, NULL when there is none |
| `GapFill.LinearInterpolates` | internal/gap_fill.go:425-451 | linear filling keeps every original value, is NULL exactly when a neighbour is missing, and otherwise lies between the two neighbouring values |
| `GapFill.LinearOnTheLine` | internal/gap_fill.go:425-451 | the linear result is on the straight line through the two neighbours if and only if their values are equal, or cutting elapsed time and span to whole seconds keeps their ratio; with less than a second between the neighbours, only at the time of the earlier one |
| `GapFill.SecondsBetweenIs` | internal/gap_fill.go:425-451 | elapsed time is counted in whole seconds, cut towards zero, and changes sign with its direction |
| `GapFill.LinearIs` | internal/gap_fill.go:425-451 | the linear result in numbers: the earlier value plus the share of the difference that whole elapsed seconds are of the whole seconds of the span, and the earlier value itself when the span has none |
| `GapFill.SubSecondExample` | internal/gap_fill.go:425-451 | half a second into a second from 0 to 10 the result is 0, not 5 |
| `GapFill.WholeSecondsOnTheLine` | internal/gap_fill.go:425-451 | at whole seconds the result is always on the line |
| `BagSetOperation.FormatBagSetOperation` | internal/formatter.go:2715-2758 | the loop that numbers, combines, strips and renumbers builds the left fold over the inputs |
| `BagSetOperation.NumberingIsFull` | internal/formatter.go:2715-2723 | in any numbering within equal rows the copies of a row carry exactly the numbers from 1 to its multiplicity |
| `BagSetOperation.StepMultiplicity` | internal/formatter.go:2724-2758 | one numbered set operation gives every row the minimum, or the cut-off difference, of its multiplicities, whatever the numberings and row orders |
| `BagSetOperation.IntersectAllIsMin` | internal/formatter.go:2715-2758 | INTERSECT ALL over any number of inputs: every row occurs as often as in the input where it is rarest |
| `BagSetOperation.ExceptAllIsDifference` | internal/formatter.go:2715-2758 | EXCEPT ALL over any number of inputs: every row occurs max(0, first minus the sum of the others) times |
| `BagSetOperation.RunEvaluates` | internal/formatter.go:2715-2758 | an evaluation exists for every input, so the two results above are not vacuous |
| `CompoundSelect.GroupArms` | internal/formatter.go:2704-2711 | one round groups consecutive arms by at most 64 and keeps the order of the arms |
| `CompoundSelect.JoinCompoundSelect` | internal/formatter.go:2685-2713 | terminates for every list and keeps the order of the arms; UNION and UNION ALL become a compound of at most 64 arms whose nesting depth is the least d with count at most 64 to the power d + 1; INTERSECT and EXCEPT stay flat |
| `CompoundSelect.LevelEverywhere` | internal/formatter.go:2685-2713 | at every place of such a tree a compound has 1 to 64 arms, and every arm of the chain is under the same number of compounds |
| `CompoundSelect.TreeIsChain` | internal/formatter.go:2694-2698 | the nested tree means the flat chain of its arms, as a bag for UNION ALL and as a set for UNION |
| `Merge.NewMergeStmtAction` | internal/analyzer.go:3416-3428 | one statement per WHEN clause in order, each selecting exactly the rows its clause applies to and doing what its action says; an error if and only if some clause combines a match type with an action it does not allow |
| `Merge.WhenFires` | internal/analyzer.go:3496-3567 | the filter of a statement on the staging tables holds of exactly the staged rows and source rows its clause applies to |
| `Merge.StagingPartition` | internal/analyzer.go:3340-3352 | each source row is in exactly one of the joined rows and the source-only rows |
| `Merge.StagedOnce` | internal/analyzer.go:3407-3410 | with at most one source match per target row, the first snapshot holds each target row once, in order |
| `Merge.StagedOnceIff` | internal/analyzer.go:3407-3410 | at most one source match per target row is exactly the condition for the join to stage as many rows as the target has |
| `Merge.LastFiringIs` | internal/analyzer.go:3496-3540 | of several staged rows of one target row the last that passes the filter is the one an UPDATE takes its values from |
| `Merge.MergeIsSimultaneous` | internal/analyzer.go:3333-3434 | with at most one match per target row and no two clauses applying to the same row, every run of the emitted statements leaves what GoogleSQL does: each matched row, unmatched target row and unmatched source row decided by the first WHEN clause that applies to it; also when inserts reuse freed rowids |
| `Merge.MergeAnyOrder` | internal/analyzer.go:3366-3371 | any order of the same disjoint clauses has the same result |
| `Merge.InTurnIff` | internal/analyzer.go:3366-3371 | clauses acting on a target row in turn leave what the first one leaves if and only if that one is a DELETE, or no later one is a DELETE and the last value they assign to each column is the value the first one left |
| `Merge.TargetsLeftIff` | internal/analyzer.go:3366-3371 | any run, overlapping clauses or not, leaves of the target rows what MERGE should if and only if the condition above holds of each of them |
| `Merge.InsertsIff` | internal/analyzer.go:3544-3563 | the clauses insert for a source row what MERGE should if and only if no two of them apply to it |
| `MergeInserts.RunIff` | internal/analyzer.go:3366-3371 | a run that reuses no rowid, or whose clauses spare the rows they insert, leaves exactly what the clauses in turn leave of the target rows, the right ones if and only if the clauses are harmless to each; inserts the right rows if and only if no two clauses apply to one unmatched source row; and has the result of MERGE when both hold |
| `MergeInserts.EveryRunIff` | internal/analyzer.go:3366-3371 | with harmless clauses and single inserts, every run, whatever free rowids its inserts take, has the result of MERGE if and only if no later clause that applies to a deleted target row would delete or change a row inserted after the deletion |
| `MergeInserts.HitRun` | internal/analyzer.go:3366-3371 | otherwise some run goes wrong: the inserted row takes the freed rowid and is lost or changed |
| `MergeInserts.ReuseNotSpared` | internal/analyzer.go:3366-3371 | the clauses of the reuse example do not spare the inserted row |
| `Merge.OverlapExample` | internal/analyzer.go:3366-3371 | an UPDATE followed by a DELETE of the same row removes it where the first clause should decide |
| `Merge.ReuseExample` | internal/analyzer.go:3366-3371 | DELETE frees a rowid, INSERT takes it, and a later UPDATE that still applies to the deleted row overwrites the inserted one |
| `Merge.EffectOnOutcome` | internal/analyzer.go:3496-3567 | an UPDATE or DELETE statement turns the row left by the earlier clauses into the row left by all of them |
| `Merge.TargetTable.Execute` | internal/analyzer.go:3496-3567 | executing one statement against the table, by rowid, against the two snapshots |
| `Merge.TargetTable.Append` | internal/analyzer.go:3544-3563 | inserted rows are added at the end under rowids not in use |
| `Merge.TargetTable.Merge` | internal/analyzer.go:3372-3434 | both snapshots first, then the statements in clause order: with single matches and disjoint WHEN clauses the table holds the result of MERGE; an unsupported clause changes nothing |
| `Catalog.RebuiltResolves` | internal/catalog.go:2473-2522 | a rebuilt catalog resolves each (sub-catalog path, lower-cased name) key to the first table of the list that claims it |
| `Catalog.RebuiltFirst` | internal/catalog.go:2473-2522 | every resolved key has a first claimant in the list |
| `Catalog.PathClaimsAre` | internal/catalog.go:2473-2522 | a path claims exactly these keys: each suffix of it, in each sub-catalog path that is a selection of the components before that suffix |
| `Catalog.DottedClaimsAre` | internal/catalog.go:2458-2470 | the quoted dotted prefixes claim exactly what the rest of the path claims in the sub-catalog of that name |
| `Catalog.ClaimsAre` | internal/catalog.go:2447-2522 | a table claims exactly the keys of its own path and, below each quoted dotted prefix of two components or more, the keys of the rest of the path |
| `Catalog.FullNameClaimed` | internal/catalog.go:2489-2499 | every table claims its full dotted name at the top, however many components it has |
| `Catalog.JoinConcat` | internal/name_path.go:87-89 | the name of a path is the names of its two parts with one separator between them, wherever it is cut |
| `Catalog.JoinInjective` | internal/name_path.go:87-89 | paths whose components hold no separator are determined by their joined name |
| `Catalog.DistinctStorage` | internal/catalog.go:1866-1868 | such paths have the same storage name if and only if they are the same |
| `Catalog.TwoTables` | internal/catalog.go:2403-2445 | two such paths that differ, added one after the other, stay two tables |
| `Catalog.ReplaceInStep` | internal/catalog.go:2403-2421 | after a replacement under the same storage name the old registrations still name the tables a rebuild would, if and only if the path is the same, or no key resolves to the table before or after |
| `Catalog.SamePathsIff` | internal/catalog.go:2473-2522 | two lists with the same storage names register the same paths if and only if they differ in path only where no key resolves to the table |
| `Catalog.SameRebuiltIff` | internal/catalog.go:2473-2522 | ... and rebuild to the same handles if and only if they differ only in specs no key resolves to |
| `Catalog.AddRebuilt` | internal/catalog.go:2403-2445 | adding a table to a rebuilt catalog leaves a rebuilt one if and only if the storage name is new, or the same spec is added again, or neither the replaced nor the new spec is resolved to by any key |
| `Catalog.SharedStorageNameExample` | internal/catalog.go:2403-2421 | replacing `a_b` by `a.b`, which share a storage name, leaves the new path unregistered |
| `Catalog.StaleHandleExample` | internal/catalog.go:2403-2421 | a replaced table stays registered with the handle of the old spec until the next rebuild |
| `Catalog.Catalog.TableHandleForSpec` | internal/catalog.go:2543-2557 | one handle per spec, cached by spec identity |
| `Catalog.Catalog.RegisterPath` | internal/catalog.go:2473-2522 | registers exactly the claims of a path, leaving names that exist, and fails exactly on the empty path |
| `Catalog.Catalog.RegisterTable` | internal/catalog.go:2447-2471 | registers all claims of a table, dotted prefixes included, with its own handle |
| `Catalog.Catalog.AddTableSpec` | internal/catalog.go:2403-2445 | replaces in place or appends and registers; keeps the map the index of the list and the handle cache current, and says by a condition on the list before and the new spec exactly when registrations stay in step and exactly when they stay those of a rebuild |
| `Catalog.Catalog.ResetCatalog` | internal/catalog.go:2133-2211 | a rebuild registers the listed tables afresh; a table without a name stops it before the functions |
| `Catalog.Catalog.DeleteTableSpecByName` | internal/catalog.go:2076-2093 | removes the tables of that storage name and rebuilds; succeeds if and only if the name is known and every table left has a name, and then the function map goes back to the listed functions |
| `Catalog.Catalog.AddFunctionSpec` | internal/catalog.go:2374-2387 | replacing a function updates the map and not the list; the map stays the index of the list if and only if the name is new or the spec is the one listed |
| `Catalog.AddFunctionIndexed` | internal/catalog.go:2374-2387 | setting one entry of the index gives the index of the list after the add if and only if the name is new or the spec is the one listed |
| `Catalog.Catalog.DeleteFunctionSpecByName` | internal/catalog.go:2095-2112 | removes the function and rebuilds; the tables are kept and re-registered up to the first without a name, which stops the rebuild |
| `Catalog.WithoutIndex` | internal/catalog.go:2081-2088 | a drop removes its storage name from the index and keeps every other entry |
| `Catalog.Run` | internal/catalog.go:2076-2211 | after any run of adds, replacements and drops, tables without a name and rebuilds they stop included, the registrations are exactly those of the specs first added under each name since the last drop; they name what a rebuild would, or are those of a rebuild, if and only if each replaced spec has the same path, or is the same, or is resolved to by no key before and after |
| `Catalog.SharedNamesOnly` | internal/catalog.go:2403-2421 | registrations stay in step as long as no two paths share a storage name |
| `Catalog.InStepResolves` | internal/catalog.go:2403-2522 | registrations in step resolve each key to the storage name of its first claimant |
| `Catalog.ReplacedFunctionExample` | internal/catalog.go:2361-2387 | replacing a function and then dropping a table brings the first definition back |
| `BitCodec.EncodeBits` | internal/cast_format.go:232-252 | writes lower-case digits of the base that stand for the bytes, with less than one group of zero padding |
| `BitCodec.DecodeBits` | internal/cast_format.go:254-275 | succeeds exactly on digits of the base in either case, and gives the bytes without the trailing bits that fill no byte |
| `BitCodec.DecodeEncode` | internal/cast_format.go:232-275 | the encoded text decodes to the bytes and to nothing else, and has ceil(8 * len / width) digits |
| `BitCodec.EncodeDecode` | internal/cast_format.go:232-282 | encoding what was decoded gives the text in lower case whenever width * len is a multiple of 8 |
| `BitCodec.RoundTrip` | internal/cast_format.go:232-275 | running the encoder and then the decoder returns the bytes |
| `CteInlineCost.MeasureEntry` | internal/formatter_cte_inline.go:70-83 | the running estimate is the size of the body plus the copies it pulls in, given up early exactly when it exceeds the budget; no intermediate value exceeds twice the budget unless the body does |
| `CteInlineCost.CountRefs` | internal/formatter_cte_inline.go:84-86 | counts the references of all consumers |
| `CteInlineCost.ProductWithinBudget` | internal/formatter_cte_inline.go:65-92 | no product of an inlined size and a reference count exceeds the budget |
| `CteInlineCost.DivideOrMultiply` | internal/formatter_cte_inline.go:87-87 | dividing the budget is the same test as multiplying the size |
| `CteInlineCost.SumTakes` | internal/formatter_cte_inline.go:74-86 | a sum over a map does not depend on the iteration order |
| `CteInlineCost.ExpandedIs` | internal/formatter_cte_inline.go:70-83 | the size of an entry is its own text plus, for every single reference in its body, the recorded size of the entry referred to; materialized ones add nothing |
| `CteInlineCost.TotalIs` | internal/formatter_cte_inline.go:84-86 | the references counted are the occurrences of the name in all bodies |
| `CteInlineCost.CostlyIff` | internal/formatter_cte_inline.go:65-92 | an entry is materialized if and only if its size times its references, or its size alone when its body reads other entries, exceeds 4 * 1024 * 1024 |
| `CteInlineCost.InlineCost.Materialize` | internal/formatter_cte_inline.go:65-92 | the decision and the recorded size are functions of the tables, whatever the iteration order |
| `CteInlineCost.InlineCost.DecideAll` | internal/formatter_cte_inline.go:65-92 | deciding in WITH order, every entry left inlined is recorded with its true recursive expansion over the inlined entries before it, and its size times its references is within 4 MiB |
| `WindowSum.Int64SumCombine` | internal/function_register.go:244-276 | shifts and masks give hi * 2^32 + lo when that is an INT64, and otherwise an overflow, or NULL in the safe variant; NULL when a half is NULL |
| `WindowSum.SplitSumIsExact` | internal/formatter.go:4201-4219 | for up to 2^31 INT64 values neither half-sum overflows, and the combined result is the exact sum, an error if and only if that is outside INT64 |
| `WindowSum.BoundIsTight` | internal/formatter.go:4201-4219 | one value more, and the low halves overflow although the exact sum is small |
| `WindowSum.PlainSum` | internal/formatter.go:4221-4233 | the plain sum fails if and only if some prefix leaves INT64, and is exact otherwise |
| `WindowSum.RunningSumAgrees` | internal/formatter.go:4221-4233 | over a ROWS running frame the plain sum fails if and only if some output overflows, and otherwise every output is exact |
| `MixedParameters.ScanStringLiteral` | internal/analyzer.go:1247-1285 | returns past the literal, always after the start and within the text |
| `MixedParameters.OneLineLiteral` | internal/analyzer.go:1247-1285 | every well-formed one-line literal is read whole, escapes included |
| `MixedParameters.ManyLinesLiteral` | internal/analyzer.go:1247-1285 | every well-formed triple-quoted literal is read whole, with lone quotes and escapes in it |
| `MixedParameters.OpenLiteral` | internal/analyzer.go:1247-1285 | a one-line literal without its closing quote ends before the line feed, or with the text |
| `MixedParameters.OpenTriple` | internal/analyzer.go:1247-1285 | a triple-quoted literal without another quote runs to the end of the text |
| `MixedParameters.QueryHasNamedRef` | internal/analyzer.go:887-920 | true if and only if some position outside quoted text is an @ followed by a letter or underscore |
| `MixedParameters.RenameMarks` | internal/analyzer.go:838-873 | the cursor loop computes Rewrite and counts the bare question marks |
| `MixedParameters.BindArguments` | internal/analyzer.go:874-884 | every argument keeps its place and value, and the k-th one without a name gets the k-th name |
| `MixedParameters.ApplyMixedParameterRewrite` | internal/analyzer.go:817-885 | fires exactly when there is a bare question mark and both kinds of arguments, or no arguments and a named reference; otherwise query and arguments are returned as they are |
| `MixedParameters.RestoreRewrite` | internal/analyzer.go:838-873 | replacing each @gsl_pos_<number>, in any case, by ? restores the query if and only if no bare ? runs into an identifier or digit and no parameter outside quotes already has such a name |
| `MixedParameters.RunOnExample` | internal/analyzer.go:862-867 | `?5` becomes the fifteenth parameter |
| `MixedParameters.NumberedInOrder` | internal/analyzer.go:862-867 | the new names are numbered 1 to n from left to right |
| `MixedParameters.MarkBinding` | internal/analyzer.go:862-885 | the i-th renamed question mark finds the i-th argument without a name if and only if no argument after that one has its new name, in any case |
| `MixedParameters.GetArgsFromParams` | internal/analyzer.go:3633-3689 | each named parameter gets the last argument whose lower-cased name it is, and otherwise the argument at its place; an error if and only if there are fewer arguments than parameters; without collected parameters every argument is passed on under its lower-cased name |
| `MixedParameters.MissingArgument` | internal/analyzer.go:3666-3680 | a renamed mark beyond the arguments without a name silently takes the argument at its place |
| `MixedParameters.NameClashExample` | internal/analyzer.go:3661-3665 | an argument named GSL_POS_1 after the first one without a name takes its parameter |
| `MixedComments.SameMarksIff` | internal/analyzer.go:838-873 | from any two positions, the question marks the rewrite renames are the parameters as GoogleSQL reads the query, comments and escapes in identifiers included, if and only if reading the text both ways, the reading behind never stands on a question mark |
| `MixedComments.RenamesParametersIff` | internal/analyzer.go:838-873 | the rewritten query is the query with exactly its parameters renamed, if and only if the two readings of its text stay abreast |
| `MixedComments.QuotedIdentifier` | docs/third_party/googlesql-docs/lexical.md:26-37 | every well-formed quoted identifier, with the escapes of a string literal, is one unit of the query |
| `MixedComments.BlockComment` | docs/third_party/googlesql-docs/lexical.md:1619-1640 | a block comment is one unit up to its first star-slash, whatever it holds and whatever follows it |
| `MixedComments.LineComment` | docs/third_party/googlesql-docs/lexical.md:1567-1609 | a line comment is one unit up to the line feed, which it leaves out |
| `MixedComments.SameIdentifierIff` | internal/analyzer.go:850-860 | the backtick scan reads an identifier as GoogleSQL does if and only if no backtick in it is escaped |
| `MixedComments.PlainQuotesIff` | internal/analyzer.go:838-873 | when no comment holds a quote or backtick and no quoted identifier an escaped backtick, exactly the parameters are renamed if and only if no comment holds a question mark |
| `MixedComments.TextsKept` | internal/analyzer.go:844-861 | when the readings stay abreast, literals, quoted identifiers and comments are the same in the rewritten query, in the same order |
| `MixedComments.PositionalBinding` | internal/analyzer.go:838-885 | when the readings stay abreast, the i-th parameter of the query is renamed to the i-th name, and that name finds the i-th argument without a name if and only if no argument after that one has the name, in any case |
| `MixedComments.CommentedMarkExample` | internal/analyzer.go:862-867 | a question mark in a -- comment takes the first name, and with it the first argument |
| `MixedComments.HiddenMarkExample` | internal/analyzer.go:844-849 | an apostrophe in a /* */ comment hides the parameter after it, which is not renamed |
| `MixedComments.EscapedBacktickExample` | internal/analyzer.go:850-860 | after an escaped backtick the rewrite renames a question mark inside the identifier |
| `NumberFormat.ParseNumberFormat` | internal/cast_format_numeric.go:188-251 | computes Parse; an accepted format has consistent counts and first zero, and its integer elements, fraction digits, point, FM and B are those of the text read character by character |
| `NumberGrammar.ParseAccepts` | internal/cast_format_numeric.go:188-251 | a format is accepted if and only if it is a sequence of known elements in which MI and PR come last, at most one point comes, no separator comes after it and some element is a digit |
| `NumberGrammar.ParseSigns` | internal/cast_format_numeric.go:188-251 | an accepted format has the sign of MI or PR at its end, or else of its last S, which leads if and only if no digit, point or currency comes before it, and the last currency asked for |
| `NumberPrinting.RoundedNearest` | internal/cast_format_numeric.go:36-43 | the printed digits are the absolute value rounded to the nearest unit, halves away from zero |
| `NumberPrinting.DigitsRead` | internal/cast_format_numeric.go:44-55 | the integer and fraction texts read back as the rounded number |
| `NumberPrinting.FillInteger` | internal/cast_format_numeric.go:58-83 | the array filled from right to left holds what IntOutAt says: digits, zeros, blanks, separators or # |
| `NumberPrinting.BlankLeading` | internal/cast_format_numeric.go:84-90 | separators before the first printed character become blanks |
| `NumberPrinting.PrintRounded` | internal/cast_format_numeric.go:44-155 | the printed text of a rounded number is the one laid out as PrintLayout says |
| `NumberPrinting.FormatNumberElements` | internal/cast_format_numeric.go:27-156 | fails exactly for a rejected format or NaN, and otherwise prints the rounded number as PrintLayout says |
| `NumberLayout.IntOutAt` | internal/cast_format_numeric.go:58-90 | a digit element shows a digit if and only if it is at or right of the first 0 element, or the number has a digit there, or it is the last one of a zero without fraction; a separator shows a comma if and only if a digit is shown to its left; all else is blank; and every digit element shows # when the number does not fit |
| `NumberLayout.PrintLayout` | internal/cast_format_numeric.go:44-156 | the whole text: sign and currency marks in their places, the integer positions above, the point and the fraction digits, blanks in place of leading marks or without them under FM, and blanks only under B for a zero integer part |
| `NumberPrinting.FixedWidth` | internal/cast_format_numeric.go:91-156 | without FM the width depends on the format only |
| `NumberPrinting.HashIffOverflow` | internal/cast_format_numeric.go:56-76 | # appears if and only if the rounded number has more integer digits than the format |
| `NumberPrinting.ReadsBack` | internal/cast_format_numeric.go:56-156 | a number that fits and is not blanked by B reads back exactly, with FM and without |
| `NumberPrinting.SignShown` | internal/cast_format_numeric.go:111-150 | a minus sign or angle bracket appears if and only if the number is negative |
| `NumberPrinting.BlanksIff` | internal/cast_format_numeric.go:151-155 | B blanks the whole text if and only if the rounded integer part is zero |
| `DateTimeElements.TextCaseLetters` | internal/cast_format_datetime.go:20-33 | the casing rule changes the case of the letters and nothing else |
| `DateTimeElements.SameMatch` | internal/cast_format_parse.go:34-44 | printing and parsing match the same element unless the text starts with Y,YYY |
| `DateTimeMatching.LongestMatch` | internal/cast_format_datetime.go:8-18 | the element matched is the longest known element the text starts with in any case, in both directions; only parsing knows Y,YYY |
| `DateTimeMatching.AllListed` | internal/cast_format_parse.go:34-44 | every element is in the list that is searched, Y,YYY in the one for parsing alone |
| `DateTimePrinting.FormatDateTimeElements` | internal/cast_format_datetime.go:64-173 | the index loop computes Print for all four types; what it prints is stated by OneElement and FirstPieceIs, and when it fails by RefusedIff |
| `DateTimeShown.OneElement` | internal/cast_format_datetime.go:101-170 | a format of one element is printed exactly when the type has the part, and shows it: YYYY to Y the last digits of the year, Q the quarter that holds the month, D and DDD the weekday and the day of the year, MM, DD, the hours, minutes and seconds as numbers of fixed width that read back, FF the leading digits of the fraction, MONTH, MON, DAY and DY the names in the case of the element, AM and PM the half of the day, and TZH and TZM the offset |
| `DateTimeShown.DaysDiffer` | internal/cast_format_datetime.go:101-170 | the names of two days, short or whole, in any case, are the same only for the same day |
| `DateTimeShown.CalendarNames` | internal/cast_format_datetime.go:101-170 | the first three letters of the names of months and days |
| `DateTimeFormats.FirstPieceIs` | internal/cast_format_datetime.go:64-100 | what is printed first is quoted text, the longest element the type has, or one plain character |
| `DateTimeFormats.RefusedIff` | internal/cast_format_datetime.go:64-100 | printing fails at a place if and only if a quote is not closed there, or a letter that can start an element starts none the type has |
| `DateTimeFormats.SupportsIff` | internal/cast_format_datetime.go:35-62 | offsets belong to TIMESTAMP, times to all types but DATE, dates to all types but TIME |
| `DateTimeParsing.TokenizeCastParseFormat` | internal/cast_format_parse.go:93-139 | the loop splits the format into the tokens that FirstTokenIff describes, and fails where there is none |
| `DateTimeFormats.FirstTokenIff` | internal/cast_format_parse.go:93-139 | a token of length n comes first if and only if those n characters spell it: quoted text with its escapes, a run of blanks, the longest element, or one plain character |
| `DateTimeParsing.ValidateCastParseModel` | internal/cast_format_parse.go:141-202 | accepts exactly the models in which no part is set twice, the target has every part, a 12-hour element and a meridian indicator come together, SSSSS comes without other time parts and TZM with TZH |
| `DateTimeFormats.ModelRules` | internal/cast_format_parse.go:141-202 | the rules for any list of elements: no two set the same part, each part is one the type has, HH or HH12 come exactly with a meridian indicator, HH24 and SSSSS without, SSSSS without any other time, and TZM with TZH |
| `DateTimeFormats.TypesAgree` | internal/cast_format_datetime.go:35-62 | apart from elements parsing does not support, a type can be parsed from an element exactly when it can be printed with it |
| `DateTimeParsing.ParseStringWithFormat` | internal/cast_format_parse.go:217-457 | the cursor loop over the tokens gives the result that ParseIff describes: a civil time and, for TIMESTAMP, the offset read, if any |
| `DateTimeInput.ParseIff` | internal/cast_format_parse.go:217-457 | a text is parsed as r if and only if the format is valid and the trimmed text splits into one part per token, each of which the token may take and stores, and the fields stored make up r, a real date and time of years 1 to 9999 |
| `DateTimeInput.ReadTokenIff` | internal/cast_format_parse.go:252-431 | a token takes a part of the text and stores fields exactly as stated for elements, blanks, quoted text and plain characters |
| `DateTimeInput.ReadElementIff` | internal/cast_format_parse.go:274-431 | each element takes exactly the digits, sign, name or indicator it may, as many digits as it can, and stores exactly its fields: RR the year that ends in the two digits in the century of the 50-year rule, YYY, YY and Y the year that starts as this one does, FF the fraction cut to microseconds |
| `DateTimeInput.FinishIff` | internal/cast_format_parse.go:433-457 | the fields make up a result if and only if every one is in range and the date exists; 12-hour times count from midnight or noon; TIME ignores the date and DATE has no time |
| `DateTimeInput.MissingParts` | internal/cast_format_parse.go:246-250 | a part the format does not have is this year, this month, the first day, midnight, or no offset |
| `DateTimeInput.TrimIs` | internal/cast_format_parse.go:228-228 | trimming removes white space at both ends, all of it and nothing else |
| `DateTimeShown.MonthLengths` | internal/cast_format_parse.go:449-456 | the lengths of the months, leap years included |
| `DateTimeReading.PrintAgrees` | internal/cast_format_datetime.go:66-97 | for a format without backslash or bare apostrophe the printed text is the concatenation of its parsed tokens' texts, quoted text included |
| `DateTimeReading.ReadElementOf` | internal/cast_format_parse.go:274-431 | reading back the text of an element sets exactly its fields and stops at its end, delimited or not |
| `DateTimeReading.ReadZone` | internal/cast_format_parse.go:396-413 | reading back TZH sets the sign and the hours of the offset |
| `DateTimeReading.OneMonth` | internal/cast_format_parse.go:329-345 | no text starts with the names of two months, so the first match is the right one |
| `DateTimeRoundTrip.ReadBack` | internal/cast_format_parse.go:252-432 | reading the text printed for tokens consumes it and sets their fields in order if nothing was trimmed and the tokens are tidy, and otherwise fails or misses the value |
| `DateTimeRoundTrip.CoveredSet` | internal/cast_format_parse.go:246-432 | tokens that cover every field leave exactly the fields of the printed time |
| `DateTimeRoundTrip.FinishTarget` | internal/cast_format_parse.go:433-457 | the fields of a moment give back what the type keeps of it, a date, a time, both, or both with the offset, if and only if the offset, when shown, has at most 14 hours, whole minutes, and whole hours where TZM is missing |
| `DateTimeEscapes.SlashMissed` | internal/cast_format_parse.go:96-111 | a format with a backslash never reads its own output to the end: printing copies every backslash, parsing asks for fewer |
| `DateTimeEscapes.ApostropheFails` | internal/cast_format_datetime.go:66-97 | a format with an apostrophe outside quoted text, which parsing accepts, is refused by printing |
| `DateTimeRoundTrip.ReadsBackIff` | internal/cast_format_parse.go:246-457 | for DATE, TIME, DATETIME and TIMESTAMP: reading what valid tokens that fix the parts of the type print gives the value back if and only if they are unambiguous and show the offset whole |
| `DateTimeRoundTrip.RoundTrip` | internal/cast_format_parse.go:220-457 | for every valid format that fixes a DATE to the day or a TIME, DATETIME or TIMESTAMP to the microsecond, parsing the printed text returns the value, years 1 to 9999, if and only if the format has no backslash and no apostrophe outside quotes, is unambiguous (it does not begin or end with white space, no quoted blank follows a run of blanks, and no quoted digit follows a delimited year), and the offset of the zone, if shown, is shown whole and has at most 14 hours |
| `DateTimeExamples.CompactTokens` | internal/cast_format_parse.go:93-139 | the undelimited format YYYYMMDDSSSSSFF6 is split into its five elements |
| `DateTimeExamples.CompactExample` | internal/cast_format_parse.go:141-202 | every value printed with YYYYMMDDSSSSSFF6 is read back |
| `DateTimeExamples.LeadingBlankExample` | internal/cast_format_parse.go:220-260 | no value printed with that format after a leading blank is read back |
| `DateTimeExamples.QuotedExample` | internal/cast_format_parse.go:274-431 | with one quoted character after YYYY every value is read back if the character is not a digit, and none if it is |
| `DateTimeExamples.LastQuotedExample` | internal/cast_format_parse.go:228-228 | with one quoted character at the end every value is read back if it is no white space, the ideographic space included, and none if it is |
| `DateTimeExamples.BackslashExample` | internal/cast_format_parse.go:96-111 | an escaped backslash in quoted text is printed as two and asked for as one: no value is read back |
| `DateTimeExamples.ApostropheExample` | internal/cast_format_datetime.go:66-97 | no value is printed with a leading apostrophe, which parsing accepts |
| `DateTimeExamples.ZoneExample` | internal/cast_format_parse.go:396-457 | a TIMESTAMP printed with TZH alone is read back if and only if its offset is a whole number of hours, 14 at most |

## Left out

- SQL text, operator precedence and the text-level rewrites other than mixed parameters: the models start from the resolved tree with unique column ids.
- The go-googlesql analyzer, SQLite itself, virtual tables, database/sql plumbing and connection handling: foreign code; SQLite's recursive queue, SUM, row numbering and rowid choice are modelled by what its documentation promises.
- Scalar functions are uninterpreted; in recursive pipelines they do not fail, and volatile ones are modelled only as a reason to refuse flattening.
- RecursivePipeline: branches that are not row-wise are only modelled as refused; the text the older lowering emits for them is not.
- ErrorHandling: CASE with a value, SAFE.-prefixed calls and deferred aggregate columns are not modelled; AND, OR and COALESCE are strict functions, as in the code; which names have a deferred variant is a parameter.
- Merge.MergeIsSimultaneous: assumes disjoint WHEN conditions and at most one source match per target row, the two gaps the source comments admit; overlap is covered by Merge.TargetsLeftIff, MergeInserts.RunIff and MergeInserts.EveryRunIff; with several matches SQLite's last one wins and no order is promised.
- Merge.TargetTable.Merge: under the same two assumptions; otherwise it promises distinct rowids only.
- MergeInserts.EveryRunIff: an insert may take any free rowid, which is more than SQLite's usual choice of the largest one plus one.
- RangeSessionize, GapFill: all windows of a query list rows of equal start or time in the same order; unbounded (NULL) range ends are not modelled.
- GapFill.LinearInterpolates: values are real numbers, so floating-point rounding is not captured.
- CompoundSelect, BagSetOperation, RecursiveTerm: emitted queries are trees or lists, not strings.
- WindowSum: only the INT64 forms.
- CteInlineCost: collecting the reference counts from the tree is not modelled; the counts are an input.
- Catalog: INFORMATION_SCHEMA views, wildcard tables, protos, table functions (which behave like functions) and failures of the foreign constructors are not modelled; a sub-catalog is identified by its path, and names are lower-cased in ASCII.
- Catalog.Catalog.AddFunctionSpec: does not model the registration of functions in sub-catalogs, where names of built-in functions are taken already, and INFORMATION_SCHEMA; only the list and the map.
- MixedParameters, MixedComments: bytes are characters; names are lower-cased in ASCII, which decides equality with a new name; how the analyzer collects the parameters of a statement and encodes their values is not modelled.
- NumberPrinting: a number is a fraction of two integers; the conversion from FLOAT64 is exact and not modelled.
- DateTimePrinting: the weekday, the day of the year and the offset of the zone come with the value.
- DateTimeParsing: a TIMESTAMP text without an offset is left as a civil time; placing it in the session's zone is not modelled.
- DateTimeRoundTrip.RoundTrip: elements that show part of a year are modelled in both directions (DateTimeShown.OneElement, DateTimeInput.ReadElementIff) but not in the round trip; for TIME the date of the clock, which the code checks too, is taken to be a real one of years 1 to 9999.
- Geography, JSON, JavaScript functions, property graphs, differential privacy, collation and the runtime function library.
