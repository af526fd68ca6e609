# rasql: planning, batching and sequencing, verified

A Dafny model of the parts of rasql that plan, batch, order and sequence database
work, with proofs of what they promise. The database, the driver and the SQL
renderer are not modelled as code: a table is its rows, a statement returns the rows
it selects in any order its ORDER BY leaves open, and every place where a driver may
fail is an input (a script, a list of executions) or an arbitrary answer.

| module | what it covers |
|---|---|
| `ThreeValued` | SQL predicates under three-valued logic |
| `Keyset`, `Paging` | the keyset predicate, the limit+1 page, whole runs of pages over a changing table |
| `MutationBatch`, `MutationOutcome` | grouping under the bind limit, the cut search, per-input outcomes |
| `MigrationPlan`, `MigrationRun` | selection over a history, apply and revert with a failure at any statement |
| `Scopes`, `RowLifecycle` | nested transactions and savepoints, the iterator around one result and its busy token |
| `Versioned` | optimistic concurrency of versioned patches |
| `GraphValidate`, `GraphMembership`, `PartitionLimit`, `GraphEdge`, `GraphThrough`, `GraphMeaning`, `GraphSpec`, `GraphLoad` | the graph loader, from plan validation to the attach callbacks |
| `MySQLTypes`, `MySQLScanner` | the ENUM/SET printer against its parser, the CREATE TABLE scanners |

Main results:

- `GraphLoad.LoadGraph`: the breadth-first, batched, deferred-callback loader returns a
  graph that a recursive loader with one query per parent may build, fails exactly when
  that loader fails, refuses exactly the plans with a reachable cycle or a reachable edge
  whose keys or budget do not fit, and sends no statement beyond its edge's budget. Where an engine is free to order rows (a query
  without a settling ORDER BY, and every per-parent limit, whose outer select has none:
  query_composition.go:455-467) any order is allowed for; relations then hold the same
  rows (`GraphSpec.BuildsUpToOrder`). Where every order is settled the graph is equal to
  the recursive one (`GraphSpec.BuildsExactly`). `GraphMeaning` says row by row what that
  loader gives a parent and when it fails. `DescendantsFirst` orders the callbacks.
- `Paging.RunIncreasing`, `FinishedRunComplete`, `StaticRunSorted`, `StaticRunTerminates`:
  whole runs of pages, with rows coming and going between requests.
- `MutationBatch.PrepareMutationBatches`: a legal, conserving split into the fewest
  statements of any order-preserving one.
- `MigrationRun.RunCalls`, `MigrateSupplied`: over any sequence of calls failing anywhere,
  the history stays a checksum-matching prefix, and every entry goes back to a landed
  write that followed all statements of the migration as it was supplied.
- `Scopes.Connection.Within`, `RowLifecycle.Iterate`, `Versioned.RunIsSerial`,
  `MySQLTypes.NativeTypeRoundTrip`: one per remaining component.

Preconditions taken from the source: child queries of a graph carry no LIMIT, OFFSET,
DISTINCT or GROUP BY; key identity framing is injective, so a key is its values; a
cursor decodes to the key it encodes; a statement binds the sum of what its rows bind.

ApplyThrough(x) followed by Through(y) is ApplyThrough(y) if and only if the starting
history does not already reach past y; `MigrationPlan.ApplyThenThrough` and
`MigrationRun.ApplyThroughThenThrough` state both directions.

## Findings

- Finish after Finish. executor.go:73-75 promises that every call after the first returns the error the first one computed; rows.go:118-121 returns the later call's own argument. `RowLifecycle.FinishForgets` is an input: a row that does not decode, finished with the decoder's error and finished again with none, reports that error and then success. `RowLifecycle.FinishTwice` is the exact condition: the second result is the first if and only if its caller passes in the first call's error joined with what the result ended with.
- An impossible page that is not recognised. keysetPredicate reports impossible exactly when every cursor value is a NULL that does not sort first. A column at its last value (a greatest integer, TRUE) is not recognised: `Keyset.LastRowIsNotImpossible` is an input, and `Keyset.RowAfterExactly` says for columns of any values when no row can follow. The statement is then sent and selects nothing, so the page is right.

## Model

| member | source | states |
|---|---|---|
| `Keyset.BeforeTransitive` | cursor.go:88-121 | The order a page spec defines, over any mix of direction and NULL placement, is transitive |
| `Keyset.BeforeTotal` | cursor.go:88-121 | Two different key tuples a table can hold are ordered one way or the other |
| `Keyset.TermOrdersByPlace` | cursor.go:58-86 | One term orders by place: NULLs on their side, values by size, descending ones by negated size |
| `ThreeValued.ConnectivesMean` | page.go:353-366 | AND and OR under three-valued logic, by quantification over their operands |
| `ThreeValued.ComparisonsMean` | page.go:342-350 | A comparison with a NULL is UNKNOWN, otherwise that of the values |
| `Keyset.KeysetPredicate` | page.go:312-368 | TRUE for exactly the rows strictly after the cursor, never UNKNOWN; impossible exactly when every cursor value is a NULL that does not sort first, and then no row comes after; a NULL for a key that is not nullable is an invalid cursor |
| `Keyset.BranchMeaning` | page.go:322-359 | A branch means "equal on the earlier keys, strictly after on this one"; a branch left out stands for a condition no row meets |
| `Keyset.BranchesMeaning` | page.go:312-368 | The OR of the first n branches is TRUE exactly for the rows after the cursor by one of the first n keys |
| `Keyset.NothingAfter` | page.go:335-362 | No tuple sorts after a cursor of NULLs that come last |
| `Keyset.RowAfterExactly` | page.go:312-368 | Over columns of any values, a row can come after the cursor exactly when some column has a value after the cursor's |
| `Keyset.LastRowIsNotImpossible` | page.go:341-359 | A cursor at a column's greatest value: no row follows, yet the predicate is not impossible |
| `Paging.EffectiveLimit` | page.go:45-57 | Refused exactly when the policy, or the default one in place of the zero policy, is invalid or the request is negative or beyond the maximum; otherwise the request or the default, at least one, and one more still fits an int |
| `Paging.ConsumePreparedPage` | page.go:149-211 | Keeps the first `limit` rows; there is more, and a next cursor, exactly when another row was read |
| `Paging.PageAfter` | page.go:29-113 | The page holds the first `limit` rows after the cursor and says whether a row follows |
| `Paging.AnswerIsPage` | page.go:96-113 | The limit+1 read cut to `limit` is a page in that sense |
| `Paging.RunIncreasing` | page.go:149-211 | Over any run that follows Next, whatever happens to the table, returned keys strictly increase |
| `Paging.RowPending` | page.go:149-211 | A row whose key was present so far, updated or not, has been returned or lies after the cursor reached |
| `Paging.FinishedRunComplete` | page.go:149-211 | A run that ended returned every row present throughout, even one updated in between |
| `Paging.StaticRunSorted` | page.go:149-211 | Over an unchanging table a finished run concatenates to the sorted table |
| `Paging.StaticRunTerminates` | page.go:149-211 | Over an unchanging table a run ends within one request per row |
| `MutationBatch.MutationBindLimit` | mutation.go:644-653 | The smaller of the limits that are set, none exactly when neither is |
| `MutationBatch.ArgsAddUp` | mutation.go:573-590 | What a statement binds is the sum over its rows and plans |
| `MutationBatch.MutationPrefixProbe` | mutation.go:551-558 | The probe stays in the searched range whatever was measured |
| `MutationBatch.ProbeIsCut` | mutation.go:545-558 | When every row costs the same, the probe is the cut itself |
| `MutationBatch.FindCut` | mutation.go:511-543 | Ends with the longest fitting prefix whatever the probes say, after at most two compiled probes when every row costs the same |
| `MutationBatch.MeasureRun` | mutation.go:480-492 | Collects exactly the plans that share the first one's shape, up to the limit, with their row ends and bind counts |
| `MutationBatch.CompileMutationGroup` | mutation.go:472-543 | Takes the most plans that may legally share a statement; refuses exactly when the first alone breaks the limit |
| `MutationBatch.PrepareMutationBatches` | mutation.go:418-449 | Fails exactly when some plan alone breaks the limit; otherwise a legal split with no more statements than any other legal split, and no statement with more than MaxRows rows when every plan inserts one |
| `MutationBatch.GreedyMinimal` | mutation.go:418-449 | Maximal groups use no more statements than any legal order-preserving split |
| `MutationBatch.SplitConserves` | mutation.go:418-449 | The groups in order are the plans: none lost, repeated or moved |
| `MutationBatch.RowsBounded` | typed_mutation.go:281-290 | Create plans insert one row each, so a group of them carries at most MaxRows rows |
| `MutationOutcome.ExecPreparedMutationBatches` | mutation.go:612-642 | An input is Applied, Rejected or Unknown exactly when its statement was reached and succeeded, failed and was rejected, or failed and was not; the failed inputs are those of the first failure |
| `MutationOutcome.PlainExactly` | mutation.go:621-640 | The same, of one input and its statement |
| `MutationOutcome.OutcomeShape` | mutation.go:612-642 | Outcomes read Applied*, at most one failed statement, Unattempted* |
| `MutationOutcome.ExecAtomicMutationBatch` | mutation.go:655-763 | nil leaves every input Applied, an error leaves none; RolledBack exactly for what succeeded before a failure and a clean rollback, Unknown exactly after an unrejected failure or a broken end of the scope; durability per finalizer result |
| `MutationOutcome.ScopedExactly` | mutation.go:700-752 | The same, of one input and its statement |
| `MutationOutcome.OutcomesTrue` | mutation.go:612-763 | Applied inputs took effect, unattempted, rejected and rolled-back ones did not |
| `MigrationPlan.PrepareMigrations` | migrate/runner.go:110-133 | Each supplied migration with its ID, mode, hash and as many sources each way as it has statements, in ID order; refused exactly when one is invalid or an ID repeats |
| `MigrationPlan.LessExactly` | migrate/runner.go:129-131 | IDs are in byte order: the smaller byte at the first difference, a prefix before what extends it |
| `MigrationPlan.Validate` | migrate/migration.go:78-95 | Accepts exactly a known mode, a usable ID, at least one forward source, and valid sources both ways |
| `MigrationPlan.ValidateStatements` | migrate/migration.go:100-115 | Accepts exactly sources that are named, hold SQL and share no name |
| `MigrationPlan.PrefixExactly` | migrate/apply.go:386-424 | A history is the prefix of length h exactly when it records those migrations, with their checksums, and nothing else |
| `MigrationPlan.ApplyLimit` | migrate/apply.go:428-441 | All of them, or up to and including the named migration; refused exactly when it was not supplied |
| `MigrationPlan.SelectApplies` | migrate/apply.go:386-424 | Succeeds exactly on a checksum-matching prefix and a known target, and selects what lies between them |
| `MigrationPlan.RevertCount` | migrate/revert.go:401-422 | The migrations newer than the named one, or n of them; refused exactly when it is not applied or n is out of range |
| `MigrationPlan.SelectReverts` | migrate/revert.go:354-397 | Succeeds exactly when the records are a gapless head, the target resolves and everything selected is unchanged and reversible; newest first |
| `MigrationPlan.StatusEntries` | migrate/status.go:82-117 | Each supplied migration shown as pending, changed, out of order or applied as its record says, after the unknown records in ID order; only applied and pending exactly when selecting all pending succeeds |
| `MigrationPlan.SettledExactly` | migrate/status.go:100-116 | Only applied and pending states exactly when the recorded migrations are an unchanged head |
| `MigrationPlan.RevertUndoesApply` | migrate/revert.go:401-422 | Steps(n) after an apply of n migrations resolves to the original history |
| `MigrationPlan.ApplyThenThrough` | migrate/revert.go:401-422 | ApplyThrough(x) then Through(y) equals ApplyThrough(y) if and only if y is not before the starting point |
| `MigrationRun.Database.RunSources` | migrate/apply.go:230-242 | Success means every source was sent, in order, and succeeded or was tolerated |
| `MigrationRun.Database.Step` | migrate/apply.go:244-280 | A failed step leaves the history as it was or exactly one step further, and on the history it was selected from it fails only when the database does |
| `MigrationRun.Database.RunEach` | migrate/apply.go:139-228 | The history is the replay of the first n steps, where n is at most one more than was reported |
| `MigrationRun.Database.RunTogether` | migrate/apply.go:332-380 | One transaction: all steps or none, even when the commit is ambiguous |
| `MigrationRun.Database.Apply` | migrate/apply.go:61-94 | From prefix to longer prefix whatever the database replies; with no fault among the replies it errs exactly when the named migration was not supplied, and otherwise reaches the end or that migration |
| `MigrationRun.Database.Revert` | migrate/revert.go:61-93 | From prefix to shorter prefix whatever the database replies; with no fault among the replies it errs only when the target is missing, not applied, out of range or beyond something without reverse sources, and otherwise ends right there |
| `MigrationRun.RecordedAfterSources` | migrate/apply.go:139-280 | Every entry the history gained goes back to the last landed write for its ID, a record sent right after all sources of that migration |
| `MigrationRun.RunCalls` | migrate/apply.go:332-424 | Over every sequence of applies and reverts failing anywhere, the history stays a checksum-matching prefix made by justified writes only |
| `MigrationRun.MigrateSupplied` | migrate/apply.go:230-280 | From an empty history, a supplied migration is recorded only under its hash and right after as many accepted statements as it has, and forgotten only right after as many accepted reverse ones |
| `MigrationRun.ApplyThenRevert` | migrate/revert.go:296-350 | Apply, then Steps(as many as completed): the original history is back, and without a database failure only a missing reverse source can prevent it |
| `MigrationRun.ApplyThroughThenThrough` | migrate/revert.go:401-422 | Through(y) after ApplyThrough(x), reverse sources present and no database failure: the history ends at y, where ApplyThrough(y) would have ended if and only if it did not start past y |
| `Scopes.ReplayAppend` | scope.go:114-172 | Replaying two lists of statements one after the other is replaying them joined |
| `Scopes.KeptExactly` | scope.go:114-172 | What is kept are, in order, the statements around which no scope returned an error or panicked |
| `Scopes.OwnSavepoint` | db.go:67-89 | However many savepoints a callback leaked, a finalizer addresses its own |
| `Scopes.Connection.RunCallback` | scope.go:180-189 | Leaves the data as the replay of the statements whose every enclosing scope returned nil |
| `Scopes.Connection.WithinSavepoint` | atomic.go:76-106 | Keeps its statements exactly when its callback returned nil, and leaves the savepoint stack as found |
| `Scopes.Connection.Within` | scope.go:114-172 | The committed data gains exactly the statements whose every enclosing scope returned nil |
| `RowLifecycle.OwnedRows.Finish` | rows.go:113-136 | The first call completes the rows and frees the token; a later one changes nothing and hands its argument back |
| `RowLifecycle.FinishTwice` | rows.go:118-121 | A second Finish returns what the first computed exactly when it is passed that error |
| `RowLifecycle.FinishForgets` | rows.go:118-121 | An input on which it does not: an error first, then none |
| `RowLifecycle.QueryGuarded` | db.go:767-788 | Holds the token exactly while a result is open |
| `RowLifecycle.Iterate` | executor.go:282-427 | Wherever the consumer stops: Finish once per opened result, the token as before, rows in their places, every error exactly for its own fault; no error exactly when nothing failed and the policy allows that many rows; busy, query and nil-rows errors when nothing was opened |
| `RowLifecycle.FailuresExplain` | executor.go:302-427 | Each error stands in a failure exactly for its own fault: ErrNoRows only under ExactlyOne over no rows, ErrMultipleRows only when a second row was read |
| `RowLifecycle.CleanExactly` | executor.go:374-427 | A sequence without failure exactly when the driver did nothing wrong and the policy allows that many rows |
| `RowLifecycle.IterateMany` | executor.go:358-401 | Rows as they decode, then at most one error |
| `RowLifecycle.IterateSingle` | executor.go:374-427 | A row is held back until a second read shows it is alone |
| `RowLifecycle.SequenceShape` | executor.go:282-427 | No yield after the stop, an error only last, no row before ErrMultipleRows |
| `RowLifecycle.NothingLost` | executor.go:282-427 | A sequence without an error has shown the whole result, of a size its policy allows |
| `Versioned.Lower` | typed_mutation.go:329-371 | The assignments, no column twice, make of every row exactly the patched row with the version raised by one |
| `Versioned.ExecPatch` | mutation.go:172-185 | Rows hit are rewritten field by field with the version one higher, others stay; several rows exactly when two positions were hit, applied exactly when one was, a precondition failure exactly when none was |
| `Versioned.PatchExactly` | typed_mutation.go:329-371 | The same of the update as a function |
| `Versioned.RunPatches` | mutation.go:127-185 | Any interleaving of lowered patches: every patch takes the table before it to the table after it in that way and reports so |
| `Versioned.PatchOutcome` | mutation.go:172-185 | Over a unique key a patch never reports several rows, succeeds exactly when a row matches, and otherwise changes nothing |
| `Versioned.SucceedsExactly` | mutation.go:172-185 | In any interleaving a patch succeeds exactly when its row is at the expected version |
| `Versioned.RunIsSerial` | typed_mutation.go:116-143 | The version grows by one per success and the row is the serial application of the successes in version order |
| `Versioned.NoLostUpdate` | typed_mutation.go:116-143 | No two patches of a row succeed from the same version |
| `GraphValidate.GraphValidate` | graph_execute.go:36-105 | Terminates; accepts exactly the plans without a reachable flaw or cycle, each reachable node validated once |
| `GraphValidate.SettledReach` | graph_execute.go:36-105 | A children-first order of validated nodes contains all that is reachable and rules out cycles |
| `GraphMembership.BuildGraphMembership` | graph_execute.go:413-448 | TRUE exactly when the row key is one of the tuples; binds them in order; ORs nest at most ceil(log2 n) deep |
| `GraphMembership.CeilLog2Least` | graph_execute.go:413-448 | That bound is the least power of two not below n |
| `GraphMembership.DepthMeans` | graph_execute.go:432-446 | An OR is deeper than each of its disjuncts, so the bound is on real nesting |
| `GraphMembership.BatchSize` | graph_execute.go:512-521 | The largest number of keys, at least one, that the budget holds beside the query's own binds |
| `GraphMembership.BatchWithinBudget` | graph_execute.go:512-537 | No batch of that size binds more than the budget |
| `PartitionLimit.LimitCommutes` | query_composition.go:358-370 | Restricting to the batch's keys inside the window query selects what limiting first and filtering afterwards selects |
| `PartitionLimit.LimitIsFirst` | query_composition.go:441-468 | For one key the limited rows are the first rows of the unlimited query |
| `PartitionLimit.HasOneLimit` | graph_execute.go:500-511 | Limit two reports a second row exactly when the unlimited result has one |
| `PartitionLimit.BatchServesKey` | graph.go:179-213 | A batched, limited statement returns for each key what a statement for that key alone returns |
| `GraphEdge.CollectKeys` | graph_execute.go:450-499 | The distinct keys of the parents in first-occurrence order, parents with a NULL key passed over |
| `GraphEdge.AcceptedExactly` | graph_execute.go:107-187 | An edge is accepted exactly when every query it sends has key columns and room for one key beside its own binds, and compared keys are as wide |
| `GraphEdge.RunBatches` | graph_execute.go:521-545 | Every statement is non-empty and within budget, the keys are bound once and in order, and whatever order the engine returns the rows serve every key |
| `GraphEdge.GroupRows` | graph_execute.go:546-559 | Groups rows by key in order, refusing exactly a row whose key is absent or was not requested |
| `GraphEdge.LoadDirect` | graph_execute.go:450-600 | Every parent gets what a query for it alone may return, or the edge fails because some parent alone fails; every statement within budget |
| `GraphEdge.MayLoadRows` | query_composition.go:441-467 | Whatever order an engine chooses, an edge loads the same rows for a parent |
| `GraphEdge.LinksOkAnyOrder` | graph_execute.go:663-697 | And a many-through edge fails for the same parents |
| `GraphThrough.CollectLinks` | graph_execute.go:660-697 | The distinct targets of every parent key, and of all of them, in first-occurrence order |
| `GraphThrough.IndexTargets` | graph_execute.go:793-808 | One row per requested target; refused exactly on a row that was not asked for or a target with several |
| `GraphThrough.FindTargets` | graph_execute.go:821-833 | The found targets in order; missing ones are dropped only when the child query has predicates |
| `GraphThrough.ContinueBelow` | graph_execute.go:839-847 | The second pass stays in bounds and meets the value the first pass made of the same row |
| `GraphThrough.LoadThrough` | graph_execute.go:602-851 | Every parent gets exactly its distinct junction targets, in the order its junction rows first name them, or the edge fails because some parent alone fails |
| `GraphThrough.LoadEdge` | graph_execute.go:450-851 | Any edge loads what one query per parent may, within its budget |
| `GraphMeaning.DirectFails` | graph_execute.go:566-568 | A has-many edge never fails; a has-one edge fails exactly for a parent with two rows |
| `GraphMeaning.ThroughFails` | graph_execute.go:663-697 | A many-through edge fails exactly for a parent with a junction row without a target, or whose target has two rows, or none and no predicate to excuse it |
| `GraphMeaning.DirectLoads` | graph_execute.go:560-600 | A parent gets exactly the rows at the positions with its key, the first ones under a limit |
| `GraphMeaning.ThroughLoads` | graph_execute.go:811-851 | A parent gets, for the targets its junction rows name, the row of each that has one, in target order |
| `GraphMeaning.FirstNamed` | graph_execute.go:676-693 | Targets stand in the order junction rows first name them |
| `GraphLoad.PlanEdges` | graph_execute.go:396-411 | Every edge once, its parents in queue order, each as often as its node lists the edge |
| `GraphLoad.ExecuteEdge` | graph_execute.go:560-600 | Every parent of the edge gets a callback for child rows one query for it may return |
| `GraphLoad.ExpandLevel` | graph_execute.go:266-276 | One level serves the whole queue and queues only nodes ranked lower |
| `GraphLoad.ExpandRoots` | graph_execute.go:258-276 | Terminates; fails exactly when the recursive loader fails for some root; else every row has the callbacks of all its edges |
| `GraphLoad.SortDeferred` | graph_execute.go:277-285 | The same callbacks, deepest first, those of one depth in the order they had |
| `GraphLoad.DescendantsFirst` | graph_execute.go:277-288 | The callback of a descendant comes before every callback it hangs below |
| `GraphLoad.RunCallbacks` | graph_execute.go:286-289 | After the callbacks every value is a graph the recursive loader may build for its row |
| `GraphLoad.LoadGraph` | graph_execute.go:220-290 | Refuses exactly when a cycle is reachable, or an edge with an empty key, keys of different widths or a budget below a query's binds and one key; otherwise fails exactly when the recursive loader does, returns a graph it may build (the one it builds, when every order is settled), and sends no statement beyond its edge's budget |
| `GraphSpec.AnyRank` | graph_execute.go:258-290 | What the recursive loader may build is the same under every ranking of the nodes |
| `GraphSpec.AnyRankOk` | graph_execute.go:258-290 | So is whether it succeeds |
| `GraphSpec.CyclicExactly` | graph_execute.go:36-105 | A cycle of the plan is a cycle validation sees |
| `GraphSpec.FlawIsUnfit` | graph_execute.go:36-105 | A flaw validation sees is a reachable edge that is not accepted |
| `GraphSpec.BuildsExactly` | graph_execute.go:258-290 | When every order is settled the recursive loader builds one graph |
| `GraphSpec.BuildsUpToOrder` | query_composition.go:441-467 | In any case every relation it builds holds the same rows |
| `MySQLTypes.ReadLabel` | inspect/inspect.go:3059-3104 | The scan of one quoted label, escapes and doubled quotes included |
| `MySQLTypes.ParseMySQLTypeArguments` | inspect/inspect.go:3050-3118 | The scan of a whole argument list |
| `MySQLTypes.LabelRoundTrip` | inspect/inspect.go:3059-3104 | An escaped label reads back as itself, up to its closing quote |
| `MySQLTypes.ArgumentsRoundTrip` | inspect/inspect.go:3050-3118 | A printed list of literals parses to exactly its labels |
| `MySQLTypes.NativeTypeRoundTrip` | dialect/dialect.go:398-407 | A printed ENUM or SET parses to the same kind and exactly the same labels |
| `MySQLTypes.EnumInAnyCase` | inspect/inspect.go:3027-3048 | ENUM is read in any mixture of cases |
| `MySQLTypes.SetInAnyCase` | inspect/inspect.go:3027-3048 | SET is read in any mixture of cases |
| `MySQLTypes.SpaceAround` | inspect/inspect.go:3027-3030 | White space around a declaration does not matter |
| `MySQLTypes.EscapeRead` | inspect/inspect.go:3066-3087 | What a backslash and one more character stand for |
| `MySQLTypes.BlanksExactly` | inspect/inspect.go:3050-3058 | Before a label four blanks are passed over and anything else but a quote is refused |
| `MySQLTypes.AfterLabel` | inspect/inspect.go:3105-3115 | After a label the list ends or a comma follows; anything else is refused |
| `MySQLTypes.NativeShape` | inspect/inspect.go:3027-3048 | Only a declaration that begins like one of the two names and ends with a parenthesis is read as one of them |
| `MySQLScanner.MatchingParenthesis` | inspect/inspect.go:853-885 | The first position at which, outside quotes, the opened parenthesis is closed; none exactly when there is no such position |
| `MySQLScanner.TopLevelParts` | inspect/inspect.go:887-929 | The parts joined by commas are the text, cut at exactly its top-level commas; refused exactly when quotes or parentheses are not balanced |
| `MySQLScanner.PartsCut` | inspect/inspect.go:887-929 | A position is a cut exactly when the scan meets a comma there outside quotes and parentheses |
| `MySQLScanner.PartsExactly` | inspect/inspect.go:887-929 | Cutting succeeds exactly on balanced text |
| `MySQLScanner.NoCutInQuotes` | inspect/inspect.go:894-910 | No cut lies between a quote of any of the three kinds and the one that closes it |
| `MySQLScanner.NoCutInParentheses` | inspect/inspect.go:911-922 | No cut lies between a parenthesis and the one that closes it |
| `MySQLScanner.MatchedBodySplits` | inspect/inspect.go:853-929 | Whenever the closing parenthesis is found, splitting the enclosed body cannot fail |

## Left out

- `generate/*`, `catalog/*` and the catalog SQL of `inspect/inspect.go`: file system, catalog I/O and source emission.
- Codecs, decoding and cloning (`codec*.go`, `scan.go`, `graph_clone.go`): rows are values and codecs total functions; a codec error is not modelled.
- Hooks, events, decorators, engine profiles, expression constructors, `namedsql`, `schema` options, `createColumnOmissible`: forwarding or easy members.
- Internals of `query`, `render`, `bindplan`, `cursorcodec`, `graphkey` and `pagekey`: bind counting, injective key framing and cursor encoding are assumed; the cursor fingerprint check (page.go:135-141) is not part of this model.
- Time-outs, context cancellation and lock acquisition: a lock is mutual exclusion; failing to take or release one is an arbitrary answer in `MigrationRun`.
- Keyset.KeysetPredicate: column values are reals; any countable ordered type of the source embeds, but collations under which different values compare equal are not modelled.
- Paging.PageAfter: rows of a table have different keys, which the unique suffix of a page spec promises; the duplicate checks of NewPageSpec are not modelled.
- MutationBatch.PrepareMutationBatches: the only compile error modelled is the bind limit; products in the probe do not overflow 64 bits.
- MutationOutcome.OutcomesTrue: assumes that the classifier calls a statement rejected only when the database kept nothing of it, and does not cover a panicking executor.
- MigrationPlan.Validate: strings are chars, so UTF-8 validity is not modelled, and blanks are the ASCII ones.
- MigrationRun.Database.Step: the checksum framing of a migration is a given string; two migrations with equal checksums are not told apart.
- MigrationRun.Database.RunSources: tolerated answers are an abstract class of MySQL errors, not the list of error numbers.
- Scopes.Connection.Within: finalizers succeed; a rollback or commit that fails, and a busy token held over a finalizer by open rows, are not modelled.
- RowLifecycle.Iterate: the rule that a sequence is consumed once, the cause a consumer may record before stopping, and a panicking consumer are not modelled.
- Versioned.NoLostUpdate: the predicate of a patch compares one unique column that the patches of the run do not assign, so that it keeps naming the row; the version is unbounded, without the 64-bit wrap-around.
- PartitionLimit.LimitCommutes: the rows are listed in the window's order, which graphUniqueOrder makes total; ties under an order that is not unique are not modelled.
- GraphLoad.LoadGraph: edges and children of the plan are present (the zero-edge refusal is in `GraphValidate.GraphValidate`), nodes compile, and the capability and unique-order checks of validateGraphEdge are folded into whether an edge is accepted; attach functions set one relation of the parent.
- MySQLTypes.NativeTypeRoundTrip: a byte is a char of its value; upper-casing and trimming act on ASCII only, which is all a printed type needs.
