# TimescaleDB skip scan and small planner/executor cores, in Dafny

This project models the **skip scan** (loose index scan) of the TimescaleDB
extension, together with four smaller self-contained pieces of the same
repository:

- the integer `time_bucket` arithmetic;
- the WITH-clause option parser;
- the `partialize` planner hook;
- the background-worker test job registry.

The skip scan has two halves, and the model covers both.

- **Executor (`SkipScanExec`, `SkipScanRun`).** The executor node is a
  bit-flag state machine. It withholds its skip qual on the first call,
  then rewrites the key's flags and argument before every later call. When
  the index runs dry it probes once for IS NULL or IS NOT NULL, so that the
  NULL is found under both NULLS FIRST and NULLS LAST.
- **The index (`SkipScanIndex`).** The index is seen only through an
  abstract cursor: a scan-ordered sequence of entries, each carrying the
  leading column's value (or NULL) and whether the base quals accept it.
  Every call of the node restarts the scan, so a fetch returns the first
  entry that the base quals and the active skip key accept.
- **The main theorem (`SkipScanRun.RunYieldsEachDistinctValueOnce`).** From
  a fresh node, calling `Exec` until it reports the end does reach the end.
  The rows returned carry every distinct accepted key exactly once, NULL
  included, with the values in scan order and the NULL where the index
  keeps NULLs.
- **Planner (`SkipScanPlanner`).** This part decides:
  - whether a Unique path over an index scan, or over a merge-append of
    index scans, is replaced by a skip scan;
  - which comparator strategy the skip qual uses;
  - what is recorded per distinct column.

  The catalog lookups are two maps, and a missing key stands for a failed
  lookup.

The other modules are `TimeBucket`, `WithClause`, `Partialize` and
`TestJobs`. `Wrappers` holds the `Option` and `Result` types.

The stage constants of the executor are not declared in skip_skan.h or
exec.c. They are chosen as follows:

- `SearchingForFirst = 0`;
- `FoundVal`, `FoundNull`, `SearchingForNull` and `SearchingForVal` are
  four distinct bits;
- `FoundNullAndVal = FoundNull | FoundVal`;
- `SearchingForAdditional = SearchingForNull | SearchingForVal`. This one
  is inferred from the way tsl/src/nodes/skip_skan/exec.c:358 clears both
  search bits.

The skip key's three flag bits mean, in the B-tree access method's reading
(`SkipScanExec.Meaning`):

- SK_SEARCHNULL with SK_ISNULL is IS NULL;
- SK_SEARCHNOTNULL with SK_ISNULL is IS NOT NULL;
- SK_ISNULL alone is a comparison with NULL, which no row satisfies;
- no SK_ISNULL is the ordinary comparison beyond the previous value.

Where the informal description and the code differ, the model follows the
code:

- **`ts_with_clause_filter` ignores its `namespace` argument.** It compares
  every option's namespace against the literal `hypertable`, and
  `WithClause.InHypertable` does the same.
- **`ts_test_job_add` stores its job past the free slot** (see Findings).
  The rest of the model uses the corrected `TestJobs.Add`.
- **The skip comparator ignores the scan direction** (see Findings). The
  rest of the model uses the corrected `SkipScanPlanner.StrategyFor`, which
  follows the direction the index path scans in.
- **The skip scan node never sets its memory context** (see Findings). The
  rest of the model uses `SkipScanExec.Begin`, which keeps the context the
  node is begun in.

## Model

| member | source | states |
|---|---|---|
| SkipScanIndex.FirstMatch | tsl/src/nodes/skip_skan/exec.c:232-246 | the position fetched is the first entry at or after the start that the base quals and the active key accept; None means no entry from there on is accepted |
| SkipScanIndex.FetchUnkeyed | tsl/src/nodes/skip_skan/exec.c:194-208 | the first call's unkeyed fetch finds nothing only when no entry is accepted; a value it returns is the least accepted value; a first row with a value under NULLS FIRST means there is no accepted NULL, and a first row that is NULL under NULLS LAST means there is no accepted value |
| SkipScanIndex.FetchBeyond | tsl/src/nodes/skip_skan/exec.c:253-265 | with a comparator that moves the way the scan does, the row fetched is the next accepted value beyond prev in scan order; nothing fetched means every accepted value is at or before prev |
| SkipScanIndex.FetchNotNull | tsl/src/nodes/skip_skan/exec.c:317-329 | the IS NOT NULL probe returns the least accepted value, or nothing exactly when no value is accepted |
| SkipScanIndex.FetchNull | tsl/src/nodes/skip_skan/exec.c:304-315 | the IS NULL probe returns a NULL row exactly when the base quals accept a NULL |
| SkipScanIndex.FetchUnsatisfiable | tsl/src/nodes/skip_skan/exec.c:253-256 | a key with SK_ISNULL and no search flag (column compared with NULL) matches no row |
| SkipScanExec.Begin | tsl/src/nodes/skip_skan/exec.c:37-93 | a subscan that is neither an index scan nor an index-only scan, or that has ORDER BY keys, is an error; otherwise the node starts searching for the first value, with previous-is-NULL set, the skip key present, the planned SK_ISNULL flag, and the context it is begun in kept for copies |
| SkipScanExec.BeginAsWritten | tsl/src/nodes/skip_skan/exec.c:37-93 | as written the node has no memory context, so its state is well formed only for a by-value column; every later state of the node has the same context, and on a by-reference column any non-NULL value it records is copied with no context |
| SkipScanExec.RemoveSkipQual | tsl/src/nodes/skip_skan/exec.c:361-369 | withholding the skip qual and re-adding it restores the key count and the array offset exactly, and the re-add reports that it had been withheld |
| SkipScanExec.ReaddSkipQualIfNeeded | tsl/src/nodes/skip_skan/exec.c:371-382 | afterwards the qual is present; the result flag says whether it had been withheld; re-adding a qual that was not withheld is a no-op returning false |
| SkipScanExec.PopulatedKeyMeaning | tsl/src/nodes/skip_skan/exec.c:384-420 | after populating, the key means IS NULL while searching for NULL, IS NOT NULL while searching for a value, `beyond prev` after a value, and after a NULL that was found it means nothing more (or IS NOT NULL while a stale flag survives) |
| SkipScanExec.UpdateSkipKey | tsl/src/nodes/skip_skan/exec.c:331-359 | the recorded value and NULL flag are the row's; the stage gains exactly the row's class bit, the found bits are otherwise kept and the search bits cleared; the previous copy is released and a new one taken only for a non-NULL by-reference value, so the live copies equal the owned ones; it is called only when such a copy has a context to go to |
| SkipScanExec.Prepare | tsl/src/nodes/skip_skan/exec.c:192-231 | the first call withholds the skip qual and opens the scan on the base quals alone; a later call finds the qual present (reopening the scan if it re-added it) and populates the key |
| SkipScanExec.Exec | tsl/src/nodes/skip_skan/exec.c:188-270 | each call returns an accepted row whose value it records, adding that row's class bit, or returns no row only when everything was found or the scan is finished; found bits are never lost; at most one probe, of an allowed kind, is issued, and a probe clears the end flag |
| SkipScanExec.AfterExhausted | tsl/src/nodes/skip_skan/exec.c:247-270 | when the scan is dry the node ends, returning nothing and changing nothing, exactly when it found both classes, or nothing, or the probe under way found nothing; otherwise exactly one class was found, and it issues the NULL probe after a value and the non-NULL probe after a NULL |
| SkipScanExec.SearchForNull | tsl/src/nodes/skip_skan/exec.c:304-315 | the NULL probe is issued once, only after a value and before any NULL, and keeps every promise of a call |
| SkipScanExec.SearchForNonNull | tsl/src/nodes/skip_skan/exec.c:317-329 | the non-NULL probe is issued once, only after a NULL and before any value, and keeps every promise of a call |
| SkipScanExec.Rescan | tsl/src/nodes/skip_skan/exec.c:433-458 | a rescan leaves the node fresh: searching for the first value, previous-is-NULL set, a withheld skip qual re-added, and the scan closed |
| SkipScanExec.RescanStrandsCopy | tsl/src/nodes/skip_skan/exec.c:455-457 | after a non-NULL by-reference value, the rescan as written leaves one allocated copy that the state no longer owns |
| SkipScanExec.RescanReleasing | tsl/src/nodes/skip_skan/exec.c:433-458 | a rescan that frees the owned copy first leaves the node fresh with no live copy |
| SkipScanRun.Drain | tsl/src/nodes/skip_skan/exec.c:188-270 | repeated calls return only accepted rows, at most one per call |
| SkipScanRun.StepFirst | tsl/src/nodes/skip_skan/exec.c:192-208 | the first call returns the first accepted row and establishes the run invariant, or ends with nothing accepted |
| SkipScanRun.StepAfterValue | tsl/src/nodes/skip_skan/exec.c:247-269 | after a value, a call returns the next value or the NULL the probe finds, keeping the invariant, or ends with every accepted key returned |
| SkipScanRun.StepAfterNull | tsl/src/nodes/skip_skan/exec.c:253-269 | after a NULL, a call returns the least value the non-NULL probe finds, or ends with every accepted key returned |
| SkipScanRun.DrainFrom | tsl/src/nodes/skip_skan/exec.c:188-270 | from the run invariant, one more call than the keys still missing drains every missing key exactly once and reaches the end |
| SkipScanRun.RunYieldsEachDistinctValueOnce | tsl/src/nodes/skip_skan/exec.c:145-161 | on an index delivered in order, in either direction, with a skip comparator that moves the way the scan does, from a fresh node the run ends, and the keys returned are every distinct accepted key, NULL included, each once, values in scan order and the NULL first under NULLS FIRST or last under NULLS LAST |
| SkipScanRun.OneRowRun | tsl/src/nodes/skip_skan/exec.c:188-270 | when the first row holds `v` and neither a value beyond `v` nor a NULL is accepted, the run returns that row alone and ends |
| SkipScanRun.BackwardScanStopsEarly | tsl/src/nodes/skip_skan/planner.c:701 | with the comparator chosen as written, an ascending index over 1, 2, 3 scanned backward returns only the row holding 3 and ends, so 2 and 1 are never returned |
| SkipScanPlanner.ContainsRuntimeKeys | tsl/src/nodes/skip_skan/planner.c:731-762 | the path has runtime keys exactly when some qual is a comparison whose two operands, after one relabel strip each, are not both columns or constants, or is a clause kind other than comparison or NULL test |
| SkipScanPlanner.StrategyAsWritten | tsl/src/nodes/skip_skan/planner.c:701 | the comparator chosen as written is `<` exactly for a reverse-sorted column, and it moves the way the scan does exactly when the scan runs forward |
| SkipScanPlanner.StrategyFor | tsl/src/nodes/skip_skan/planner.c:701 | the corrected comparator moves the way the scan does in both directions, and it agrees with the as-written choice exactly on forward scans |
| SkipScanPlanner.BuildColumns | tsl/src/nodes/skip_skan/planner.c:668-725 | columns are built, in order, exactly when every distinct column is a plain column with a valid attribute and type and an opfamily comparator for the corrected strategy; each records its qual, index position, by-value flag and length |
| SkipScanPlanner.CreateSkipScanPath | tsl/src/nodes/skip_skan/planner.c:630-729 | a path is built exactly when the index is eligible (a sort opfamily, not unique, no ORDER BY, no runtime keys, every column usable), with one column per distinct key, and it is copied from the index path exactly when built for a merge-append child |
| SkipScanPlanner.ConvertChildren | tsl/src/nodes/skip_skan/planner.c:586-602 | each merge-append child keeps its position and becomes a skip scan exactly when it is an eligible index path; the flag says whether any did |
| SkipScanPlanner.AddSkipScanPaths | tsl/src/nodes/skip_skan/planner.c:536-626 | nothing is added with the toggle off or when every path is passed over (not a Unique, more than one key, another subpath, an ineligible index); otherwise the first path not passed over decides the one path added |
| SkipScanPlanner.Decide | tsl/src/nodes/skip_skan/planner.c:562-624 | over an index scan, a skip scan copied from the Unique replaces it; over a merge-append, a new Unique over the rebuilt children is added exactly when some child converts, and nothing otherwise |
| TimeBucket.TruncatedQuotient | src/time_bucket.c:13-15 | C's truncated quotient equals the floor quotient, plus one exactly for an inexact negative dividend |
| TimeBucket.Bucket | src/time_bucket.c:6-24 | a non-positive width is an error; otherwise the result is the floor multiple of the width when that multiple is at least the type's minimum, and the range error when it is not |
| TimeBucket.FloorMultipleIsBucketStart | src/time_bucket.c:13-22 | the bucket start is a multiple of the width, the timestamp lies in `[start, start + width)`, and no larger multiple is at or below the timestamp |
| TimeBucket.OutOfRangeOnlyNearMinimum | src/time_bucket.c:14-20 | only a timestamp within one width of the minimum and not on a boundary raises the range error |
| TimeBucket.BucketIdempotent | src/time_bucket.c:13-22 | bucketing a bucket start gives it back |
| TimeBucket.Int16Bucket | src/time_bucket.c:27-35 | the 16-bit bucket with argument 0 the width and argument 1 the timestamp: the floor multiple, or the error when it falls below -32768 |
| TimeBucket.Int32Bucket | src/time_bucket.c:37-45 | the same rule at 32 bits with minimum -2^31 |
| TimeBucket.Int64Bucket | src/time_bucket.c:47-55 | the same rule at 64 bits with minimum -2^63 |
| TimeBucket.Int16NearMinimum | src/time_bucket.c:14-20 | width 10 at -32767 is out of range rather than wrapping; -32760 is its own bucket; -7 falls in bucket -10; width 0 is an error |
| WithClause.CaseEq | src/with_clause_parser.c:22 | two names are equal ignoring ASCII case exactly when their folded forms are equal |
| WithClause.Select | src/with_clause_parser.c:19-31 | the options chosen for one side all belong to that side of the `hypertable` namespace test |
| WithClause.SelectPartitions | src/with_clause_parser.c:19-31 | the two sides together hold every option exactly once |
| WithClause.Filter | src/with_clause_parser.c:15-32 | each list that is present grows by its side's options in input order; an absent list stays absent and its options are dropped |
| WithClause.FindArg | src/with_clause_parser.c:48-51 | the argument chosen is the first table entry whose name matches ignoring case; none is chosen exactly when no entry matches |
| WithClause.DeserializeBool | src/with_clause_parser.c:89-98 | `true`/`on` give true and `false`/`off` give false, ignoring case, and any other string is the BOOLEAN invalid-value error |
| WithClause.ApplyOne | src/with_clause_parser.c:39-80 | an option is unrecognized exactly when no entry matches; otherwise the first match's index, name and deserialized value go to the callback, whose false is the invalid-or-duplicate error |
| WithClause.Apply | src/with_clause_parser.c:35-81 | no options is success with the state unchanged; one option is `ApplyOne` on it, callback included (with `ApplyConcat`, the whole is `ApplyOne` folded over the options, stopping at the first error); success means every option was recognized; an unrecognized error names an option no entry matches |
| WithClause.ApplyConcat | src/with_clause_parser.c:39-80 | applying two runs of options is applying the first, then the second from its state |
| Partialize.Walk | src/plan_partialize.c:54-87 | a successful walk keeps the tree's shape, and a failing one fails only with the not-an-aggregate error |
| Partialize.ScanSpec | src/plan_partialize.c:64-84 | the walk fails exactly when a node right after a partialize call is not an aggregate; otherwise exactly those aggregates are marked, and `found` records whether any partialize call occurs |
| Partialize.WalkIsScan | src/plan_partialize.c:54-87 | the recursive tree walk behaves as the same visit applied along the tree's preorder |
| Partialize.EnsureOnlyPartials | src/plan_partialize.c:93-103 | the check passes exactly when every aggregate in the tree is a serialized partial, and otherwise raises the mixed-aggregates error |
| Partialize.MarkAggPaths | src/plan_partialize.c:124-138 | every aggregation path becomes a serialized partial and every other path is unchanged, in place |
| Partialize.PlanAddPartialize | src/plan_partialize.c:105-140 | a non-SELECT is untouched and without a partialize call nothing changes; it fails with the not-an-aggregate error exactly when a node right after a partialize call is not an aggregate, and with the mixed-aggregates error exactly when the walk succeeds, a partialize call occurs and some aggregate no partialize call wraps is not a serialized partial; on success after one, the target list keeps its shape, exactly the wrapped aggregates are marked, every aggregate is a serialized partial, and every aggregation path of both relations is marked |
| Partialize.UnchangedWithoutPartialize | src/plan_partialize.c:118-120 | a walk that meets no partialize call changes no node |
| Partialize.PartializeCall | src/plan_partialize.c:31-42 | a NULL argument gives NULL and a non-NULL one a non-NULL result; a bytea argument is returned unchanged |
| TestJobs.Initial | test/src/bgw/test_jobs.c:15-37 | the registry starts with the four named static jobs in slots 0-3, every other slot empty, and the next id 4 |
| TestJobs.AddAsWritten | test/src/bgw/test_jobs.c:39-53 | add as written: a full registry is an error; otherwise the counter goes up by one and the job is stored at, and returned as, the new counter; at counter 127 it writes index 128 |
| TestJobs.AddAsWrittenLosesJob | test/src/bgw/test_jobs.c:46-52 | the id returned as written is rejected by get, the slot that was free stays empty, and the name scan cannot reach the job |
| TestJobs.FirstAddAsWritten | test/src/bgw/test_jobs.c:46-52 | the first job added to the initial registry gets id 5, which get rejects, and slot 4 is left empty |
| TestJobs.Add | test/src/bgw/test_jobs.c:39-53 | corrected add: a full registry is an error; otherwise the job goes in the free slot, that id is returned, and the counter goes up by one, keeping exactly the slots below the counter filled |
| TestJobs.AddThenGet | test/src/bgw/test_jobs.c:39-83 | a job added correctly is found again by get and get_name, and every earlier job is untouched |
| TestJobs.Get | test/src/bgw/test_jobs.c:55-68 | an id outside `[0, next)` is the invalid-id error, an empty slot is the unrecognized-job error, and otherwise the slot's function is returned |
| TestJobs.GetName | test/src/bgw/test_jobs.c:70-83 | the same checks against the name table |
| TestJobs.GetByName | test/src/bgw/test_jobs.c:85-100 | the result is -1 or an index below 128; an index is the first slot holding the name, with no empty slot before it; -1 exactly when no such slot is reached |

## Left out

- src/recluster.c: catalog updates, locks, WAL, TOAST swapping and the heap rewrite are storage-engine I/O.
- tsl/src/nodes/skip_skan/planner.c:37-352 and 448-523: the older multi-column plan construction, which rewrites plan nodes and equivalence classes, is not part of this model.
- The `log2` cost assignments (planner.c:572, 613, 621) and the parallel-safety flags: floating point and cost bookkeeping, not eligibility.
- Buffers and the visibility map of the skip scan. `datumCopy` and `pfree` become a count of live copies, checked against the copy the state owns; a memory context is only present or absent.
- `index_beginscan`, `index_rescan` and `ExecProcNode`: replaced by the abstract cursor `SkipScanIndex.Fetch`, which restarts from the beginning on every call.
- SkipScanExec.PopulateSkipQual: carries no contract of its own; what it does is stated by `SkipScanExec.PopulatedKeyMeaning`.
- SkipScanRun.RunYieldsEachDistinctValueOnce: requires an index delivered in order (values monotone in scan order, NULLs grouped at one end), which a B-tree scan in either direction gives, and a skip comparator that moves the way the scan does, which the corrected `SkipScanPlanner.StrategyFor` gives and the as-written choice does not on a backward scan (see Findings).
- SkipScanPlanner.CreateSkipScanPath: like the source (planner.c:671-677), it takes the distinct column to be the index's leading column and never compares the Unique's pathkeys with the index columns; the run theorem is likewise about the leading column only, so a Unique over a different column is not modelled.
- `ts_with_clause_deserialize_int32` and `deserialize_name` are thin wrappers over library parsing. A table entry with an outside parser is the `External` deserializer, whose string error becomes `ParseFailed`.
- WithClause.CaseEq: `pg_strcasecmp` folds only ASCII letters here; its locale folding of high-bit characters and NUL-terminated comparison are not modelled.
- WithClause.Apply: the namespace is assumed to match, as the source asserts; when the callback returns false, its change to the state is dropped along with the error.
- The send-function branch of `ts_partialize`: the binary send function is a parameter of `Partialize.PartializeCall`.
- Partialize.Visit: `get_func_name` returning NULL for an unknown function is not modelled; a function is identified by its name.
- Partialize.Walk: the walker never aborts a walk by returning true, so the `expression_tree_walker` abort path does not arise.
- SkipScanPlanner.ContainsRuntimeKeys: reads each clause's own two operands. The source reads them with `get_leftop`/`get_rightop`, which assume an `OpExpr` layout, so for a `RowCompareExpr` or a `ScalarArrayOpExpr` it inspects fields that are not those operands; that misreading is not modelled. A unary operator expression or a NULL operand is not modelled either.
- SkipScanPlanner.Decide: the assertion that the number of distinct columns is at most the index's key columns is a precondition.
- TimeBucket.Bucket: requires the minimum to be negative and at most the timestamp, as the minimum of a signed type always is.
- TestJobs: a NULL job name or job function passed to add is not modelled.
- src/guc.c, src/guc.h: configuration registration.
- test/src/bgw/scheduler_mock.c: Jsonb library calls and background-worker start and wait.
- src/loader/bgw_interface.c, src/loader/bgw_launcher.h: IPC and worker wrappers.
- src/export.h, test/src/symbol_conflict.c: macros and linkage only.
- test/src/telemetry/*: thin wrappers.
- tsl/src/bgw_policy/scheduled_index_api.h: declarations only.

## Findings

| source | as written | input that shows it | evidently intended | confidence | as-written member | corrected member |
|---|---|---|---|---|---|---|
| test/src/bgw/test_jobs.c:46-52 | `add` advances `next_job_id` first, then stores the job at the advanced index and returns it | adding to the initial registry returns 5. `get(5)` fails with "Invalid test job id" and slot 4 stays NULL, so `get_by_name` stops there. With `next_job_id = 127`, it writes index 128 of 128-element arrays | store at the free id `job_id`, then return it | high; not executed | TestJobs.AddAsWritten, TestJobs.AddAsWrittenLosesJob, TestJobs.FirstAddAsWritten | TestJobs.Add, TestJobs.AddThenGet |
| tsl/src/nodes/skip_skan/exec.c:455-457 | rescan sets the previous value to NULL without freeing the copy it held | a by-reference column, a rescan after a non-NULL value was returned | release the copy first, as `update_skip_key` does before overwriting (exec.c:336-337) | low (one copy leaks per rescan until the context it was made in is reset; as written there is no such context, see the next row); not executed | SkipScanExec.Rescan, SkipScanExec.RescanStrandsCopy | SkipScanExec.RescanReleasing |
| tsl/src/nodes/skip_skan/exec.c:339-350 | `update_skip_key` switches to `state->ctx` and copies the value there, but that field (skip_skan.h:27) is never assigned: `ts_skip_skan_state_create` zero-fills the node with `newNode` (exec.c:468-482) and `skip_skan_begin` (exec.c:37-93) does not set it | a skip scan over a by-reference distinct column such as `text`: its first non-NULL row is copied by `datumCopy` with no current memory context | set `state->ctx` at begin to the context the node is begun in | medium; not executed | SkipScanExec.BeginAsWritten | SkipScanExec.Begin, SkipScanExec.UpdateSkipKey |
| tsl/src/nodes/skip_skan/planner.c:701 | the skip comparator is chosen from the column's sort order alone, `<` on a reverse-sorted column and `>` otherwise, whatever direction the index path scans in | an ascending index over 1, 2, 3 scanned backward, as for `SELECT DISTINCT x ... ORDER BY x DESC`: the first call returns 3, the next asks for `x > 3`, which the backward scan never meets, the NULL probe finds nothing, and 2 and 1 are never returned | reverse the comparator on a backward scan, so that it moves the way the scan does | medium; not executed | SkipScanPlanner.StrategyAsWritten, SkipScanRun.BackwardScanStopsEarly | SkipScanPlanner.StrategyFor, SkipScanRun.RunYieldsEachDistinctValueOnce |
