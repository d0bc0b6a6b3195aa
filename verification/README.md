# Verified model of the DripSQL engine

DripSQL is a columnar SQL engine. Its fast paths have to agree with simple
definitions, and a small protocol of log, manifest and recovery has to survive
crashes. This project models both in Dafny and proves the agreement, module by
module:

- **Ordering and top-K**: `Sorting`, `SortOrder`, `KeyScan`, `PagePruning`,
  `TopKHeap`, `TopKOffers`, `TopKRuns`, `TopKSparse`, `TopKScan`, `SortOp`. The reference is sorting all rows by key,
  null rank and arrival and taking a slice.
- **Joins**: `JoinKeys`, `NestedLoops`, `HashJoin`. The reference is the nested-loop join.
- **Commit, recovery, snapshots**: `TxnGroups`, `CommitProtocol`, `CrashSafety`,
  `CrossTables`, `WalFile`, `TornIntents`, `SegmentNames`, `Manifest`,
  `TimeTravel`, `SegmentReuse`. Files are byte sequences or record lists;
  a crash may happen between any two steps and may lose any unsynced suffix of
  the log. The references are the before-view and after-view of a transaction,
  the longest complete prefix of a log, and the fold of a record list.
- **Selections, LIMIT, window ranks**: `BitWords`, `Selection`,
  `LimitOperator`, `Window`. The references are lists of booleans, a slice of the visible rows,
  and counts over a partition.
- **Predicates**: `Predicates`, `PageStatistics`, `Kernels`, `Lowering`, `EncodedEval`. Storage predicates are
  two-valued masks, WHERE is three-valued; the references are row-by-row truth
  and decode-then-compare.
- **Codecs**: `Bitpack`, `IntPages`, `IntCodecs`, `DeltaCodec`, `SmallCodecs`,
  `Pcodec`, `TextCodecs`, `DecodeExact`, `Fsst`, `FsstTraining`, `Cascade`. The
  references are the page itself (round trips, and what the decoders refuse) and
  the shortest candidate.
- **Segment files**: `Footer`, `FooterWire`, `Validity`, `Directory`,
  `SegmentFile`, `SegmentValues`. The references are the columns, pages and
  values that were written.

`Options` and `Bytes` hold what several modules share. Code that changes state
step by step is modelled as classes and methods with loops, each tied by its
contract to a function; the properties are lemmas about those functions and
about runs.

## Where the code does not meet the simple statement

Each of these is stated as an exact condition, with a lemma that exhibits the
failing case where the condition itself does not already show it.

1. The late top-K scan compares an all-valid page without looking at null flags,
   although a null row of an earlier segment may already be kept with key 0
   (`TopKScan.NullIsEmitted`). `TopKScan.BuildTopK` is right exactly when the
   array drops no row of the answer; `TopKScan.KeysDecide` and
   `TopKScan.KeysDecideExactly` say from the keys of the table when that is.
2. The arrival counter of the top-K paths is 32 bits wide and wraps
   (`SortOrder.WrappedSeqNoBreaksTies`).
3. The planner hands LIMIT and OFFSET to the sort operator and puts no limit
   above it, but the operator takes K = 0 for no limit: ORDER BY with LIMIT 0
   emits every row (`SortOp.LimitZeroEmitsAll`). The integer path also emits every
   row when K+Offset does not fit 31 bits (`SortOp.LimitHonoured`).
4. Recovery recognises a commit by its added paths only, so a transaction that
   only updates deletion vectors is undone after it was published
   (`CrashSafety.RecoverySafeIff`, `CrashSafety.DeleteLosesItsVector`).
5. A log cut inside the padding of its last frame is left unaligned, and the next
   record appended is lost by the next replay (`WalFile.AppendAfterTear`); when
   that record is an intent, its staged files stay behind
   (`TornIntents.IntentAfterTear`). A log cut inside its header page is not given
   a header again (`WalFile.TornHeaderSpoilsNextOpen`).
6. A transaction over several tables is not atomic. Each table's commit record
   clears the whole transaction and is durable before the next table's intent, so
   recovery never sees the intents together and never rolls forward: a crash
   between the first and the last manifest record leaves some tables committed
   (`CrossTables.CrossTableAtomicIff`, `CrossTables.HalfCommitted`). When the table under way had a DELETE
   alone, its published vector is lost too (`CrossTables.CrossTableOutcome`).
7. A lowered `<>`, NOT, NOT IN or NOT BETWEEN is a mask complement, so it selects
   null rows that WHERE does not: `Lowering.ComparisonExactIff`,
   `Lowering.NotExactIff`, `Lowering.NotComparisonExactIff`,
   `Lowering.NotInExactIff` and `Lowering.NotBetweenExactIff` give the condition
   on the column value, `Lowering.ConjunctDecides` lifts it to the whole WHERE
   and `Lowering.NullRowPasses` exhibits it; `Lowering.SplitKeepsDefiniteRows`
   says what always holds.
8. A reopened table counts its segments from its current view. When the newest
   segment was retired before, its number is handed out again, and a snapshot
   older than the retirement names the new file
   (`SegmentReuse.ReopenIsAheadIff`, `SegmentReuse.OldSnapshotNamesNewFile`).
9. The segment writer does not check the 31-bit limits its reader puts on footer
   and sidecar (`SegmentFile.OpensIff`).

Two limits look like failures and are none. The chunk count of the chunked codec
is stored in 16 bits (`Pcodec.RoundTripIff`), but a page is one batch and has two
chunks at most (`Pcodec.BatchRoundTrip`). The less/greater evaluation on
frame-of-reference bytes compares a wrapped difference as a signed number
(`EncodedEval.ForPageExactIff`), but a limit that wraps is outside the page, so
the page statistics have decided it before (`EncodedEval.WrappedLimitIsDecided`):
the scan is exact (`EncodedEval.ScanForPage`).

Where documentation and code disagree the model follows the code: the comment at
internal/storage/wal.go:257 says an intent is logged before any segment file
lands, while inserts and updates stage their files first; README.md:16 and the
comments at internal/engine/wal.go:32-35 and internal/engine/tx.go:199-202 promise
an atomic commit over several tables, which item 6 refutes.

## Model

| member | source | states |
|---|---|---|
| `SortOrder.CmpIsTotalOrder` | internal/exec/sort.go:674-706 | the sort comparator is a total order in both directions: nulls first ascending and last descending, then the key, then arrival; the two-key comparator agrees with it exactly where no side is null |
| `SortOrder.StampedIsNumbered` | internal/exec/topk_scan.go:114-229 | for up to 2^32 rows the uint32 sequence number is the arrival position, so no two rows tie |
| `SortOrder.WrappedSeqNoBreaksTies` | internal/exec/topk_scan.go:119-141 | past 2^32 rows the counter wraps: a later row with the same key is ranked before an earlier one |
| `PagePruning.CollectRefs` | internal/storage/scan.go:150-187 | a page list is built exactly when no segment has a deletion vector and every page is all-valid and non-empty; the total is its row count |
| `PagePruning.SearchBound` | internal/storage/scan.go:213-221 | the binary search splits the sorted bounds at the first one past the page |
| `PagePruning.CumulativeRows` | internal/storage/scan.go:201-210 | every prefix sum (suffix sum when descending) is the row count of that part of the sorted list |
| `PagePruning.CumulativeIsDominating` | internal/storage/scan.go:190-221 | the cumulative count read at the search position is the number of rows on pages that dominate the page |
| `PagePruning.MarkPages` | internal/storage/scan.go:211-231 | a page is kept exactly when fewer than K+Offset rows dominate it, and pruning is reported exactly when some page is not kept |
| `PagePruning.SelectTopKPages` | internal/storage/scan.go:141-232 | a selection is returned exactly when K and Offset are sane, the statistics allow a decision and some page is ruled out; it keeps exactly the pages that fewer than K+Offset rows dominate |
| `PagePruning.PrunedRowHasEnoughBefore` | internal/storage/scan.go:190-227 | every row of a pruned page has at least K+Offset rows before it in the full order, ties included |
| `PagePruning.PruningIsExact` | internal/storage/scan.go:141-232 | the first K+Offset rows of the selected pages are the first K+Offset rows of the table, in the same order |
| `KeyScan.MaskedScan` | internal/exec/topk_scan.go:118-131 | scanning with a page selection yields exactly the rows of the full scan that lie on selected pages, in scan order |
| `KeyScan.TableRowsAre` | internal/exec/topk_scan.go:114-131 | the rows delivered are exactly the cells whose bit, counted from the start of the segment, is set in the deletion vector, or all without one; by segment, page and row, each once |
| `TopKHeap.InsertBounded` | internal/exec/topk_scan.go:142-164 | the in-place binary insertion leaves the array as the bounded insertion of the row at the first slot its comparator allows |
| `TopKHeap.KeepRowIsInsert` | internal/exec/topk_scan.go:190-212 | on sorted rows, where the comparator in use agrees with the sort order, the bounded insertion is the sorted insertion cut at the capacity |
| `TopKHeap.FastStepExact` | internal/exec/topk_scan.go:137-164 | the comparator that ignores nulls keeps the right rows of a full array exactly when the last kept row is not null or the new key is on the right side of zero |
| `TopKHeap.TopKRowHeap.SiftUp` | internal/exec/topk_scan.go:352-362 | sifting up restores the heap and keeps the rows |
| `TopKHeap.TopKRowHeap.SiftDown` | internal/exec/topk_scan.go:364-382 | sifting down restores the heap and keeps the rows |
| `TopKHeap.TopKRowHeap.Offer` | internal/exec/topk_scan.go:213-221 | a row joins while there is room, replaces the root exactly when it ranks before it, and is otherwise dropped; the heap stays a heap |
| `TopKHeap.FullHeapRoot` | internal/exec/topk_scan.go:343-350 | the root of a full heap is the last of the best rows |
| `TopKHeap.HeapStep` | internal/exec/topk_scan.go:213-221 | one offer takes the best n rows seen so far to the best n rows including the new one |
| `TopKOffers.KeptRowsAreTopN` | internal/exec/topk_scan.go:114-212 | while every fast-path row behind a null has a key on the right side of zero, the array holds the first min(capacity, n) rows in sorted order |
| `TopKOffers.KeptOrDropped` | internal/exec/topk_scan.go:137-212 | every row offered is either kept or dropped, once, and nothing is dropped before the array is full |
| `TopKOffers.TopNIff` | internal/exec/topk_scan.go:89-101 | a row is among the first n exactly when fewer than n rows come before it |
| `TopKOffers.KeptExact` | internal/exec/topk_scan.go:114-212 | for every stream of rows and page kinds, the array ends with the first min(capacity, n) rows if and only if each row it dropped has at least capacity rows before it |
| `TopKOffers.FewRowsLoseNothing` | internal/exec/topk_scan.go:151-170 | as long as everything fits, nothing is lost, nulls or not |
| `TopKRuns.DescRunExact` | internal/exec/topk_scan.go:137-164 | slow pages, then fast ones, array full: descending, the result is right if and only if every row up to zero that arrives before the nulls in the array have been pushed out has at least capacity rows before it in the end |
| `TopKRuns.AscRunExact` | internal/exec/topk_scan.go:137-164 | the same ascending, with no negative key kept so far: right if and only if the array holds no null, or its nulls and the negative keys still to come fit it together |
| `TopKRuns.KeptNulls` | internal/exec/topk_scan.go:114-212 | how many nulls the array holds after safe rows, counted on the rows alone: those that fit it ascending, those left over by the values descending |
| `TopKRuns.DescRows` | internal/exec/topk_scan.go:114-212 | the descending condition read off the offered rows |
| `TopKRuns.AscRows` | internal/exec/topk_scan.go:114-212 | the ascending condition read off the offered rows |
| `TopKSparse.SparseLosesNothing` | internal/exec/topk_scan.go:114-212 | for every mixture of slow and fast pages, array full or not: ascending with at most capacity nulls and negative keys together, or descending with at least capacity positive keys, nothing is lost |
| `TopKSparse.OneTooMany` | internal/exec/topk_scan.go:137-164 | with more nulls and negative keys than that it can fail: a null that belongs to the answer is dropped |
| `TopKSparse.FrontCountIs` | internal/exec/topk_scan.go:137-164 | what is counted there: descending the positive keys, ascending the nulls and the negative keys |
| `TopKScan.TopKBuffer.Contents` | internal/exec/topk_scan.go:225-229 | the contents are the first min(capacity, n) rows of everything offered: always for the heap, and for the array if and only if it lost none of them |
| `TopKScan.SortedContents` | internal/exec/topk_scan.go:89-91 | sorting any collection of those rows gives exactly the top rows in order |
| `TopKScan.Collect` | internal/exec/topk_scan.go:114-229 | every live row of a selected page is offered once, in scan order, with the comparator its page allows |
| `TopKScan.PrunedScanIsFastPathSafe` | internal/exec/topk_scan.go:127-175 | on a pruned scan every row goes through the fast comparator and none is null, so it is exact |
| `TopKScan.BuildTopK` | internal/exec/topk_scan.go:80-112 | for up to 2^32 rows, the emitted rows are rows Offset to Offset+K of the fully sorted table, ties included, if and only if the capacity exceeds 256 or the array dropped no row that belongs to the first K+Offset; in terms of the rows of the table: always when they are few, safe for the fast comparator or sparse around zero, exactly under the key conditions when slow pages come before fast ones, and always when no all-valid segment without deletion vector follows a null; every emitted row is a row of the table that is not deleted |
| `TopKScan.KeysDecide` | internal/exec/topk_scan.go:80-229 | few rows, fast-path keys on the right side of zero, or few nulls and negative keys (many positive keys, descending): then no row of the answer is dropped |
| `TopKScan.KeysDecideExactly` | internal/exec/topk_scan.go:80-229 | a table whose fast pages come last: right if and only if, descending, no row the nulls block is among the first K+Offset, or, ascending, the nulls and later negative keys fit the array |
| `TopKScan.NullsLastIsSafe` | internal/exec/topk_scan.go:114-175 | when every segment after a segment with a null has a deletion vector or a null of its own, the array loses nothing, whatever the keys |
| `TopKScan.EmittedExact` | internal/exec/topk_scan.go:93-101 | the rows cut out of the sorted contents are right exactly when the contents are, since a wrong row ranks last and K is positive |
| `TopKScan.NullIsEmitted` | internal/exec/topk_scan.go:80-175 | on a table with a null in one segment and -5 in the next, ORDER BY key DESC LIMIT 1 emits the null row, while the sorted table starts with the value |
| `SortOp.SortIndices` | internal/exec/sort.go:292-342 | the sorted index list is a permutation of all rows in comparator order |
| `SortOp.PermutationIsSort` | internal/exec/sort.go:292-300 | such a permutation lists the rows exactly as sorting them with their arrival positions does |
| `SortOp.SelectedRowsAre` | internal/exec/sort.go:238-260 | the rows sorted are exactly the selected rows of the batches, by batch and row, each once |
| `SortOp.StreamTopK` | internal/exec/sort.go:476-563 | the streaming top-K over batches emits rows Offset to Offset+K of the sorted selected rows |
| `SortOp.BuildSort` | internal/exec/sort.go:238-300 | whatever path is taken, the emitted rows are the sorted selected rows, sliced as the path slices them |
| `SortOp.LimitHonoured` | internal/exec/sort.go:136-156 | for every K and Offset from LIMIT and OFFSET the operator emits the requested slice if and only if K is positive and K+Offset fits 31 bits, or there are no rows, or nothing would be cut |
| `SortOp.LimitZeroEmitsAll` | internal/exec/sort.go:136-156 | ORDER BY with LIMIT 0 emits every selected row, while the slice asked for is empty |
| `JoinKeys.EncodeRow` | internal/exec/hashjoin.go:312-374 | the key bytes are built column by column, and a null key gives no bytes |
| `JoinKeys.EncodeAllInjective` | internal/exec/hashjoin.go:312-374 | no two non-null, non-float key tuples have the same bytes |
| `JoinKeys.EncodeExact` | internal/exec/hashjoin.go:312-374 | two rows have equal key bytes exactly when they join: same keys, no null among them |
| `HashJoin.AddRef` | internal/exec/hashjoin.go:224-234 | adding a reference extends the list of its key and leaves every other key alone, for any hash values |
| `HashJoin.LookupRefs` | internal/exec/hashjoin.go:236-244 | a lookup finds the references of the key itself, whatever shares its hash |
| `HashJoin.BuildIndex` | internal/exec/hashjoin.go:153-196 | for any hash function the index holds, per key, the selected right rows with that key in order |
| `HashJoin.HashJoinOp.CollectRow` | internal/exec/hashjoin.go:246-282 | one left row adds its matches in right order, or itself alone when the join keeps it, and marks the right rows it matched |
| `HashJoin.HashJoinOp.CollectRows` | internal/exec/hashjoin.go:246-282 | a left batch adds its part of the nested-loop output and no more |
| `HashJoin.MatchedRefs` | internal/exec/hashjoin.go:246-282 | a right row is listed as a match exactly when its key equals the left key |
| `HashJoin.MasksStep` | internal/exec/hashjoin.go:274-279 | a right row is marked exactly when some left row so far matched it |
| `HashJoin.HashJoinOp.EmitChunk` | internal/exec/hashjoin.go:376-389 | a chunk has at most one batch of rows and is the next part of the output |
| `HashJoin.HashJoinOp.DrainUnmatchedRight` | internal/exec/hashjoin.go:391-424 | draining emits chunk by chunk; when it ends the emitted rows are the nested-loop join |
| `HashJoin.HashJoinOp.Next` | internal/exec/hashjoin.go:111-151 | each call emits the next chunk; the operator ends exactly with the nested-loop join emitted |
| `HashJoin.RunJoin` | internal/exec/hashjoin.go:111-151 | for inner, left, right and full joins, any hash function and any batch split, the concatenated chunks hold each pair of selected rows with equal keys free of nulls once, each left row without partner once for LEFT and FULL joins, each right row without partner once for RIGHT and FULL joins, and nothing else, ordered by left row, then right row, right rows alone last |
| `NestedLoops.NestedLoopIsJoin` | internal/exec/hashjoin.go:246-310 | the nested-loop join the operator is compared with is that list, said on the batches, their selections and their keys |
| `NestedLoops.JoinIsUnique` | internal/exec/hashjoin.go:111-151 | and only one list of rows is |
| `TxnGroups.PendingIsAfterLastCommit` | internal/storage/wal.go:382-413 | the pending intents of a transaction are exactly those after its last commit record |
| `TxnGroups.FirstSeenIsDistinct` | internal/storage/wal.go:382-413 | transactions are listed once each, in the order of their first intent |
| `TxnGroups.GroupsArePending` | internal/storage/wal.go:382-413 | the groups are the non-empty pending lists of those transactions |
| `TxnGroups.PendingTxnGroups` | internal/storage/wal.go:382-413 | the map-and-order walk returns those groups, or fails on a record it cannot decode |
| `TxnGroups.PendingTxns` | internal/storage/wal.go:346-377 | the flat form is the concatenation of the groups |
| `CommitProtocol.Engine.CommitManifestTxnAs` | internal/engine/wal.go:125-154 | a commit performs intent, manifest record and commit record in this order and nothing else |
| `CommitProtocol.Engine.CommitManifestTxn` | internal/engine/wal.go:112-123 | a commit under a fresh transaction id and timestamp, followed by the truncation of the log |
| `CommitProtocol.FindAdd` | internal/engine/wal.go:48-66 | resolving the manifest and searching the result answers exactly whether its view shows an added path |
| `CommitProtocol.Engine.RecoverTxnGroup` | internal/engine/wal.go:36-102 | a group with a committed intent is finished, any other has its files removed, and each is marked resolved |
| `CommitProtocol.Engine.OpenWAL` | internal/engine/wal.go:14-30 | opening recovers group after group, each judged by the manifests as the groups before it left them |
| `CrashSafety.CommitPublishes` | internal/engine/wal.go:112-154 | an uninterrupted transaction publishes its record, keeps every file and leaves an empty log |
| `CrashSafety.NextKeeps` | internal/engine/wal.go:14-154 | every step of staging, commit, crash and recovery keeps the protocol invariant |
| `CrashSafety.RunKeeps` | internal/engine/wal.go:14-154 | the invariant holds in every state of every run |
| `CrashSafety.NamedFilesSurvive` | internal/engine/wal.go:85-96 | in every state of every run each file the manifests name exists |
| `CrashSafety.AllOrNothing` | internal/engine/wal.go:36-154 | in every run of single-table transactions with at least one add, after any crashes the manifests show the before-view or the after-view, an after-view has all its files, and once recovery is over a transaction that took the step that makes its intent durable and did not commit has left no file behind |
| `CrashSafety.ACrash` | internal/engine/wal.go:112-154 | a run of that kind: a segment and a deletion vector are staged, the intent is synced, the manifest record written, and the process dies |
| `CrossTables.CrossTableOutcome` | internal/engine/tx.go:191-220 | a transaction over several tables, crashed after any step of its commit: recovery leaves exactly the tables whose manifest records were written and never finds more than one intent pending, so it never rolls forward; every file the manifests name is still there, unless the table under way had published deletion vectors alone and its commit record was lost |
| `CrossTables.CrossTableAtomicIff` | internal/engine/tx.go:191-220 | such a transaction is all or nothing if and only if the crash does not fall between its first and its last manifest record |
| `CrossTables.HalfCommitted` | internal/engine/tx.go:191-220 | two tables, cut after the commit record of the first: recovery leaves the first with its part and the second without |
| `TornIntents.IntentAfterTear` | internal/storage/wal.go:121-172 | an intent made durable on a log an earlier crash had torn, then a second crash: recovery removes its staged files if and only if the first cut had left whole pages |
| `CrashSafety.RecoveryIsIdempotent` | internal/engine/wal.go:36-102 | recovery interrupted after any step, losing any unsynced records, and run again leaves the same manifests and files |
| `CrashSafety.RecoverySafeIff` | internal/engine/wal.go:48-88 | a crash after the manifest record: recovery keeps every file the manifests name if and only if the intent has adds or no deletion-vector updates |
| `CrashSafety.DeleteLosesItsVector` | internal/engine/wal.go:48-88 | a crash after publishing a deletion vector alone: recovery removes the published vector file |
| `WalFile.ReadFrameExact` | internal/storage/wal.go:176-206 | a frame reads as a record exactly when the bytes at its position are the raw bytes of that record |
| `WalFile.CompleteIsLongest` | internal/storage/wal.go:121-172 | the kept prefix is the longest whose frames end inside the file |
| `WalFile.ParsePrefix` | internal/storage/wal.go:153-171 | from any byte prefix, frame by frame, parsing gives the longest complete prefix and its padded end |
| `WalFile.WAL.Append` | internal/storage/wal.go:93-119 | an append adds one padded frame and returns its position, or refuses an oversized payload and changes nothing |
| `WalFile.WAL.Replay` | internal/storage/wal.go:121-172 | replay returns the parsed records and cuts the file after the last complete frame |
| `WalFile.WAL.TruncateToHeader` | internal/storage/wal.go:235-249 | only the header page is left |
| `WalFile.TornLogReplays` | internal/storage/wal.go:121-172 | every byte prefix of a log with an intact header replays to the longest prefix of complete records |
| `WalFile.WholeLogReplays` | internal/storage/wal.go:121-172 | an uncut log replays to all its records and stays as it is |
| `WalFile.NoOverlap` | internal/storage/wal.go:17-31 | a frame never reads as itself at a shifted position |
| `WalFile.AppendAfterTear` | internal/storage/wal.go:93-172 | after a tear the next appended record is replayed if and only if the file was left page-aligned, which is when the cut was not inside padding |
| `WalFile.TornHeaderSpoilsNextOpen` | internal/storage/wal.go:121-151 | a log whose header page was cut short opens, but the next record is written over the header and the following open fails |
| `Manifest.AddSlot` | internal/storage/manifest.go:237-252 | adding a path makes its new entry the current one, and an entry without path is never listed |
| `Manifest.SetSlotDV` | internal/storage/manifest.go:253-260 | patching a deletion vector through the index patches the current entry of the path alone |
| `Manifest.RemoveSlot` | internal/storage/manifest.go:261-268 | blanking a slot and dropping it from the index takes the current entry of the path out of the view |
| `Manifest.ApplyRecord` | internal/storage/manifest.go:230-269 | one record changes the indexed slots as its adds, updates and removals change the view |
| `Manifest.Resolve` | internal/storage/manifest.go:227-278 | for every record list, version and timestamp, the indexed, compacted slots are the fold of the visible records; nothing is visible from the first later version on |
| `Manifest.CurrentIsLatest` | internal/storage/manifest.go:227-278 | whatever the records, each path has at most one current entry, has one exactly while it is live, and that entry carries its latest deletion vector |
| `Manifest.ViewIsLatest` | internal/storage/manifest.go:227-278 | where no path is added while in view, a path is visible exactly when added and not removed since, once, and carries its latest deletion vector at or before the timestamp |
| `Manifest.EntryHasOrigin` | internal/storage/manifest.go:227-278 | every entry of a view carries the version, the timestamp and the row count of a record in force that adds its path, and the deletion vector and time of one that gives it, or none |
| `Manifest.AddedTwice` | internal/storage/manifest.go:237-268 | a path added while in view: its first entry stays listed, misses later deletion vectors and outlives the removal |
| `SegmentNames.PathGivesId` | internal/engine/db.go:221-236 | the number a segment file is named with is the number read back from its path |
| `SegmentNames.NameHasSixDigits` | internal/engine/db.go:231-236 | a file name has six digits, padded with zeros, and more without padding from a million on |
| `TimeTravel.ManifestFile.Load` | internal/storage/manifest.go:287-314 | loading keeps the records before the first line that does not decode |
| `TimeTravel.ManifestFile.Commit` | internal/storage/manifest.go:133-138 | an empty commit writes nothing; any other appends one record with the next version |
| `TimeTravel.ManifestFile.Retire` | internal/storage/manifest.go:280-285 | retiring appends one record that removes the paths |
| `TimeTravel.ManifestFile.SnapshotAt` | internal/storage/manifest.go:200-204 | a snapshot is the fold of the records up to the timestamp |
| `TimeTravel.ManifestFile.At` | internal/storage/manifest.go:190-195 | a version view is the fold of the records up to that version |
| `TimeTravel.ManifestFile.MaxCommitTs` | internal/storage/manifest.go:208-218 | the largest recorded timestamp, or zero |
| `TimeTravel.ManifestFile.NextSegmentId` | internal/engine/db.go:212-218 | a reopened table counts its segments from one past the largest number in its current view |
| `TimeTravel.VersionIsStable` | internal/storage/manifest.go:190-195 | no later record changes the view of a recorded version |
| `TimeTravel.StepKeepsSound` | internal/engine/db.go:147-236 | drawing segment numbers, commits, retirements and reopens keep the commit counter at or above every recorded timestamp, timestamps in order, every number in view below the segment counter and not drawn, and no path added while in view |
| `TimeTravel.EveryViewIsLatest` | internal/storage/manifest.go:190-278 | in every state of every run, for every table, version and timestamp: no path was added while in view, and the view lists the live segments, each once, with its latest deletion vector |
| `TimeTravel.SnapshotsAreStable` | internal/storage/manifest.go:200-278 | in every run, for every timestamp not above a recorded one, the snapshot never changes afterwards |
| `TimeTravel.ReadTwice` | internal/storage/manifest.go:200-204 | two manifest objects of one table, opened at different moments of a run, return the same entries for such a timestamp |
| `SegmentReuse.StepKeepsAhead` | internal/engine/db.go:231-236 | drawing, committing and retiring keep the segment counter past every number the history of the table has used |
| `SegmentReuse.ReopenIsAheadIff` | internal/engine/db.go:212-218 | a reopen keeps it so if and only if no number above all live ones was ever used |
| `SegmentReuse.NumbersAreNew` | internal/engine/db.go:195-236 | in every run whose reopens find that, every number handed out is new to the whole history, retired segments included |
| `SegmentReuse.UsedNumberReturns` | internal/engine/db.go:212-236 | otherwise drawing on reaches a number the history has used |
| `SegmentReuse.DrawsAdvance` | internal/engine/db.go:231-236 | the tables those draws pass through are successive states of a run |
| `SegmentReuse.OldSnapshotNamesNewFile` | internal/engine/compact.go:168-224 | a run: a segment is added, retired, the database reopened and another segment added; the old snapshot and the current view list the same path |
| `Selection.SelectionMask.AndCount` | internal/vector/selection.go:160-168 | the intersection, its size, and the all-set flag true exactly for a full mask |
| `Selection.SelectionMask.OrCount` | internal/vector/selection.go:171-179 | the union, its size, and the all-set flag |
| `Selection.SelectionMask.NotCount` | internal/vector/selection.go:181-195 | the complement within the rows, with no stray tail bits |
| `Selection.SelectionMask.SetRange` | internal/vector/selection.go:75-102 | exactly the rows of the clipped range are added, whichever words it spans |
| `Selection.SelectionMask.FillAll` | internal/vector/selection.go:43-56 | every row and no bit beyond them |
| `Selection.SelectionMask.IterSet` | internal/vector/selection.go:144-157 | the selected rows in ascending order, each once |
| `Selection.SelectionMask.Limit` | internal/vector/selection.go:113-130 | the rows whose rank is in the window, with the counts of rows kept and passed over |
| `Selection.RankOf` | internal/vector/selection.go:144-157 | the row listed k-th has k selected rows before it |
| `Selection.WindowIsKept` | internal/vector/selection.go:113-130 | keeping the k-th listed rows of a window is keeping the rows of those ranks |
| `LimitOperator.LimitOp.LimitAllRows` | internal/exec/limit.go:77-102 | the range taken of a fully visible batch is its part of the window |
| `LimitOperator.LimitOp.LimitSelectedRows` | internal/exec/limit.go:104-111 | the rows taken of a partly selected batch are its part of the window, with the counts |
| `LimitOperator.LimitOp.Next` | internal/exec/limit.go:36-75 | each call emits the next non-empty part of what is left, and ends when nothing is |
| `LimitOperator.WindowConcat` | internal/exec/limit.go:36-75 | the window of two batches is the window of the first and the rest of the window of the second |
| `LimitOperator.Drain` | internal/exec/limit.go:36-111 | over any batch sequence LIMIT/OFFSET emits exactly the visible rows Offset to Offset+N |
| `Window.SortRanks` | internal/exec/window.go:129-138 | the sorted permutation orders rows by partition, then order key, then arrival |
| `Window.RowNumberIs` | internal/exec/window.go:140-148 | the rows from the partition start to a position are the rows of its partition before it |
| `Window.RankIs` | internal/exec/window.go:149-162 | the rows before the peer start are the rows of the partition with a smaller key |
| `Window.DenseRankIs` | internal/exec/window.go:163-172 | the counter of peer groups is one more than the number of smaller keys |
| `Window.ComputeRankLike` | internal/exec/window.go:128-177 | after sort and scatter every row holds its row number, rank or dense rank as defined on its partition |
| `Window.RowNumbersAreABijection` | internal/exec/window.go:128-177 | within a partition every number from 1 to its size is the row number of some row |
| `Window.RangeFrameBounds` | internal/exec/window.go:299-365 | the bounds enclose exactly the rows whose lead over the current row, in the order of the window, is within the start distance and whose lag is within the end distance; peers count as no distance |
| `Kernels.BuildPassWord` | internal/vector/kernel.go:200-241 | for every operator, bit i of the word is set exactly when row base+i compares as asked |
| `Kernels.FilterOrdered` | internal/vector/kernel.go:80-108 | word by word, the selection keeps exactly its valid rows whose value compares as asked; the count and the all-set flag are exact |
| `Bytes.LexLessIs` | internal/vector/kernel.go:143-161 | one byte string is below another exactly when it is a proper prefix of it or smaller at the first byte in which they differ |
| `Kernels.FilterBytesRow` | internal/vector/kernel.go:143-161 | each operator passes the rows that are below, equal to or above the literal in that order |
| `Kernels.FilterBytes` | internal/vector/kernel.go:110-162 | the same over byte strings, in that order |
| `Kernels.EvalVector` | internal/storage/predicate.go:137-400 | a leaf evaluated by these kernels selects exactly the rows it means, whatever is stored at null rows |
| `Predicates.Eval` | internal/storage/predicate.go:422-498 | the in-place mask of an AND/OR/NOT tree is its two-valued meaning row by row, NOT being the complement |
| `Predicates.TextLeafMeans` | internal/vector/kernel.go:143-161 | a text leaf selects the non-null rows below, equal to or above its literal in the order of byte strings, equality as it says |
| `Predicates.LeafSound` | internal/storage/predicate.go:172-420 | a leaf that prunes selects no row and one that always matches selects every row |
| `Predicates.LeafStatsAreExact` | internal/storage/predicate.go:215-268 | with extremes that occur in the page, order and null leaves prune exactly when no row matches and always match exactly when every row does |
| `Predicates.DecidedChild` | internal/storage/predicate.go:422-628 | one child decided the right way decides an AND or OR, wherever it stands, and one left open leaves it open the other way |
| `Predicates.PruneAndMatchAreSound` | internal/storage/predicate.go:422-628 | for every tree, pruning implies no row is selected and always-matching implies every row is; the two carry each other through NOT |
| `Predicates.SelectPage` | internal/storage/predicate.go:422-628 | deciding a page by statistics first gives the same selection as evaluating it |
| `PageStatistics.WriteStats` | internal/storage/segment_write.go:303-332 | the 16 bytes stored for a page are the extremes of its valid values, whether they come from the page facts or from a scan |
| `PageStatistics.StatsRead` | internal/storage/stats.go:49-86 | the extremes come back from the bytes, for the 32-bit and the 64-bit layout |
| `PageStatistics.WrittenIsDescribed` | internal/storage/predicate.go:112-131 | what a reader sees of a written page describes its column: rows, nulls, and extremes that bound every value |
| `PageStatistics.AllValidIsExact` | internal/storage/predicate.go:112-131 | on a page without nulls the extremes occur in it |
| `PageStatistics.PruningIsSound` | internal/storage/predicate.go:422-628 | for every written page and every predicate tree, pruning drops no selected row and a whole-page match selects every row |
| `PageStatistics.WrittenIsCovered` | internal/storage/scan.go:150-187 | the bounds that the top-K pruning reads cover the values of the page |
| `Lowering.LowerInList` | internal/exec/predicate_pushdown.go:122-154 | the IN list is lowered literal by literal, or not at all |
| `Lowering.IntCompareExact` | internal/exec/predicate_pushdown.go:156-216 | each lowered integer comparison, off-by-one forms at the int64 bounds included, selects the rows for which it is true |
| `Lowering.TextCompareExact` | internal/exec/predicate_pushdown.go:156-216 | each lowered text comparison selects the rows for which it is true, that is, those below, equal to or above the literal in the order of byte strings |
| `Lowering.CompareLowers` | internal/exec/predicate_pushdown.go:156-216 | a comparison of a column with an integer is lowered unless the shifted literal would leave int64, with a text unless it is <>, with anything else never; the literal may stand on either side |
| `Lowering.InLowers` | internal/exec/predicate_pushdown.go:122-154 | an IN list is lowered exactly when it has members and all are integer or text literals |
| `Lowering.SwapCompares` | internal/exec/predicate_pushdown.go:156-216 | a literal on the left is the swapped comparison |
| `Lowering.LowerSound` | internal/exec/predicate_pushdown.go:55-216 | a lowered predicate selects every row for which the expression is true and none for which it is false |
| `Lowering.WhereSplitter.Walk` | internal/exec/predicate_pushdown.go:11-53 | the walk visits the conjuncts from left to right |
| `Lowering.ConjunctsTruth` | internal/exec/predicate_pushdown.go:11-53 | an expression is true exactly when all its conjuncts are, false exactly when one is |
| `Lowering.SplitWhere` | internal/exec/predicate_pushdown.go:11-53 | the pushed predicate is the conjunction of the lowered conjuncts and the residual that of the others |
| `Lowering.SplitKeepsDefiniteRows` | internal/exec/predicate_pushdown.go:11-53 | pushed and residual together keep every row for which WHERE is true and drop every row for which it is false |
| `Lowering.SplitIsExact` | internal/exec/predicate_pushdown.go:11-216 | where the columns of the pushed conjuncts are non-null, pushed and residual hold exactly when WHERE is true |
| `Lowering.PositiveIsExact` | internal/exec/predicate_pushdown.go:55-216 | without NOT, NOT IN or <> the lowered predicate is exact on null rows too |
| `Lowering.ComparisonExactIff` | internal/exec/predicate_pushdown.go:156-216 | a lowered comparison, literal on either side, agrees with WHERE on a row if and only if it is not <> or the value is not null |
| `Lowering.NotExactIff` | internal/exec/predicate_pushdown.go:81-89 | a lowered NOT agrees with WHERE if and only if its operand is decided, or is selected |
| `Lowering.NotComparisonExactIff` | internal/exec/predicate_pushdown.go:81-89 | NOT of a comparison agrees if and only if the value is not null, NOT of <> always |
| `Lowering.NotBetweenExactIff` | internal/exec/predicate_pushdown.go:103-120 | NOT BETWEEN agrees if and only if the value is not null |
| `Lowering.NotInExactIff` | internal/exec/predicate_pushdown.go:122-154 | NOT IN agrees if and only if the value is not null |
| `Lowering.ConjunctDecides` | internal/exec/predicate_pushdown.go:11-53 | when all other conjuncts are true, pushed and residual together decide a row as WHERE does if and only if this conjunct does |
| `Lowering.NullRowPasses` | internal/exec/predicate_pushdown.go:81-89 | on every null row, the pushed NOT of a comparison passes although WHERE is unknown |
| `Lowering.LoweredLiteralFits` | internal/exec/predicate_pushdown.go:156-216 | the shifted literals never leave int64 |
| `Bitpack.Pack` | internal/storage/codec/bitpack.go:28-48 | the words written are the bit planes of the blocks, and nothing else is touched |
| `Bitpack.PackedSizeExact` | internal/storage/codec/bitpack.go:16-25 | the packed size is exactly the bytes used |
| `Bitpack.UnpackGroup` | internal/storage/codec/bitpack.go:108-128 | the transposed loop rebuilds every value of a group |
| `Bitpack.BuildTable` | internal/storage/codec/bitpack.go:73-88 | each table entry spreads the bits of a byte over eight lanes at its plane |
| `Bitpack.GatherLane` | internal/storage/codec/bitpack.go:130-155 | eight values gathered through the table are the values of the generic path |
| `Bitpack.UnpackGroupSmallWidth` | internal/storage/codec/bitpack.go:130-155 | for widths up to eight the table path gives what the generic path gives |
| `Bitpack.Unpack` | internal/storage/codec/bitpack.go:50-69 | unpacking returns the value at every row position |
| `Bitpack.UnpackOfPacked` | internal/storage/codec/bitpack.go:28-69 | for every width and row count, unpacking a packed value gives it modulo 2^width |
| `Bitpack.PackedRoundTrip` | internal/storage/codec/bitpack.go:16-69 | values below 2^width come back unchanged |
| `IntPages.ForParams` | internal/storage/codec/for_bitpack.go:119-143 | base and width are the minimum and the least bits its distances need; none when all values are equal |
| `IntPages.DeltaParams` | internal/storage/codec/delta_bitpack.go:129-155 | the same for the wrapped differences |
| `IntPages.AnalyzeIntPage` | internal/storage/page_facts.go:74-205 | on an all-valid page the one-pass facts are exactly what the scans of the codecs find; with nulls the extremes are those of the present values |
| `IntCodecs.ForEncode` | internal/storage/codec/for_bitpack.go:55-80 | writes the frame-of-reference page, and skips only a page it does not apply to or cannot keep within the limit |
| `IntCodecs.ForDecode` | internal/storage/codec/for_bitpack.go:82-117 | decoding checks the header and the size and adds the base back |
| `IntCodecs.ForRoundTrip` | internal/storage/codec/for_bitpack.go:55-208 | a frame-of-reference page decodes to its values, with subtraction modulo 2^64 |
| `DeltaCodec.Encode` | internal/storage/codec/delta_bitpack.go:54-81 | writes the delta page, and skips only a page it does not apply to or cannot keep within the limit |
| `DeltaCodec.ResidualIsDistance` | internal/storage/codec/delta_bitpack.go:54-81 | the stored residual is the distance of the wrapped difference from the base |
| `DeltaCodec.RoundTrip` | internal/storage/codec/delta_bitpack.go:54-127 | a delta page decodes to its values, even where differences wrap around |
| `SmallCodecs.LoadedOfStored` | internal/storage/codec/plain.go:36-107 | a value read back from the bytes of its kind is the same if and only if it is in the range of the kind |
| `SmallCodecs.PlainRoundTrip` | internal/storage/codec/plain.go:36-107 | a plain page decodes to its values |
| `DecodeExact.PlainExact` | internal/storage/codec/plain.go:71-107 | a plain page is accepted exactly when it is what the encoder writes for the values returned, all of them in the range of the kind |
| `SmallCodecs.ConstantEncode` | internal/storage/codec/constant.go:93-131 | writes one value exactly when all values are equal and it fits the limit |
| `SmallCodecs.ConstantRoundTrip` | internal/storage/codec/constant.go:93-200 | a constant page decodes to its values |
| `DecodeExact.ConstantExact` | internal/storage/codec/constant.go:133-200 | a constant page is accepted exactly when it is what the encoder writes for the values returned |
| `SmallCodecs.SequenceEncode` | internal/storage/codec/sequence.go:42-59 | writes first value and step exactly when all wrapped differences are equal and 16 bytes fit the limit |
| `SmallCodecs.SequenceRoundTrip` | internal/storage/codec/sequence.go:42-90 | a sequence page decodes to its values |
| `DecodeExact.SequenceExact` | internal/storage/codec/sequence.go:61-90 | a sequence page is accepted exactly when it is what the encoder writes for the values returned, or empty for no rows |
| `Pcodec.ChunkFits` | internal/storage/codec/pcodec.go:179-197 | the cap of the width at the storage width never cuts a residual |
| `Pcodec.Encode` | internal/storage/codec/pcodec.go:29-84 | writes the chunked page, and skips only a page too small or over the limit |
| `Pcodec.RoundTripIff` | internal/storage/codec/pcodec.go:29-152 | a chunked page decodes to its values if and only if it has fewer than 2^16 chunks |
| `Pcodec.BatchRoundTrip` | internal/storage/codec/pcodec.go:29-152 | a page of at most one batch has at most two chunks and always decodes to its values |
| `Cascade.EncodeInts` | internal/storage/codec/cascade.go:48-141 | the chosen encoding decodes to the page, for every page a batch can hold, no encoding that applies is shorter, plain included, through shortcut and trial alike, and which it is: constant or sequence when the facts say so, else the last tried of the shortest |
| `Cascade.EncodeDominant` | internal/storage/codec/cascade.go:129-141 | a shortcut taken from the facts always applies and is as short as any candidate |
| `TextCodecs.BuildDict` | internal/storage/codec/dictionary.go:152-179 | the dictionary lists the distinct values in order of first occurrence, or none when there are more than 256 |
| `TextCodecs.AnalyzeDict` | internal/storage/page_facts.go:258-357 | the analyzer builds the same dictionary |
| `TextCodecs.DictRoundTrip` | internal/storage/codec/dictionary.go:26-150 | a dictionary page decodes to its rows |
| `TextCodecs.ConstantRoundTrip` | internal/storage/codec/constant.go:93-200 | a constant text page decodes to its rows |
| `TextCodecs.PlainRoundTrip` | internal/storage/codec/plain.go:122-166 | a plain text page decodes to its rows |
| `DecodeExact.TextPlainExact` | internal/storage/codec/plain.go:132-166 | a plain text page is accepted exactly when it is what the encoder writes for the rows returned: no byte too few, none too many |
| `DecodeExact.TextConstantExact` | internal/storage/codec/constant.go:133-200 | the same for a constant text page |
| `DecodeExact.DictExact` | internal/storage/codec/dictionary.go:67-150 | a dictionary page is accepted exactly when it is 1 to 256 entries followed by one code below their number for each row, and each row is its entry |
| `Fsst.NewCoder` | internal/storage/codec/fsst.go:222-235 | every symbol lands in the bucket of its first byte, longest first |
| `Fsst.FindMatch` | internal/storage/codec/fsst.go:237-262 | the first match in a bucket is the longest symbol the input continues with, however equal lengths are ordered |
| `Fsst.EncodeRow` | internal/storage/codec/fsst.go:237-262 | the loop computes the greedy encoding |
| `Fsst.DecodeRow` | internal/storage/codec/fsst.go:93-169 | the loop computes the decoding, failing on a truncated escape or an unknown code |
| `Fsst.DecodeOfEncode` | internal/storage/codec/fsst.go:93-262 | for at most 255 distinct non-empty symbols decoding inverts the greedy encoding on every byte string |
| `Fsst.EncodeExact` | internal/storage/codec/fsst.go:237-299 | encodings are equal exactly when the strings are |
| `Fsst.PageRoundTrip` | internal/storage/codec/fsst.go:29-169 | a written page decodes to its rows |
| `Fsst.EqOnPage` | internal/storage/predicate.go:680-722 | comparing encoded rows with the encoded literal selects exactly the non-null rows equal to it |
| `FsstTraining.CountSubstrings` | internal/storage/codec/fsst.go:173-188 | the counts are the occurrences of every substring of admissible length in the sample |
| `FsstTraining.RanksIsTotalOrder` | internal/storage/codec/fsst.go:200-205 | the ranking of candidates leaves no ties, so the map order does not matter |
| `FsstTraining.Train` | internal/storage/codec/fsst.go:173-214 | the table holds the 255 best repeated substrings, or all of them, best first: those whose occurrences times the bytes each one saves are most, the smaller byte string first among equals |
| `Cascade.EncodeFsst` | internal/storage/codec/fsst.go:29-91 | a lossless page, skipped exactly when there are no rows or nothing in the sample repeats |
| `Cascade.EncodeText` | internal/storage/codec/cascade.go:48-127 | the chosen encoding decodes to the page and is no longer than plain, constant or dictionary would be; it is the dictionary when that is small, else none of those as short is tried later |
| `Cascade.EncodeDominantDict` | internal/storage/codec/cascade.go:113-127 | the dictionary shortcut always applies and is no longer than plain or constant |
| `EncodedEval.EvalForEq` | internal/storage/predicate.go:840-877 | the equality mask over frame-of-reference residuals, or a refusal of a malformed page |
| `EncodedEval.EvalForRange` | internal/storage/predicate.go:953-1052 | the less/greater masks over residuals, or a refusal of a malformed page |
| `EncodedEval.ForEqIsExact` | internal/storage/predicate.go:840-936 | encoded equality is decoded equality for every target, even where target minus base wraps |
| `EncodedEval.ForRangeExactIff` | internal/storage/predicate.go:953-1052 | encoded less and greater alone are the decoded ones if and only if limit minus base fits int64 |
| `EncodedEval.ForPageExactIff` | internal/storage/predicate.go:821-1052 | the same on the bytes of every page the encoder writes |
| `EncodedEval.WrappedLimitIsDecided` | internal/storage/predicate.go:190-268 | a limit for which it does not fit lies outside the page, so the page statistics prune it or match it whole |
| `EncodedEval.ScanForPage` | internal/storage/scan.go:682-705 | statistics first, then the encoded evaluation: for every int64 target and every frame-of-reference page the encoder writes, the selection is decode-then-compare |
| `EncodedEval.CurrentIsDecoded` | internal/storage/predicate.go:909-924 | the running value of the delta loop is the decoded value, by wrapping addition |
| `EncodedEval.DeltaEqIsExact` | internal/storage/predicate.go:879-924 | encoded equality on a delta page is decoded equality for every target |
| `EncodedEval.ScanDeltaPage` | internal/storage/scan.go:682-705 | statistics first, then the running delta value: for every target and every delta page the encoder writes, an equality selects what decode-then-compare selects |
| `EncodedEval.DictAccept` | internal/storage/predicate.go:768-804 | the accept bits are exactly the codes whose entry satisfies the text leaf |
| `EncodedEval.EvalDictEq` | internal/storage/predicate.go:653-676 | the mask of the rows holding the one code of the literal |
| `EncodedEval.EvalDictOrdered` | internal/storage/predicate.go:735-763 | the mask of the rows whose code is accepted |
| `EncodedEval.DictIsExact` | internal/storage/predicate.go:653-819 | on every dictionary page the masks by code are the masks by value |
| `EncodedEval.ScanDictPage` | internal/storage/predicate.go:653-819 | on every dictionary page the encoder writes, comparing codes selects the rows the text leaf selects on the decoded rows, which are those below, equal to or above the literal in the order of byte strings |
| `FooterWire.EncodeFooter` | internal/storage/segment_write.go:543-576 | the growing buffer ends as the footer of the columns |
| `FooterWire.ParseFooter` | internal/storage/segment_read.go:620-682 | the cursor-driven parser, with its early exits, computes the parse of the footer |
| `Footer.RoundTrip` | internal/storage/segment_read.go:620-682 | parsing the printed footer returns the same columns, pages and page statistics, and no size guard rejects it |
| `Validity.NullCount` | internal/vector/validity.go:47-62 | the number of rows whose bit is clear, whatever the tail bits hold |
| `Validity.MarshalLE` | internal/vector/validity.go:82-89 | the words in order over the front of the buffer, the rest untouched |
| `Validity.UnmarshalValidity` | internal/vector/validity.go:91-117 | reads the words, clears the tail and accepts only the announced null count |
| `Validity.BitmapReadsBack` | internal/vector/validity.go:82-117 | a written bitmap reads back with the same rows valid |
| `Directory.PrepareColumns` | internal/storage/segment_write.go:233-301 | accepts exactly well-shaped input and records row total, null total and marker of every column |
| `Directory.ShapedIs` | internal/storage/segment_write.go:233-270 | well-shaped: some page, some column, rows that fit 32 bits, as many cells in every page, a bit for every row in each null bitmap |
| `Directory.WriteCell` | internal/storage/segment_write.go:454-534 | a page entry describes its rows, nulls, flags and payload; refused exactly when a bitmap has more words than its page |
| `Directory.WritePayloads` | internal/storage/segment_write.go:445-541 | every page lies where its entry says with the bytes of its rows, and all payloads follow each other without gap or overlap |
| `Directory.TilesAreDisjoint` | internal/storage/segment_write.go:445-541 | payloads that follow each other are disjoint and inside the body |
| `Directory.ValidateColumnDirectory` | internal/storage/segment_read.go:337-401 | accepts exactly directories whose pages cover the rows in order with consistent flags, ranges and sums |
| `Directory.EveryRowHasOnePage` | internal/storage/segment_read.go:337-401 | in an accepted directory every row lies in exactly one page |
| `Directory.WriterOutputIsSound` | internal/storage/segment_write.go:445-541 | for every list of batches the recorded directory of every column is accepted |
| `Directory.WrittenPageReads` | internal/storage/segment_read.go:428-488 | every written page reads back with its nulls, its encoding and the bytes its values decode from |
| `SegmentFile.OpensIff` | internal/storage/segment_read.go:558-607 | a written file opens to its columns if and only if footer and sidecar lengths fit 31 bits |
| `SegmentFile.WriteSegment` | internal/storage/segment_write.go:180-213 | writes the whole file, refusing exactly misshaped input and overlong bitmaps |
| `SegmentFile.SegmentRoundTrip` | internal/storage/segment_write.go:180-213 | opening a written segment returns its columns, every directory is accepted and every page reads back |
| `SegmentValues.NewBatch` | internal/vector/batch.go:26-56 | columns of unequal length, or of more than 2048 rows, are refused; the rows of any other batch are those of its columns |
| `SegmentValues.IntPageExact` | internal/storage/segment_read.go:428-488 | an integer page of at most one batch, read from the file, gives back every value and every null; a longer one if and only if it has nulls, is not chunked, or has fewer than 2^16 chunks |
| `SegmentValues.TextPageReads` | internal/storage/segment_read.go:428-488 | a text page gives back every value and every null |
| `SegmentValues.SegmentValuesReturn` | internal/storage/segment_write.go:180-213 | values through the codecs, the page directory and the file: a segment written from batches opens to its columns, and each page returns what went in |

## Left out

- Decimal ALP, ALP-RD, float comparison and float join keys: floating-point rounding is not modelled; RANGE frames use exact reals.
- Window aggregates and their accumulators; only ranks and RANGE frame bounds are modelled.
- Multi-column and text sort keys, and the row-by-row sort: the integer fast path is the one modelled.
- zstd and flate text compression: library calls.
- JSON record bodies and the CRC polynomial: a log record is bytes with a type, the checksum is a parameter; NoOverlap and AppendAfterTear assume only that five zero bytes have a non-zero checksum.
- Transactions over several tables: the runs with repeated crashes are of single-table transactions with at least one add; `CrossTables` has one crash and one recovery. `CommitProtocol.Engine.RecoverTxnGroup` models the roll-forward, which no log of a commit leads to.
- Crash model: log records not yet synced are lost as a suffix; file creation and removal take effect at once; version retirement and vacuum are not part of runs with crashes.
- CrashSafety.RecoveryIsIdempotent: stated for logs in which each transaction has at most one pending intent; by `CrossTables.CrossTableOutcome` a commit leaves no other.
- TornIntents.IntentAfterTear: assumes that the middle of the shifted frame does not carry a valid checksum by chance.
- Recovery is not a step of the runs of `TimeTravel`, as it writes no manifest record (`CrossTables.CrossTableOutcome`, `CrashSafety.RecoveryIsIdempotent`); the counters are unbounded there, 64 bits wide in the original.
- Segment column lookup by name when the column id is missing, table and type catalog, schema changes, SQL binding.
- Segment-level pruning, bloom construction, sums, histograms and the other sidecars; a page filter is the set of hashes it accepts. `Kernels.EvalVector` is stated for columns the batch has.
- Expression forms other than comparisons, AND, OR, NOT, IN, BETWEEN and IS NULL are a parameter of the WHERE evaluation; correlated columns are not part of this model.
- Cascade.EncodeText: the trained FSST page is compared in the trial but not stated to be the shortest, since its size depends on the training.
- DecodeExact.PlainExact: pages of 2^31 rows and more, which the original refuses to decode; a page is a batch of at most 2048 rows.
- Fsst.PageRoundTrip: rows whose doubled length does not fit 32 bits.
- A page directory cut short is a failed parse in the model, where the original stops with an index error.
- A null bitmap longer than its page is refused by `Directory.WriteCell`, where the original stops with an index error.
- Column statistics, and page statistics of other than integer kinds, are opaque 16-byte strings.
- Reuse of scratch buffers and of decoded vectors between calls; goroutines and channels; spans and timings.
- In bit packing the union of disjoint bits is written as a sum.
- SortOp.BuildSort: streams of more than 2^32 rows, see `SortOrder.WrappedSeqNoBreaksTies`.
- TopKScan.BuildTopK: tables of more than 2^32 rows, see `SortOrder.WrappedSeqNoBreaksTies`.
- TopKRuns.AscRunExact: with a null and a negative key both kept, and more nulls and negative keys in all than the array holds, which of them it drops depends on where the binary search probes rows that are not in its order; no condition on the keys alone is given there beyond `TopKSparse.SparseLosesNothing`, and the exact one is `TopKOffers.KeptExact` on the dropped rows.
- HashJoin.RunJoin: the columns of the output rows are not built; a row is a pair of references.
