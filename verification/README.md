# A verified model of the Azure Parquet foreign-data wrapper

The wrapper lets PostgreSQL read and write Parquet blobs in an Azure container. This project models its
logic in Dafny and proves what the design promises, for all inputs, all runs and all interleavings. Check
it with `dafny verify dfyconfig.toml`.

The parts, from the hardest:

- **UPDATE and DELETE as a protocol.** `Protocol` is a state machine over any number of statements, outside
  writers, lost replies, failures, and the backend's one coordinator slot with its transaction events; the
  store is its history and an etag is a position in it. `Safety` and `Staging` prove its theorems over all
  reachable states, and `Leaks` exhibits runs. `Store`, `Coordinator`, `Plan`, `Commit` and `Xact` are the
  code in its own imperative form against a container that anyone may change between any two requests; the
  commit is shown to be a protocol run in every environment, so it inherits the theorems. `CalmLog` and
  `Statement` prove what a statement leaves when nobody interferes, from the scan's row identifiers to the
  rewritten blobs.
- **Row identity and the rewrite kernel.** `RowIds`, `ChunkTable` and `Scan` relate the table a scan grows
  lazily to the one the plan rebuilds; `Rows`, `Kernel` and `Rewrite` relate the streaming splice-and-mask
  kernel to editing the whole blob.
- **The sorted merge.** `SortKey`, `MergeSpec` and `Merge`, with any tie-breaking of the heap.
- **Pushdown.** `Pushdown`, `LikeRange`, `Walker`, `RowGroups`, `RowFilter`, `Attributes`, `PartitionQuals`
  and `Pipeline` follow a qual from PostgreSQL's tree to pruned blobs, pruned row groups and filtered rows in
  three-valued logic. `WalkerExact` shows that the soundness condition of the walk is the right one.
- **INSERT, partition paths and the parallel cursor.** `Insert`, `Partition`, `Dsm`.
- `Wrappers`, `Numbers` and `Text` are shared.

What a method is specified by is in turn tied to something that does not mention it: an edit to its cells, an
order to the values themselves, statistics to the recorded numbers, a stored row to the columns a scan reads,
a date to the calendar, a path to its segments.

Where the code does not meet a property its design suggests, the model follows the code, a lemma exhibits
the failure and another gives the exact condition:

- A row identifier comes back only from an unfiltered scan that skipped no blob (`ChunkTable.ComesBackIff`,
  `ChunkTable.SkippedBlobsShift`, `ChunkTable.FilteredEditLandsOnRowZero`), since scans count the rows they emit while
  the plan counts all rows, and pushdown is not limited to SELECT.
- The abort sweep cleans up only for a statement whose coordinator slot is still in place
  (`Staging.AbortCleansIffIntact`); any modify node replaces or empties the backend's slot, and a rolled-back
  savepoint does not sweep it (`Leaks.TwoNodesLeak`, `Leaks.SavepointLeak`, `Leaks.SavepointCommitLeak`).
- NOT over an AND with a dropped conjunct, or over IS TRUE, loses rows (`Walker.DropUnderNot`,
  `Walker.IsTrueUnderNot`, `WalkerExact.WalkSoundIff`); the comments say every pushed predicate is implied by
  its source.
- The row filter uses null-strict AND and OR, so a disjunction can lose rows (`RowFilter.KeptIff`,
  `RowFilter.DisjunctionLosesRow`), and it looks columns up by first appearance in a batch that comes in file
  order (`RowFilter.LookupRightIff`, `RowFilter.SwappedColumns`).
- Partition text is ordered as numbers against a literal that is one, and integers with leading zeros do not
  equal themselves (`PartitionQuals.OrdersTextIff`, `PartitionQuals.NumericTextPruned`,
  `PartitionQuals.EqualsIntIff`, `PartitionQuals.PaddedIntPruned`); INSERT accepts a
  percent sign that the reader refuses (`Partition.PathRoundTrip`) and a staging infix that the listing drops
  (`Partition.DroppedIff`, `Insert.TmpValueNeverListed`).
- A failed upload is said to abort an INSERT cleanly, but the groups uploaded before it stay
  (`Insert.FailedInsertIsClean`).
- The plan reads footers before the scan reads rows, so a rewrite of any earlier blob in between can send an
  edit to another blob whose etag still matches (`ChunkTable.AllComeBackIff`,
  `Statement.RewrittenBlobMisdirects`).

Integers are unbounded unless a width is written out; the casts to 32 bits in row identifiers are. Etags are
never reused. Clocks, random parts, the network, printed dates and PostgreSQL's evaluation of what the walker
does not look into are parameters.

## Model

| member | source | states |
|---|---|---|
| Safety.ReachableInv | src/fdw/modify/update.rs:762-923 | One invariant holds in every reachable state of any number of statements, outside writers, lost replies and failures: every swap names its version, every statement holds exactly the edited rows it read, and swaps are recorded in order. |
| Safety.NoLostUpdate | src/fdw/modify/update.rs:903-920 | Each successful swap replaces exactly the version whose etag the scan published, and writes that version with the edits applied; nothing touched the blob in between. |
| Safety.OneWinner | src/azure/mod.rs:297-330 | No version is replaced twice: of two swaps that name the same version of a blob at most one is in the history. |
| Safety.PhaseOneTouchesNothing | src/fdw/modify/update.rs:779-897 | A statement that fails before its first swap has changed no listable blob: all its events are on staging names. |
| Safety.SwapsArePrefix | src/fdw/modify/update.rs:903-920 | In every reachable state the targets a statement has swapped are exactly a prefix of its targets in order. |
| Safety.VisibleVersions | src/azure/mod.rs:122-162 | What a listing can show of a blob is an outside write or a complete rewrite of a published version, never staged data. |
| Safety.FailureShape | src/fdw/modify/update.rs:762-923 | Wherever a statement stops, the listable blobs it has touched are exactly the first of its targets, each by its own swap; the rest are untouched. |
| Staging.ReachableSlots | src/fdw/modify/coordinator.rs:86-120 | In every reachable state the backend's one slot, if it is still the one a statement committed under, names every staging blob of that statement still in flight, and a running sweep covers what it has not yet deleted. |
| Staging.StagingAccounted | src/fdw/modify/coordinator.rs:12-47 | In every reachable state each existing staging blob of a statement is in flight or belongs to a swapped target, and is named by the slot as long as that slot is in place. |
| Staging.FinishedSweepLeaves | src/fdw/modify/coordinator.rs:195-234 | In any interleaving, once the sweep of a statement's slot is over without a warning, only staging blobs of swapped targets are left. |
| Staging.OrphanAfterAbort | src/fdw/modify/coordinator.rs:207-232 | An abort whose deletes succeed removes an orphaned staging blob if and only if the slot in place at the abort names it. |
| Staging.AbortCleansIffIntact | src/fdw/modify/coordinator.rs:109-140 | For a statement with orphans, an abort whose deletes succeed leaves none if and only if the slot it committed under was still in place: neither replaced by another modify node, nor emptied by the end of one or by a commit. |
| Leaks.TwoNodesLeak | src/fdw/modify/insert.rs:203-334 | A run of two modify nodes in one statement: the first one's end empties the slot, the second one fails after staging, and its staging blob survives the abort. |
| Leaks.SavepointLeak | src/fdw/modify/coordinator.rs:109-120 | A run in which a statement fails inside a savepoint and the next one replaces its slot: its staging blob survives the abort. |
| Leaks.SavepointCommitLeak | src/fdw/modify/coordinator.rs:207-212 | A run in which a statement fails inside a savepoint and the transaction commits: the slot is taken without a sweep and the staging blob stays. |
| Safety.StepKeeps | src/fdw/modify/update.rs:779-920 | Every single step of a statement, with or without its effect and reply, keeps the invariant. |
| Protocol.LiveMeans | src/azure/mod.rs:215-253 | A live etag is that of the last put of the blob with nothing after it; a blob that is not live was removed after its last put. |
| CalmLog.CommitOutcome | src/fdw/modify/update.rs:762-923 | After an undisturbed two-phase run each original holds its rewrite under a new etag or is gone, the staging blobs are gone, and every other blob is unchanged. |
| Store.Container.GetBodyIfMatch | src/azure/mod.rs:215-253 | Under any outside activity a successful GET returns the rows of exactly the version the etag names, which is live at that moment. |
| Store.Container.PutIfMatch | src/azure/mod.rs:297-330 | The body replaces the named version or nothing happens; a failed reply may hide an applied write, and a success returns the new etag. |
| Store.Container.PutIfNoneMatch | src/azure/mod.rs:335-363 | The blob is created only where none exists. |
| Store.Container.DeleteIfMatch | src/azure/mod.rs:369-393 | Only the named version is removed, and a missing blob is an error. |
| Store.Container.DeleteUnconditional | src/azure/mod.rs:398-405 | A success leaves the blob absent, whether or not it was there. |
| Store.Container.ListWithPrefixEtags | src/azure/mod.rs:122-162 | The listing names every blob whose name starts with the prefix and does not contain `.tmp.` once with its live etag, and fails exactly above the cap. |
| Names.MakeStagingName | src/fdw/modify/coordinator.rs:48-51 | Every staging name is recognised as one. |
| Names.StagingNameMeans | src/fdw/modify/coordinator.rs:48-51 | The random part goes between the stem and the suffix `.parquet`, which an original without it gains. |
| Names.StagingNamesDiffer | src/fdw/modify/coordinator.rs:48-51 | For one original, staging names are equal exactly when their random parts are. |
| Names.StagingNamesApart | src/fdw/modify/coordinator.rs:48-51 | Different random parts of one length never collide, whatever the originals. |
| Coordinator.Backend.OpenStatement | src/fdw/modify/coordinator.rs:109-120 | Opening replaces whatever slot was there by an empty one. |
| Coordinator.Backend.CloseStatementSuccess | src/fdw/modify/coordinator.rs:125-140 | Closing empties the slot and reports the names still in it. |
| Coordinator.Backend.RegisterStaging | src/fdw/modify/coordinator.rs:25-27 | A name joins the slot if there is one; without a slot nothing is recorded. |
| Coordinator.Backend.MarkCommitted | src/fdw/modify/coordinator.rs:29-31 | A name leaves the slot. |
| Xact.SweepAll | src/fdw/modify/coordinator.rs:219-231 | Every pending name is requested, whatever became of the ones before, and there are exactly as many warnings as requests that failed. |
| Xact.XactCallback | src/fdw/modify/coordinator.rs:195-234 | Whatever the slot holds, the two commit and the two abort events empty it and no other; an abort sweeps every pending name in step with the protocol with one warning per failed request, and without a warning leaves only staging blobs of swapped targets for every statement whose slot was in place. |
| Rewrite.StreamEdits | src/fdw/modify/update.rs:830-851 | Streaming the batches through the kernel writes exactly the rows that are not deleted, in order, each with exactly the cells it is given replaced, and fails exactly for a malformed override in range or a batch that does not fit the schema. |
| Rewrite.RewriteBlob | src/fdw/modify/update.rs:830-863 | The rewrite of a blob is the edit of all its rows; it is refused exactly when streaming is or when an update key lies beyond the last row. |
| Commit.StageAll | src/fdw/modify/update.rs:779-897 | Phase 1 is a run of protocol steps in any environment; on success every target is held with its rewritten rows under its staging name, and undisturbed it stages exactly those. |
| Commit.SwapAll | src/fdw/modify/update.rs:903-920 | Phase 2 is a run of protocol steps in any environment and ends done or failed; undisturbed it performs exactly the planned swaps and clean-ups. |
| Commit.CommitPlan | src/fdw/modify/update.rs:751-923 | The whole commit is one protocol statement over the plan's targets in ascending key order, done on success and failed on error. In any environment, if no request failed of itself, a failure has a reason in the store (a listed version gone or not rewritable, a staging name taken), and a success leaves no staging blob; undisturbed it succeeds, rewrites every target under a fresh etag or removes it, and leaves every other blob as it was. |
| Commit.DoneIsClean | src/fdw/modify/update.rs:903-920 | A finished statement that has deleted what it staged has no staging blob left, whatever others did meanwhile. |
| Commit.CalmOutcome | src/fdw/modify/update.rs:762-923 | The store after an undisturbed run, blob by blob: targets rewritten or removed, the rest kept. |
| Plan.CountRows | src/fdw/modify/update.rs:230-241 | A footer count is accepted up to the 32-bit limit and is that of the listed version if this is still live. |
| Plan.BuildTable | src/fdw/modify/update.rs:228-250 | The plan's table is the chunk table of the row counts read, which are those of the listed versions wherever these are still live. |
| Plan.ModifyPlan.RecordEdit | src/fdw/modify/update.rs:644-684 | An edit is refused at the cap or outside the table and then changes nothing; otherwise it lands on the row its identifier resolves to. |
| Statement.MeantMeans | src/fdw/modify/update.rs:644-684 | A row is deleted if some pick deletes it, and gets the values of the last pick that updates it. |
| Statement.RecordAll | src/fdw/modify/update.rs:644-715 | Recording succeeds exactly within the cap and for identifiers in the table, and leaves every edit where its identifier resolves to. |
| Statement.LandedIsMeant | src/fdw/modify/update.rs:691-715 | Edits of rows that come back as themselves land, per blob, exactly where the user meant them. |
| Statement.BeginStatement | src/fdw/modify/insert.rs:145-212 | Starting a modify node reads the table in any environment and only then opens the slot; undisturbed it succeeds exactly when every listed blob is there and within the 32-bit row limit. |
| Statement.EndStatement | src/fdw/modify/insert.rs:294-334 | Ending a modify node commits exactly the plan's targets; on success the slot is closed, on failure the statement is a failed one whose slot is still in place. |
| Statement.ModifyStatement | src/fdw/modify/update.rs:169-923 | End to end: in any environment the statement is a protocol run whose targets are the blobs the picks resolve to with the edits that land there; on failure it either never began, having written nothing, or is a failed protocol statement whose slot is still in place; if no request failed of itself, a failure has a stated reason and a success leaves no staging blob; above the cap it never begins; undisturbed and within the cap every edited blob holds exactly its undeleted rows in order, each with exactly the cells it is given replaced, blobs all of whose rows were deleted are gone, and all others keep their etag. |
| Statement.LandedAsMeant | src/fdw/modify/update.rs:751-778 | In any environment, if the picks come back as themselves, the statement's targets are exactly the blobs they touch, each once, with the edits meant for it. |
| Statement.SwapsArePicks | src/fdw/modify/update.rs:903-920 | In every reachable state the swaps of such a statement are exactly the edits of its picks on the listed versions, for the blobs swapped so far, and nothing else. |
| Statement.RewrittenBlobMisdirects | src/fdw/modify/update.rs:228-250 | When an earlier blob that is no target gains a chunk between the footer read and the scan's read, a delete meant for the second of three blobs becomes a delete on the third, whose etag still matches. |
| Statement.LatePickIsEmitted | src/fdw/scan.rs:670-686 | That delete is of a row such a scan emits. |
| Statement.ModifyOrAbort | src/fdw/modify/insert.rs:294-334 | A statement and, if it fails, the abort, in any environment: a prefix of the targets is swapped, nothing else listable is touched, and these are the picks' edits if the picks come back as themselves, all of them on success; the slot is empty, and without a warning only staging blobs of swapped targets are left. |
| Statement.ScanEmits | src/fdw/scan.rs:568-695 | The rows that can be edited are exactly those a whole scan returns. |
| Rows.EditRowsMeans | src/fdw/modify/kernel.rs:56-126 | A rewrite holds exactly the rows that are not deleted, each at its place among them; a cell is the value given to it if one is, and what it was otherwise. |
| Rows.EditRowsAppend | src/fdw/modify/kernel.rs:131-143 | Editing a concatenation is concatenating the edits under the running offset. |
| Rows.EditRowsEmpty | src/fdw/modify/update.rs:865-877 | A blob's rewrite is empty exactly when every one of its rows is deleted. |
| Rows.EditRowsLocal | src/fdw/modify/kernel.rs:36-126 | Only edits within a run of rows affect it. |
| Kernel.SpliceColumn | src/fdw/modify/kernel.rs:56-103 | The splice loop over the touched rows puts into each cell the value it is given and keeps every other cell, and fails exactly for an override that is not one row long. |
| Kernel.FilterIsEdit | src/fdw/modify/kernel.rs:105-126 | Overriding all rows and then masking the deleted ones is the row-by-row edit, so a delete wins over an update of the same row. |
| Kernel.ApplyEditsBatch | src/fdw/modify/kernel.rs:36-126 | One batch through the kernel is the edit of its rows at its offset; failure exactly for a malformed override in range or a schema mismatch. |
| Kernel.ApplyEdits | src/fdw/modify/kernel.rs:131-143 | For any split into batches the output holds exactly the rows of the blob that are not deleted, in order, each with exactly the cells it is given replaced. |
| RowIds.CtidRoundTrip | src/fdw/modify/rowid.rs:43-61 | Packing an identifier into an item pointer is a bijection; the halves make up the block number, the high one first. |
| RowIds.FromAbsoluteMeans | src/fdw/modify/rowid.rs:34-41 | The chunk number is cut to 32 bits and added saturating to the base, and the offset is the row modulo 65,536. |
| RowIds.AbsoluteRoundTrip | src/fdw/modify/rowid.rs:34-69 | An identifier gives its absolute row back exactly when the chunk number does not overflow 32 bits. |
| RowIds.DivMod | src/fdw/modify/rowid.rs:34-42 | The recursive quotient and remainder are division and modulus by 65,536. |
| ChunkTable.ChunksClosedForm | src/fdw/modify/update.rs:242-242 | The chunk count is the row count over 65,536 rounded up, at least one. |
| ChunkTable.ResolveToSource | src/fdw/modify/update.rs:691-715 | The backward walk finds the start of the run of equal names and the absolute row, or fails outside the table. |
| ChunkTable.ResolvedInTable | src/fdw/modify/update.rs:691-715 | Resolving any chunk and offset of any blob gives that blob's base and that row, for distinct names. |
| ChunkTable.ComesBackIff | src/fdw/scan.rs:670-686 | A scanned row's identifier resolves to its own blob and row if and only if no earlier row of the blob was filtered out and every earlier blob kept its chunk count. |
| ChunkTable.ComesBackExactly | src/fdw/modify/update.rs:228-250 | Whatever versions the footers and the rows were read from, a row comes back if and only if the scan numbered it as the plan does. |
| ChunkTable.RereadComesBackIff | src/fdw/modify/update.rs:228-250 | A row of an unfiltered scan comes back if and only if the earlier blobs had equally many chunks in all at both reads. |
| ChunkTable.AllComeBackIff | src/fdw/modify/update.rs:228-250 | For blobs with rows at both reads, every row comes back if and only if every blob but the last had equally many chunks at both. |
| ChunkTable.LandsOn | src/fdw/modify/update.rs:691-715 | Where an edit lands for any filtered scan: in the blob that owns the stamped chunk in the plan, at the stamped position; with equal bases that is the row at the position among the rows emitted. |
| ChunkTable.FilteredEditLandsOnRowZero | src/fdw/scan.rs:670-686 | A filter keeps row 1 of a blob of two rows, and the edit meant for row 1 lands on row 0. |
| ChunkTable.SkippedBlobsShift | src/fdw/scan.rs:1757-1800 | When a scan skips blobs, identifiers come back exactly for the blobs before the first skipped one. |
| Scan.ScanState.NextRow | src/fdw/scan.rs:1716-1841 | The row loop yields every row of every blob in order, across empty batches and empty blobs, registering each blob once. |
| Scan.ScanState.RegisterChunkIfBoundary | src/fdw/scan.rs:1863-1887 | An entry is pushed exactly at the first row of a chunk that has none. |
| Scan.ScanState.Iterate | src/fdw/scan.rs:568-695 | One emitted row is stamped from its blob's base and its position among the rows emitted. |
| Scan.RunScan | src/fdw/scan.rs:568-695 | A whole scan leaves the chunk table of the emitted row counts and returns every row once, in order, with its stamp. |
| Scan.StampedMeans | src/fdw/scan.rs:568-695 | In that output row `j` of a blob comes after all rows of the blobs before it and the `j` before it, with the blob's base and its own position as its stamp. |
| SortKey.CmpValueMeans | src/parquet_io/multifile.rs:32-63 | What comes before what: within integers, dates and timestamps the smaller, within text the proper prefix or the smaller first difference, within doubles by sign and magnitude, across types in the listed order, and everything before null. |
| SortKey.ValueOrder | src/parquet_io/multifile.rs:32-63 | Value comparison is a total order with nulls last, in which equal means identical, floats included. |
| SortKey.KeyOrder | src/parquet_io/multifile.rs:146-168 | Key comparison is a total order in which equal means identical. |
| MergeSpec.RowLeMeans | src/parquet_io/multifile.rs:311-323 | One row may precede another exactly when they agree on the sort columns or the first of these on which they differ puts it before. |
| MergeSpec.InOrderPairs | src/parquet_io/multifile.rs:255-264 | Rows in order one after the other are in order pairwise. |
| MergeSpec.MergingStep | src/parquet_io/multifile.rs:250-308 | Emitting a least head keeps the merge invariant: sorted output, each source split into emitted and pending. |
| MergeSpec.StopsAtInversion | src/parquet_io/multifile.rs:255-264 | A least head is below the last row exactly when the source that emitted last is out of order at its next row. |
| MergeSpec.MergeComplete | src/parquet_io/multifile.rs:250-308 | With all sources empty the output is the multiset union of them, each in its own order, and all were sorted. |
| Merge.PullNonEmpty | src/parquet_io/multifile.rs:280-304 | Pulling skips empty batches and loses no row. |
| Merge.Open | src/parquet_io/multifile.rs:190-246 | Opening refuses more than 256 blobs and mismatched names, and otherwise holds one heap entry per source with rows. |
| Merge.MultiFileSortedStream.NextRow | src/parquet_io/multifile.rs:250-308 | The next row is a least one; it fails for order exactly when the source that emitted last has an inversion at its next row, and names that blob. |
| Merge.Drain | src/parquet_io/multifile.rs:250-308 | Over readable streams the merge completes exactly when every blob is sorted by the sort columns, with an output sorted by them that is the multiset union and keeps each blob's order; otherwise it names a blob that is out of order and all output so far is sorted. |
| Pushdown.InvertNegates | src/fdw/pushdown_walk.rs:128-147 | Inversion is exact three-valued negation of every tree on every row, nulls included. |
| Pushdown.InvertTwice | src/fdw/pushdown.rs:46-57 | Inverting a tree without NOT twice gives the tree back. |
| Pushdown.LogicMeans | src/fdw/pushdown.rs:202-236 | AND is the least of its conjuncts, OR the greatest of its disjuncts and NOT the mirror image, with FALSE below UNKNOWN below TRUE. |
| Pushdown.ComparisonMeans | src/fdw/pushdown.rs:514-621 | A comparison is unknown on a null and otherwise says of the two values what its operator says of their order, which is spelled out per type. |
| Pushdown.ScalarOrder | src/fdw/pushdown.rs:514-621 | Comparison of same-typed values is a total order. |
| Text.CmpBytesMeans | src/fdw/pushdown.rs:622-649 | Text comes before text exactly as a proper prefix or with the smaller byte at the first difference. |
| LikeRange.NextLexUpper | src/fdw/pushdown.rs:632-649 | The loop returns the upper bound of the prefix, if there is one and it is text. |
| LikeRange.UpperIsLeast | src/fdw/pushdown.rs:632-649 | No smaller byte string is above everything that starts with the prefix. |
| LikeRange.RangeIsPrefix | src/fdw/pushdown.rs:622-649 | A byte string starts with the prefix exactly when it lies between the prefix and its upper bound, trailing 0xFF bytes included. |
| LikeRange.ValidMeans | src/fdw/pushdown.rs:632-649 | Valid text is exactly what Unicode scalar values are encoded to. |
| LikeRange.UpperOfText | src/fdw/pushdown.rs:632-649 | On text the loop never drops a byte. |
| LikeRange.LikeIsRange | src/fdw/pushdown_walk.rs:250-262 | A recognised LIKE pattern matches exactly the strings in its range. |
| Walker.DayMeans | src/fdw/pushdown_walk.rs:21-22 | A date constant is the day as many days after 1970 as the Gregorian calendar puts between 1970 and 2000, and is pushed as such unless 32 bits cannot hold it. |
| Walker.BoolTestMeans | src/fdw/pushdown_walk.rs:219-240 | IS TRUE holds of true, IS FALSE of false, IS UNKNOWN of null, and their negations of the rest, never unknown. |
| Walker.OpExact | src/fdw/pushdown_walk.rs:350-399 | A walked comparison, flipped or not, has the truth of the original on every row. |
| Walker.OpWalks | src/fdw/pushdown_walk.rs:350-399 | A comparison walks exactly when one side is a column that compares as bytes and the other a constant with a pushed form. |
| Walker.LikeWalks | src/fdw/pushdown_walk.rs:312-348 | A LIKE walks exactly for such a column and a constant of plain text and one final percent sign whose range ends in text. |
| Walker.ArrayWalks | src/fdw/pushdown_walk.rs:565-610 | IN and NOT IN walk exactly for a column and a list of such constants that is not empty. |
| Walker.TestWalks | src/fdw/pushdown_walk.rs:198-240 | Null tests, IS TRUE and IS FALSE walk exactly for a column, and a bare operand for a boolean column. |
| Walker.LikeExact | src/fdw/pushdown_walk.rs:312-348 | A walked LIKE has the truth of the original on every row. |
| Walker.ArrayExact | src/fdw/pushdown_walk.rs:565-610 | A walked IN or NOT IN has the truth of the original on every row. |
| Walker.WalkReaches | src/fdw/pushdown_walk.rs:154-196 | An AND walks if any conjunct does, an OR only if all disjuncts do, a NOT if its argument does. |
| Walker.WalkSound | src/fdw/pushdown_walk.rs:74-240 | Where the tree keeps TRUE, every row on which it is TRUE makes the pushed predicate TRUE, and likewise for FALSE, with dropped conjuncts, all-or-nothing OR and negation. |
| Walker.WalkQuals | src/fdw/pushdown_walk.rs:30-46 | The list loop keeps exactly the quals that walk, in order. |
| Walker.QualsSound | src/fdw/pushdown_walk.rs:30-46 | A row that satisfies all quals satisfies all pushed predicates. |
| Walker.WalkNotFree | src/fdw/pushdown_walk.rs:128-196 | The walk leaves no NOT in what it pushes. |
| Walker.DropUnderNot | src/fdw/pushdown_walk.rs:166-193 | A negated AND whose walked conjuncts keep FALSE loses no row if and only if what remains of it is FALSE wherever any dropped conjunct, of whatever kind, is FALSE. |
| Walker.DropUnseenUnderNot | src/fdw/pushdown_walk.rs:166-193 | If a dropped conjunct can be FALSE on every row, the negated AND loses no row if and only if what remains of it is always FALSE. |
| Walker.IsTrueUnderNot | src/fdw/pushdown_walk.rs:225-240 | NOT (x IS TRUE) loses the rows where x is null. |
| WalkerExact.WalkSoundIff | src/fdw/pushdown_walk.rs:128-240 | On trees over any leaves (comparisons, LIKE, IN, null and boolean tests, anything dropped) that look at different things and can each be TRUE and be FALSE on rows of the column types, the walk loses no row of those types, and no row at all, if and only if the tree keeps TRUE. |
| WalkerExact.Local | src/fdw/pushdown_walk.rs:74-240 | Neither the value of a qual nor that of its pushed form depends on anything the qual does not mention. |
| WalkerExact.ComparisonContingent | src/fdw/pushdown_walk.rs:350-399 | Every comparison of an integer column with a number can be TRUE and can be FALSE on rows of the column types. |
| WalkerExact.OtherContingent | src/fdw/pushdown_walk.rs:198-217 | So can a null test of any column and an expression the walker does not see into. |
| WalkerExact.TestContingent | src/fdw/pushdown_walk.rs:219-240 | So can IS TRUE and IS FALSE of a boolean column. |
| RowGroups.EvaluateAgainstRg | src/fdw/pushdown.rs:357-403 | The evaluation with its early exit and flags is the three-verdict combination over the children. |
| RowGroups.PruneRowGroups | src/fdw/pushdown.rs:321-355 | The kept groups are exactly those no predicate rules out, ascending; no pruning at all exactly when no verdict was determinate. |
| RowGroups.LeafVerdictExact | src/fdw/pushdown.rs:403-511 | With both bounds recorded a comparison is ruled out exactly when no value from the recorded minimum to the recorded maximum satisfies it, for every pair of literal and statistics type. |
| RowGroups.VerdictIsLogic | src/fdw/pushdown.rs:357-403 | The verdict on a list is that of three-valued logic on its children. |
| RowGroups.CmpVerdictExact | src/fdw/pushdown.rs:514-621 | A comparison is ruled out exactly when no value between the bounds satisfies it. |
| RowGroups.BoolVerdictExact | src/fdw/pushdown.rs:480-503 | Equality on booleans is ruled out exactly when no value between the bounds satisfies it. |
| RowGroups.NullTestVerdictExact | src/fdw/pushdown.rs:426-446 | With a known null count a null test is ruled out exactly when no row of the group passes it. |
| RowGroups.GroupVerdictSound | src/fdw/pushdown.rs:357-511 | A group ruled out holds no row on which the predicate is TRUE, for every nesting, missing statistics and type mismatch, where each value lies between its chunk's recorded minimum and maximum as numbers, bytes or truth values. |
| RowGroups.PruneKeepsMatches | src/fdw/pushdown.rs:321-355 | A group holding a row that satisfies all predicates is always kept. |
| RowFilter.CollectInto | src/fdw/pushdown.rs:185-200 | The collected columns are those of first appearance. |
| RowFilter.CollectedIsReads | src/fdw/pushdown.rs:185-200 | They are exactly the columns read, each once. |
| RowFilter.CollectedInOrder | src/fdw/pushdown.rs:185-200 | They come in the order in which the predicate, read from left to right, first mentions them. |
| RowFilter.Eval | src/fdw/pushdown.rs:202-272 | The mask holds the null-strict truth of every row; evaluation fails exactly for a missing column or a null literal. |
| RowFilter.KeptIff | src/fdw/pushdown.rs:202-236 | The filter keeps a row if and only if the predicate is TRUE and no comparison meets a null. |
| RowFilter.ConjunctionsLoseNothing | src/fdw/pushdown.rs:210-220 | A tree of conjunctions loses no row. |
| RowFilter.DisjunctionLosesRow | src/fdw/pushdown.rs:221-231 | A disjunction loses every row where one side matches and the other meets a null. |
| RowFilter.LookupRightIff | src/fdw/pushdown.rs:169-179 | Looking columns up by first appearance reads the right cells of every file-order batch if and only if the predicate mentions its columns in ascending order. |
| RowFilter.MaskIsTruth | src/fdw/pushdown.rs:169-236 | With columns mentioned in file order the mask of a file-order batch is the null-strict truth of its rows. |
| RowFilter.SwappedColumns | src/fdw/pushdown.rs:169-179 | For a predicate naming two columns against file order, the row that matches is lost and the row with the two values exchanged is kept. |
| Attributes.StorageMap | src/fdw/scan.rs:936-947 | Stored attributes are numbered in order and partition attributes have no file column. |
| Attributes.StorageDense | src/fdw/scan.rs:936-947 | The numbering has no gaps. |
| Attributes.StorageOrdered | src/fdw/scan.rs:936-947 | File columns keep the order of the attributes. |
| Attributes.TranslateMeaning | src/fdw/pushdown.rs:655-683 | Translation succeeds exactly when every column is stored, and then means the same on the file's row. |
| PartitionQuals.ClassifyTarget | src/fdw/partition.rs:88-116 | The loop computes the class of a predicate from those of its children. |
| PartitionQuals.TargetMeans | src/fdw/partition.rs:88-116 | A class tells which columns are read, and is exact on predicates without empty lists. |
| PartitionQuals.SplitQualsByTarget | src/fdw/partition.rs:66-80 | Each predicate goes to the path, to the file or to neither, by its class, and keeps its place among those of its class. |
| PartitionQuals.StorageTranslates | src/fdw/scan.rs:1076-1081 | Every predicate over stored columns translates. |
| PartitionQuals.EvaluatePartitionQuals | src/fdw/partition.rs:121-136 | A blob is kept exactly when every path predicate keeps it. |
| PartitionQuals.UndecidedKept | src/fdw/partition.rs:138-218 | What the path cannot decide never drops a blob: another column, a value the path lacks, a literal without path text. |
| PartitionQuals.ShowParses | src/fdw/partition.rs:174-194 | Printing an integer and parsing it gives it back. |
| PartitionQuals.PruneExact | src/fdw/partition.rs:138-218 | On paths as INSERT writes them (canonical integers, text, dates that print in their own order) pruning decides every tree as the typed comparisons would, orders on text being against literals that are no numbers. |
| PartitionQuals.PruneSound | src/fdw/partition.rs:138-218 | With IS NULL tests as well, a tree without NOT that is TRUE on a row keeps the row's blob. |
| PartitionQuals.OrdersTextIff | src/fdw/partition.rs:190-211 | For each order operator, every text value is compared as text if and only if the literal does not parse as a 64-bit integer. |
| PartitionQuals.EqualsIntIff | src/fdw/partition.rs:174-188 | Equality of a path's integer with every integer is decided right if and only if the path holds it as it prints. |
| PartitionQuals.NumericTextPruned | src/fdw/partition.rs:190-211 | The text value '10' is pruned for < '9'. |
| PartitionQuals.PaddedIntPruned | src/fdw/partition.rs:174-188 | Any integer, negative or not, with any number of leading zeros is pruned for equality with itself. |
| Pipeline.MatchingRowSurvives | src/fdw/scan.rs:1021-1090 | A row satisfying all quals is in a row group that is read; a row-filter predicate over its file-order batch that mentions its columns in file order then lets it pass exactly when no comparison of it meets a null in the row. |
| Pipeline.MatchingBlobKept | src/fdw/scan.rs:1044-1070 | A blob holding a matching row is kept for integer, text and date partition columns and null tests, when its path holds its values as INSERT writes them and text is not ordered against a number. |
| Partition.PartitionValuesFromPath | src/fdw/partition.rs:8-54 | The segment loop and the presence check yield the parsed tuple or refuse. |
| Partition.ParsedMeans | src/fdw/partition.rs:8-54 | A path parses exactly when every declared name is given a value by one segment, none by two, and no value is empty or holds a percent sign; and then to those values. |
| Partition.HitMeans | src/fdw/partition.rs:14-30 | A segment gives a declared name a value exactly when it is a spelling of the name, an equals sign and the value. |
| Partition.SameIdentifierMeans | src/fdw/partition.rs:14-30 | Keys match exactly when they differ in ASCII case at most. |
| Partition.SplitMeans | src/fdw/partition.rs:8-30 | A path is cut at every slash and nowhere else. |
| Partition.DeclaredMeans | src/fdw/partition.rs:20-26 | Of the declared names that match a key the first is the one found, in its declared spelling. |
| Partition.ComputeTargetName | src/fdw/modify/insert.rs:562-584 | The path loop yields the base, one pair per key and a unique file name, or the literal name without partition columns. |
| Partition.GenerateMeans | src/azure/writer.rs:78-87 | A generated name is the unique part under the prefix, with one slash for whatever slashes end the prefix. |
| Partition.PathSegments | src/fdw/modify/insert.rs:562-584 | A generated path splits into the base's segments and one pair per key. |
| Partition.TargetDetermines | src/fdw/modify/insert.rs:562-584 | A generated name determines its tuple and its unique part, whatever the declared keys are called. |
| Partition.DroppedIff | src/azure/mod.rs:48-54 | The listing drops a generated name if and only if the base, a key or a value holds the staging infix, or the literal name does. |
| Partition.InfixIsText | src/azure/mod.rs:52-54 | The staging infix, which the path model holds as bytes, is the text `.tmp.`. |
| Partition.PathRoundTrip | src/fdw/partition.rs:8-54 | A generated path parses back to its tuple if and only if no value contains a percent sign; otherwise it is refused. |
| Insert.PartitionTextMeans | src/convert/partition_datum.rs:37-117 | A value has a path text exactly when it is no null, negative number, unprintable date or unsupported type, nor text that is empty or holds a slash, an equals sign or two dots in a row; and that text is its digits, its printed date or itself. |
| Insert.DeriveKey | src/fdw/modify/insert.rs:499-520 | A row has a partition tuple exactly when every partition value has a path text. |
| Insert.StoredMeans | src/fdw/modify/insert.rs:541-553 | The stored row holds each stored attribute in exactly the file column a scan reads it from, and nothing else. |
| Insert.RowsForMeans | src/fdw/modify/insert.rs:491-557 | The rows of a group are those routed to it, each at its place in arrival order. |
| Insert.InsertedPathReadsBack | src/convert/partition_datum.rs:37-117 | The path generated for an inserted row parses back to its partition tuple if and only if no value contains a percent sign. |
| Insert.TextIsAccepted | src/convert/partition_datum.rs:37-117 | Every accepted partition value can stand in a path, and an integer can always be read back. |
| Insert.InsertState.AppendSlot | src/fdw/modify/insert.rs:491-557 | A row joins the end of its own group and no other, and a new group is named from its tuple and this row's unique part; a bad partition value changes nothing. |
| Insert.InsertState.FlushGroup | src/fdw/modify/insert.rs:720-759 | A flush moves a group's buffer to its writer and resets its count. |
| Insert.InsertState.Insert | src/fdw/modify/insert.rs:221-282 | After every insert all counts equal the buffer lengths, a group is flushed exactly at its 8,192nd buffered row, what is written and buffered is what arrived, and every group has its tuple's name. |
| Insert.InsertState.FinalizeAndUpload | src/fdw/modify/insert.rs:826-858 | One upload per tuple that received a row, in key order, under the name of its tuple, with exactly its rows, until one fails; the container is what these uploads in turn make of it, and the tuples not uploaded come after all that were. |
| Insert.UploadNamesDiffer | src/fdw/modify/insert.rs:562-584 | No two tuples are uploaded under one name. |
| Insert.PutsLand | src/fdw/modify/insert.rs:847-857 | When names differ no upload replaces another, and every other blob is kept. |
| Insert.UploadReadsBack | src/fdw/partition.rs:8-54 | The name of each upload parses back to its tuple, or is refused for a percent sign. |
| Insert.TmpValueNeverListed | src/azure/mod.rs:136-142 | INSERT accepts the text value `a.tmp.b`, which reads back, yet no listing shows the blob of a tuple that holds it. |
| Insert.TupleOrder | src/fdw/modify/insert.rs:844-844 | The order of uploads is a total order on tuples. |
| Insert.TupleMeans | src/fdw/modify/insert.rs:844-844 | It is by the smaller text at the first difference. |
| Insert.InsertAll | src/fdw/modify/insert.rs:221-334 | A row without a partition tuple fails a whole INSERT before anything is written. Otherwise every row is split into a tuple that stands for its partition values and a stored row whose columns are those a scan reads back; it succeeds unless an upload is refused or its reply lost; the container then holds for each tuple uploaded, under a name of its own that reads back as the tuple, its rows in arrival order, and every other blob is unchanged; the tuples uploaded are all on success and the first ones on failure; a name is one the listing drops exactly when the base, a key or a value, or the literal name, holds the staging infix. |
| Insert.FailedInsertIsClean | src/fdw/modify/insert.rs:847-857 | An INSERT that fails in an upload leaves nothing behind if and only if its first upload was refused. |
| Dsm.PackedSize | src/fdw/parallel.rs:28-31 | The packed list fills exactly the size computed for it. |
| Dsm.LengthBytes | src/fdw/parallel.rs:41-74 | A length is four bytes, the lowest first. |
| Dsm.EntryLayout | src/fdw/parallel.rs:41-74 | An entry is the two lengths, then the name, then the etag. |
| Dsm.SerializeBlobs | src/fdw/parallel.rs:41-74 | Writing through the advancing position leaves exactly the packed list in the buffer. |
| Dsm.DeserializeBlobs | src/fdw/parallel.rs:89-143 | Any payload is read within its declared size, and yields what it encodes or an error. |
| Dsm.PackRoundTrip | src/fdw/parallel.rs:41-143 | Unpacking a packed list gives the list. |
| Dsm.Cursor.NextBlob | src/fdw/parallel.rs:165-171 | Each call advances the counter and takes the blob it pointed to, if any. |
| Dsm.Cursor.Reset | src/fdw/parallel.rs:324-338 | A rescan starts over. |
| Dsm.RunWorkers | src/fdw/parallel.rs:165-171 | Over any schedule of calls by any workers the blobs are handed out in order, each to one call; once a worker sees the end all have been, and any split of the workers splits the list. |

## Left out

- Byte-size caps on bodies, decoded batches and INSERT accumulators; a size check would only add an early error.
- Parquet and Arrow encoding, compression codecs and their preservation; a blob is a sequence of row batches.
- Datum conversion between PostgreSQL and Arrow, and schema checks on column types; values are abstract or of the few types compared.
- PostgreSQL callbacks, planner hooks, catalog reading, options, credentials and IMPORT FOREIGN SCHEMA.
- The scan-to-modify handoff stack: a map of stacks whose operations are one branch each; the plan takes the published list as input.
- Rescan of a scan, read errors in a scan, and the sorted and parallel modes inside the scan's row loop; the merge and the cursor are modelled on their own.
- The leader's part in a parallel scan, which keeps its own sequential list.
- Scan.RunScan: the class does not skip blobs for partition errors; `ChunkTable.SkippedBlobsShift` states what a skip does to identifiers.
- Merge.Open: unsupported key types are not modelled; every cell has one of the ordered types.
- RowGroups.CmpVerdictExact: floats are NaN-free reals, so NaN bounds are not covered, nor is negative zero, which Arrow's comparison puts below zero and PostgreSQL's takes to equal it.
- Walker.WalkSound: equality is bytewise, so nondeterministic collations are not covered.
- PartitionQuals.PruneExact: dates are printed by a parameter; that they print in their own order between two bounds is a hypothesis.
- Walker.VarCollationOk: a column with the database's default collation is accepted like one with the C collation and taken to compare as bytes, which is so only where the default is bytewise.
- Walker.OpExact: as there, order on text under the default collation is taken to be that of the bytes.
- RowFilter.Eval: cells and literals have one type per column, so the kernels' failure on mismatched types is not modelled.
- Store.Container.ListWithPrefixEtags: the pages of one listing are one view of the container; a failing page request and an entry without an etag are not modelled.
- Scan.ScanState.NextRow: blobs skipped because their partition values do not parse or cast, and read errors, are not modelled.
- Dsm.SerializeBlobs: the payload only; the header's fields and the alignment of the segment are not modelled.
- Partition.PathRoundTrip: the refusal of `..` in text values is modelled in `Insert.PartitionText` and plays no part in the round trip.
- Insert.InsertAll: the container is a map from names to rows that nobody else changes meanwhile; a failure while encoding a row is not modelled.
- Statement.ModifyStatement: which rows the executor picks and with what values is an input; rejecting an UPDATE of a partition column is not modelled.
- Dsm.Cursor.NextBlob: the counter does not wrap around.
