# Verified model of the metadata service

The service keeps a PostgreSQL table of book metadata, keyed by MD5. A worker downloads release
payloads as torrents, decodes them frame by frame, folds and upserts their records in batches, and can
be interrupted at any time; an API searches the table page by page and steers the worker through a
command queue. This project models the parts of it that carry state, loops or arithmetic, and proves
what they are meant to guarantee over whole runs, whole traversals and all interleavings.

`dafny verify dfyconfig.toml` checks everything.

| module | models |
|---|---|
| `OrderedUnion`, `Records` | the order-stable union, the quality score and the merge of two records, with the exception it can raise |
| `RecordFolds` | folding any sequence of records of one MD5, in closed form |
| `MetadataTable` | `record_to_params`, the upsert as an algebra of writes, and what one batch writes |
| `Tallies`, `ImportPipeline` | counter maps; the import loop, its flushes and its books |
| `BatchCids`, `ImportResume` | interrupting an import and importing again |
| `BatchBoundaries` | the row of a key after a whole import, against the documented merge of all its records |
| `Frames`, `FrameRecovery` | the resilient zstd frame scanner over an abstract streaming decoder (section 3.1.1 of RFC 8878) |
| `Base64Url`, `Cursors` | the cursor codec (sections 3.2 and 5 of RFC 4648) |
| `Keyset` | keyset pagination over a table that may change between pages |
| `StallDetector` | the timed download loop |
| `SyncRun`, `SyncOutcomes` | release status, advisory lock, discovery, sequential and parallel downloads |
| `Commands` | pause, resume and run_now between API and worker |
| `CountCache` | the dashboard's single-flight count |
| `Isbn` | check digits (ISO 2108), conversion, and the lookups built on them |

Objects that the program updates in place are classes (`ReleaseImport`, `Database`, `SyncRunSummary`,
`CommandPoller`, `ControlStore`, `Globals`, `DecompressObj`); each of their methods is tied to a
specification function (`FeedAll`, `Scan`, `SettleAll`, `Ask`, ...), and the theorems are about those
functions. Where two parties act concurrently, a state machine has one event per atomic statement, and
the theorems hold for every sequence of events. `FoldFrom` and `Absorb` are the values of folds and merges
that do not raise; `TryMerge` and `TryFold` add the exception.

## Where the code and its documentation differ

The model follows the code.

* `docs/architecture.md:20-24` and `:53-55` and the head of `sync/importer.py` describe a merge with the
  stored row. `process_batch` merges only inside a batch and then upserts, so the outcome depends on where
  batches end, and the rules of `docs/data-model.md:98-114` hold within a batch only. For whole imports the
  overwritten columns are those of the last batch that names the key (`BatchBoundaries.ImportedRow`): list
  values (`ImportedList`), filled scalars (`ImportedScalar`) and tombstones (`ImportedTombstone`) that only
  earlier batches have are lost. Coalesced columns and the score survive (`WrittenKept`, `ImportedScore`), except
  that an empty text replaces a filled one (`BoundaryLosesScalarIff`).
* `merge_records` is described by rules that cover every pair of records. On a tie of scores where exactly one side has
  a timestamp Python cannot compare the two and raises (`Records.MergeRecords` says exactly when); with
  timestamps everywhere it cannot happen (`ImportResume.StampedPayloadMerges`). So even merging the same
  record again can raise (`Records.MergeAgain`, `RecordFolds.ReplayChangesNothing`).
* `sync/worker.py:9-10` says that a pause interrupts the run under way. The queue is only polled between
  runs, on the thread that also runs them. The flag stays up instead and interrupts the first import
  after the pause is over (`Commands.RunInterruptedIff`, `Commands.ResumedRunIsInterrupted`).
* Two API requests may overlap. Each enqueues and then writes the paused flag, so the flag can end up against
  the command issued last (`Commands.OverlapDisagrees`; `Commands.PauseAgreementIff` says when).
* The frame scanner overlooks a frame whose magic is cut by the edge of a scan window
  (`FrameRecovery.RecoversIff`, `FrameRecovery.SomeFrameIsOverlooked`).
* `_adaptive_stall_timeout` is said to scale up towards completion. With the default window of 15 minutes
  it drops from 30 minutes at 95% to 15 at 99% (`StallDetector.GrowsWithProgressIff`).
* A checksum-valid ISBN-10 with an early `X` makes `normalize_isbn13` raise instead of returning `None`
  (`Isbn.ValidIsbn10Converts`, `Isbn.EarlyXRaises`).
* An empty, as opposed to absent, `ipfs_cid` can break the convergence of an import resumed after a
  shutdown (`ImportResume.EmptyCidDiverges`), never after a crash (`ImportResume.CrashConverges`);
  `ImportResume.ShutdownConvergesIff` says for which records and tables.
* `decode_cursor` returns the rank that the database is then asked to compare. `ts_rank_cd` yields a
  single precision `real`, which travels as decimal text and comes back as a double, so the two need not be
  equal. Where the rank rises a page repeats rows, where it falls it skips some
  (`Keyset.NothingComesBackIff`, `Keyset.NothingIsSkippedIff`). The rank 0.1 falls, the rank 0.7 rises
  (`Keyset.TenthIsSkipped`, `Keyset.SevenTenthsNeverEnd`).

## Model

| member | source | states |
|---|---|---|
| `ImportResume.ImportInterruptedThenResumed` | sync/importer.py:365-461 | Two sync runs over one release, the first stopped by a shutdown at any line, each starting with reset counters: the persisted inserts of the two add up to the growth of the table. The second raises in a merge exactly when one uninterrupted run would, and the first only then; the table is given for each case, and when nothing raises it is that of one uninterrupted import exactly when no empty cid was written too early. |
| `ImportResume.ImportCrashedThenResumed` | sync/importer.py:365-461 | The first run dies between two lines with a part-filled batch: for every payload the second ends with the table of one uninterrupted run, also when that run raises, which it does exactly when the second does; what the crash left in the insert counter and what the second run leaves there add up to the growth. |
| `ImportResume.ImportTwice` | sync/importer.py:339-461 | Importing a payload twice: the second run raises exactly when the first does, leaves every row as it is and inserts none. |
| `ImportResume.RunRaisesOn` | sync/importer.py:183-192 | A run that reads further raises at the same batch, or at the one that the shutdown would have flushed. |
| `ImportResume.FullBatchesAgain` | sync/importer.py:365-386 | Full batches may be written a second time before the rest without leaving a trace. |
| `ImportResume.ReimportConverges` | sync/importer.py:170-211 | For every starting table, batch size and interruption point importing again from the start converges: after a crash for every payload, after a shutdown if no record has an empty `ipfs_cid`. |
| `ImportResume.CrashConverges` | sync/importer.py:365-386 | A crash loses only the open batch, so it always converges, with no condition on the payload. |
| `ImportResume.TablesGrow` | sync/importer.py:440-441 | What full batches wrote is covered, column by column, by what is read and written after them. |
| `ImportResume.ShutdownConvergesIff` | sync/importer.py:406-408 | For every table and payload: a shutdown and resume converge if and only if every key that loses an empty cid had an empty cid stored before; a key loses one when its last record in the batch open at the shutdown has an empty cid, while in every batch of the full pass it has no non-empty cid and its last record has none. |
| `ImportResume.LostCids` | sync/importer.py:78 | That condition on the records says exactly which rows have a cid after the interrupted pass and none after the full one, and that it is an empty one. |
| `BatchCids.DeltaCid` | common/records.py:177 | A batch stores a cid for a key exactly when one of its records has a non-empty one or its last record an empty one. |
| `BatchCids.WrittenCid` | sync/importer.py:68-78 | An import leaves a key with a cid exactly when one of its batches stores one. |
| `BatchCids.BatchesContinue` | sync/importer.py:440-450 | Reading on leaves full batches as they are and only appends to the open one. |
| `ImportResume.ConvergesIff` | sync/importer.py:52-78 | For all starting tables together: re-import converges if and only if every coalesced column and score written before the interruption is covered by the full pass. |
| `ImportResume.ReimportIsIdempotent` | sync/importer.py:405-461 | Importing a payload a second time changes no row, whatever the payload and the table. |
| `ImportResume.ImportedIsApply` | sync/importer.py:170-211 | An import acts on any table like one write of a table that depends on the payload alone. |
| `ImportResume.SettleGrows` | sync/importer.py:440-441 | Reading one more line never takes back what flushing before that line would have left, whether or not the line completes a batch; an empty cid is the only exception. |
| `ImportResume.WrittenGrows` | sync/importer.py:405-441 | The same over any number of further lines. |
| `ImportResume.EmptyCidDiverges` | sync/importer.py:78 | Witness: a shutdown after a record with an empty cid, before one of the same key without any, leaves a different table. |
| `ImportResume.BatchBoundaryLosesPublisher` | sync/importer.py:52-66 | Witness against the documented merge: two records of one key keep the publisher when they share a batch and lose it when a batch boundary falls between them. |
| `ImportResume.StampedPayloadMerges` | sync/importer.py:183-192 | A payload whose records all carry a timestamp never makes a flush raise. |
| `ImportPipeline.ReleaseImport.Run` | sync/importer.py:339-461 | A run raises in a merge exactly when a batch up to where it would end cannot be folded, at the first such batch, with the table of the flush before it. Otherwise it has imported exactly the lines it read, with an empty batch; `failed` is the number of lines that broke, `skipped` of those that parsed to nothing, `discarded` of the records dropped, each reason of those dropped for it; every database counter and reason grew by what the run counted, persisted reasons sum to persisted discards, inserts equal the growth of the table; it aborts in mid-run exactly at the first flush from line 10000 on with more than the allowed part of the lines broken. |
| `ImportPipeline.ReleaseImport.ReadAndFinish` | sync/importer.py:405-461 | The loop and what follows it, with the same conditions in terms of the lines read. |
| `ImportPipeline.ObserveCounts` | sync/importer.py:410-438 | After any number of lines the counters are the numbers of broken lines, of lines that parsed to nothing, and of (line, record) places that were dropped. |
| `ImportPipeline.ReasonCounts` | sync/importer.py:418-434 | The tally of a reason is the number of places dropped for it, an absent or empty reason being `unspecified`. |
| `ImportPipeline.KeptAppend` | sync/importer.py:418-435 | Keeping records is filtering: order and repetitions stay. |
| `ImportPipeline.AllKeptAppend` | sync/importer.py:405-438 | The same over lines; a broken line keeps nothing. |
| `ImportPipeline.FlushedIff` | sync/importer.py:440-441 | A flush happens at the first line that completes `batch_size` lines or as many kept records since the flush before, and at no other line. |
| `ImportPipeline.SinceFlush` | sync/importer.py:435-441 | The open batch is what was kept since the last flush. |
| `ImportPipeline.RaisesAtIff` | sync/importer.py:440-441 | A run raises at the lines that complete a batch whose kept records cannot be folded. |
| `ImportPipeline.StopIndexIsFirstAbort` | sync/importer.py:442-448 | An uninterrupted run reads up to the first flushed point from line 10000 on at which more than the allowed part of the lines broke, or to the end. |
| `ImportPipeline.ReleaseImport.RunUntilCrash` | sync/importer.py:405-441 | Before every line less than one batch of lines and of records is unflushed, table and batch are those of the lines read, and no insert is unpersisted. |
| `ImportPipeline.ReleaseImport.Step` | sync/importer.py:410-448 | One line: counters, batch and table advance exactly as the line demands; the error rate aborts exactly after a flush from line 10000 on; it raises exactly when it completes a batch that cannot be folded, and then leaves the table of the flush before. |
| `ImportPipeline.ReleaseImport.FlushIfDue` | sync/importer.py:440-448 | The two flush triggers and the abort check, including the second flush before the abort, which writes nothing. |
| `ImportPipeline.ReleaseImport.FlushAt` | sync/importer.py:406-408 | The flush of a shutdown, or after the last line, settles table and counters or leaves the previous flush. |
| `ImportPipeline.ReleaseImport.Finish` | sync/importer.py:450-461 | After the loop: the last flush, then the empty-payload and final error-rate refusals. |
| `ImportPipeline.ReleaseImport.Flush` | sync/importer.py:365-386 | A flush succeeds exactly when the batch can be folded; then the batch is written, all counters are conserved and nothing is left unflushed; otherwise table and books are as before. |
| `ImportPipeline.ReleaseImport.Persist` | sync/importer.py:369-386 | Adding the deltas makes every persisted counter equal to what was there before the run plus what the run counted. |
| `ImportPipeline.ReleaseImport.PersistCounters` | sync/importer.py:369-371 | Skipping the update when all deltas are zero loses nothing. |
| `ImportPipeline.ReleaseImport.PersistReasons` | sync/importer.py:372-383 | Writing only when some delta is positive, and only positive deltas, keeps the persisted reasons level with the counted ones. |
| `ImportPipeline.ReleaseImport.ProcessBatch` | sync/importer.py:170-211 | Raises exactly when two records of a key cannot be ordered, leaving everything as it was; otherwise upserts the folded rows and counts as inserted the new keys and as updated the known ones. |
| `ImportPipeline.ReleaseImport.FoldRecords` | sync/importer.py:183-192 | The dictionary loop computes the per-key fold, or stops at the first merge that raises. |
| `ImportPipeline.ReleaseImport.UpsertRows` | sync/importer.py:206-207 | Upserting the rows one after the other, in any order, writes them all at once. |
| `ImportPipeline.ReleaseImport.ReadLine` | sync/importer.py:410-438 | One line counts as broken, as empty, or by its dropped records, counted as a set of places; its kept records join the batch. |
| `ImportPipeline.ReleaseImport.ReadRecords` | sync/importer.py:417-434 | Kept records join the batch in order; each discarded one is counted once, under its reason. |
| `ImportPipeline.ReleaseImport.ReadRecord` | sync/importer.py:418-434 | One record is either counted as discarded under its reason, or appended. |
| `ImportPipeline.ReleaseImport.constructor` | sync/importer.py:353-363 | An import starts with empty statistics and a batch size of at least one. |
| `ImportPipeline.Database.AddReasons` | sync/state.py:199-221 | Each reason grows by its delta if positive and stays otherwise, in whatever order the reasons are visited. |
| `ImportPipeline.FeedIgnoresTable` | sync/importer.py:440 | When a flush happens does not depend on the table. |
| `Tallies.DeltasComplete` | sync/importer.py:372-385 | The positive deltas are exactly what the persisted reasons lack; when none is positive nothing is missing. |
| `Tallies.SumAdds` | sync/importer.py:372-385 | Counting reason by reason adds up to counting altogether. |
| `Tallies.SumIncrement` | sync/importer.py:421 | One more discard under a reason raises the sum of all reasons by one. |
| `RecordFolds.TombstoneClosedForm` | common/records.py:180-194 | A folded row is deleted exactly when some deleted record is followed by no other deleted one and by none with a timestamp strictly above every timestamp up to and including it. |
| `RecordFolds.TombstoneReason` | common/records.py:180-194 | A tombstone carries the reason of the record that buried the row and has stayed buried since; a row that is alive after a merge carries none. |
| `RecordFolds.ReplayChangesNothing` | common/records.py:111-197 | Folding a tombstone-free sequence, which did not raise, and then folding it again onto its own result: the second pass raises if and only if a record of highest score has no timestamp and fills a scalar while another record has a timestamp; otherwise it changes no field and no score. |
| `RecordFolds.StampedReplay` | common/records.py:111-197 | With timestamps everywhere neither pass raises and the second changes nothing. |
| `RecordFolds.SecondPassRaises` | common/records.py:136-139 | Witness: two records whose first pass merges and whose second raises. |
| `RecordFolds.TryFoldFromIsFold` | sync/importer.py:183-192 | The fold with its exception: it raises exactly where the first undecidable merge is, and otherwise has the values that the closed forms below describe. |
| `RecordFolds.ReplayProvenance` | common/records.py:158-169 | Provenance after a second pass that does not raise, against the first: the top-scoring records rewrite it in the same order, the others no longer touch collection and record id. |
| `RecordFolds.ListsClosedForm` | common/records.py:106-108 | After two or more records any array field is the first-occurrence deduplication of all inputs concatenated. |
| `RecordFolds.StrictBestDecides` | common/records.py:125-157 | A record scoring strictly above all others supplies every scalar it fills, wherever it arrived. |
| `RecordFolds.NewestBestDecides` | common/records.py:125-139 | A record of highest score that is strictly newer than every other supplies every scalar it fills, wherever it arrived. |
| `RecordFolds.FirstOfEqualsDecides` | common/records.py:136-139 | With all scores and timestamps equal the first record that fills a scalar supplies it. |
| `RecordFolds.LastTakeoverSupplies` | common/records.py:125-139 | In general a scalar is supplied by the last record that fills it first, outscores all before it, or ties with the best of them and is newer than all of them. |
| `RecordFolds.SupplierExists` | common/records.py:127-131 | Every scalar that some record fills has such a supplier. |
| `RecordFolds.FilledScalars` | common/records.py:127-131 | A scalar is filled in the fold exactly when some record filled it: nothing once filled becomes empty. |
| `RecordFolds.FoldScore` | common/records.py:196 | The carried score is the maximum of all scores, is attained, and never exceeds what the folded record itself scores. |
| `RecordFolds.FoldTimestamp` | common/records.py:170-176 | A timestamp is newer than the fold exactly when it is newer than every input. |
| `RecordFolds.FoldLatest` | common/records.py:170-176 | The timestamp of a fold is the greatest of its inputs, and absent exactly when none has one. |
| `RecordFolds.FoldKeepsKey` | common/records.py:142 | The folded record keeps the MD5 of the first. |
| `RecordFolds.BestCollection` | docs/data-model.md:113-114 | The collection is that of the best record ever seen, the last of them on a tie. |
| `RecordFolds.BestRecordId` | docs/data-model.md:113-114 | The same for the source record id, independently of the collection. |
| `RecordFolds.LastAacid` | docs/data-model.md:113-114 | The AACID is that of the last record that has one, whatever its score. |
| `RecordFolds.FirstCid` | common/records.py:177 | The IPFS cid is that of the first record that has one. |
| `RecordFolds.NoCid` | common/records.py:177 | If none has one, it is the absent or empty value of the last record. |
| `Records.MergeRecords` | common/records.py:111-197 | Raises exactly when scores tie, only one side has a timestamp and both fill some scalar; otherwise the merged record and score, whose scalars `Records.MergeScalarRule` describes. |
| `Records.MergeAgain` | common/records.py:111-197 | Merging the same record a second time raises if and only if it has no timestamp, the other one has, its score is no lower and it fills a scalar; otherwise the second merge changes nothing, tombstones included. |
| `Records.AbsorbIdempotent` | common/records.py:141-197 | The merged values absorb the same record without a trace. |
| `Records.UnstampedTieRaises` | common/records.py:136-139 | Witness: two records of one title, one without timestamp, raise in either order. |
| `Records.SecondMergeRaises` | common/records.py:136-139 | Witness: a better record without timestamp merges once and raises the second time. |
| `Records.MergeScalar` | common/records.py:127-139 | All eight scalars, of whatever type, obey the one preference rule, which `Records.MergeScalarRule` spells out. |
| `Records.MergeScalarRule` | common/records.py:127-139 | Who supplies a scalar in one merge, by values, scores and timestamps: the side that fills it; of two, the higher score; on a tie the incoming one exactly when its timestamp is strictly greater. |
| `Records.NewerTitleWins` | common/records.py:136-139 | Witness: of two titles of one score the newer wins in either order of arrival. |
| `Records.MergeList` | common/records.py:144-157 | All seven lists obey the one union rule. |
| `Records.ScalarsOrRaiseOutcome` | common/records.py:136-139 | Evaluating eight preferences that may each raise equals one decision: raise, or the merged scalars. |
| `Records.CarriedScoreIsLowerBound` | common/records.py:196 | A merged record scores at least the score that is carried for it. |
| `Records.StampedNeverRaises` | common/records.py:136-139 | Two records with timestamps always merge, and the result has one. |
| `Records.FillingScalarAddsWeight` | common/records.py:14-103 | Filling one more scalar raises the quality score by exactly its weight, whatever the others hold; year 0 and size 0 do not count as filled, series position 0 does. |
| `Records.FillingListAddsWeight` | common/records.py:14-103 | The same for the lists. |
| `Records.DocumentedWeights` | common/records.py:14-30 | What each field is worth by itself. |
| `Records.FalsyScoresNothing` | common/records.py:68-103 | Empty texts, year 0 and size 0 are worth as little as absent ones; series position 0 is worth one point. |
| `OrderedUnion.FromKeys` | common/records.py:106-108 | Inserting keys one at a time computes the ordered deduplication. |
| `OrderedUnion.UnionAssociative` | common/records.py:106-108 | The order-stable union is associative as a sequence operation. |
| `OrderedUnion.UnionIdempotent` | common/records.py:106-108 | Uniting with the same list again changes nothing. |
| `OrderedUnion.DedupIsFirstOccurrences` | common/records.py:106-108 | The union lists each value once, ordered by where it first appears. |
| `OrderedUnion.FirstOccurrencesUnique` | common/records.py:106-108 | That description determines the list. |
| `OrderedUnion.DedupLeft` | common/records.py:106-108 | Deduplicating a left part early makes no difference. |
| `OrderedUnion.DedupRight` | common/records.py:106-108 | Nor does deduplicating a right part early. |
| `OrderedUnion.DedupAbsorbs` | common/records.py:106-108 | Values already present add nothing. |
| `MetadataTable.FoldBatchPerKey` | sync/importer.py:183-192 | The batch dictionary holds, for each key that arrived and no other, the fold of that key's records in arrival order. |
| `MetadataTable.FoldBatchKeys` | sync/importer.py:183-192 | Every folded record sits under its own MD5. |
| `BatchBoundaries.ArrivalsAppend` | sync/importer.py:183-192 | The records of a key in a batch are those with its MD5, in order. |
| `BatchBoundaries.ImportedRow` | sync/importer.py:170-211 | The row of a key after an import into any table: its overwritten columns are those of the documented merge of the records in the last batch that names the key, although the key has all the records before that batch as well. |
| `BatchBoundaries.ImportedTombstone` | common/records.py:180-194 | An import deletes a row exactly when some record is buried in that last batch by itself, the documented merge when some record is buried in all; so a boundary can revive a tombstone and never buries one. |
| `BatchBoundaries.ImportedScalar` | sync/importer.py:52-79 | An overwritten scalar is filled after an import exactly when a record of the last batch fills it, in the documented merge when any record does. |
| `BatchBoundaries.ImportedList` | sync/importer.py:52-79 | A value is in a list column after an import exactly when a record of the last batch has it, in the documented merge when any record does. |
| `BatchBoundaries.ImportedKept` | sync/importer.py:68-78 | A coalesced column of the table stays exactly when no batch writes one. |
| `BatchBoundaries.ImportedScore` | sync/importer.py:75 | The score is the best of all records of the key and of the table, wherever the boundaries fall. |
| `BatchBoundaries.WrittenKept` | sync/importer.py:68-78 | A coalesced column is that of the last batch that writes any value into it, NULL if none does. |
| `BatchBoundaries.BatchKept` | sync/importer.py:68-70 | A batch leaves a coalesced scalar NULL exactly when none of its records of the key fills it and the first has no value at all. |
| `BatchBoundaries.BoundaryLosesScalarIff` | sync/importer.py:52-79 | One boundary: a scalar filled before it is lost exactly when no record behind it fills it, unless it is coalesced and the first of them has no value at all. |
| `BatchBoundaries.SameArrivals` | sync/importer.py:440-441 | The batch size decides where the boundaries fall, not which records of a key arrive nor their order. |
| `BatchBoundaries.SplitExists` | sync/importer.py:440-441 | Every key of a payload has a last batch that names it. |
| `BatchBoundaries.ImportedIsWritten` | sync/importer.py:405-450 | An import is its batches, written in turn. |
| `BatchBoundaries.StoredColumn` | sync/importer.py:129-166 | What one batch leaves in a scalar column, in terms of its records. |
| `BatchBoundaries.StoredLists` | sync/importer.py:142-153 | What one batch leaves in a list column, in terms of its records. |
| `BatchBoundaries.BuriedOnTheRight` | common/records.py:180-194 | A record buried on the right of a boundary is buried in the whole. |
| `BatchBoundaries.BoundaryRevivesTombstone` | sync/importer.py:76 | Witness: a record older than a tombstone leaves it alone within a batch and revives it across a boundary. |
| `BatchBoundaries.BoundaryEmptiesTitle` | sync/importer.py:53 | Witness: a record with an empty title takes the title away across a boundary. |
| `MetadataTable.UpsertLosesColumnIff` | sync/importer.py:52-78 | An upsert takes the value of a filled scalar column exactly when the new value is empty or absent, and not merely absent in a coalesced column. |
| `MetadataTable.ApplyAssociative` | sync/importer.py:52-78 | Writing two sets of rows in turn is writing their combination. |
| `MetadataTable.UpsertAssociative` | sync/importer.py:52-78 | Three upserts of one row may be grouped either way. |
| `MetadataTable.AbsorbedIff` | sync/importer.py:68-78 | An earlier write leaves no trace under a later one exactly when every coalesced column it filled is filled again and no score is higher. |
| `MetadataTable.RowAbsorbedIff` | sync/importer.py:68-78 | The same for one row. |
| `MetadataTable.DeltaPrefixBelow` | sync/importer.py:183-207 | What a part-filled batch would write is covered by what the full batch writes. |
| `MetadataTable.MergeNullsColumnIff` | common/records.py:177 | A later merge in a batch turns a coalesced column from non-NULL to NULL exactly when an empty cid meets an absent one. |
| `MetadataTable.BatchRaisesIff` | sync/importer.py:183-192 | A batch raises exactly when the fold of one of its keys does. |
| `MetadataTable.StampedBatchNeverRaises` | sync/importer.py:183-192 | A batch whose records all carry a timestamp folds. |
| `MetadataTable.ColumnHoldsField` | sync/importer.py:129-166 | No scalar lands in another scalar's column; all texts but the extension lose their NUL characters, and nothing else (`MetadataTable.StripNulMeaning`). |
| `MetadataTable.StripNulMeaning` | sync/importer.py:122-126 | Stripping a text removes its NUL characters and leaves every other one in place. |
| `MetadataTable.NonEmptyMeaning` | sync/importer.py:142 | Dropping empty author names leaves the others in order. |
| `MetadataTable.RowHoldsRecord` | sync/importer.py:129-166 | The row of a record whose texts hold no NUL has every text, number, list, origin, tombstone and reason of the record in its own column. |
| `MetadataTable.BatchTombstone` | sync/importer.py:183-196 | The row written for a key is deleted exactly when one of the batch's records for it is never outdated. |
| `MetadataTable.BatchBestDecides` | sync/importer.py:183-196 | The strictly best record of a key in a batch decides every column it fills. |
| `MetadataTable.BatchScore` | sync/importer.py:194-196 | The written score is the highest that any record of the key reached. |
| `MetadataTable.BatchLists` | sync/importer.py:142-153 | Each list column holds the ordered union of that field over all records of the key, and no other field. |
| `MetadataTable.WorkKeyIsStable` | common/normalize.py:220-236 | The work key comes from the best kind of identifier that any record of the key has, in the order ISBN-13, ISBN-10, DOI, OpenLibrary, and from the first record that has it; no later record of the batch moves it. |
| `MetadataTable.WorkKeyOfRow` | common/normalize.py:220-236 | Prefix and precedence of the four kinds of identifier. |
| `MetadataTable.NoWorkKey` | common/normalize.py:220-236 | Without any of them there is none. |
| `FrameRecovery.RecoversIff` | sync/importer.py:249-297 | On intact frames separated by damage without decodable magic, the scanner commits exactly the intact frames, in order, if and only if no frame's magic is cut by a window edge. |
| `FrameRecovery.RecoversFromDamageIff` | sync/importer.py:249-290 | The same, decided gap by gap, with broken frames whose magic survived: the intact frames are recovered if and only if in every gap the windows that start one byte past the last magic noticed in it, or at its beginning, leave the next frame's magic whole. |
| `FrameRecovery.NoticedIff` | sync/importer.py:251-259 | A magic is overlooked exactly when it begins in the last three places of a window of that grid. |
| `FrameRecovery.BrokenRestart` | sync/importer.py:286-289 | In a gap that is one broken frame the grid starts one byte past its magic. |
| `FrameRecovery.PlainRestart` | sync/importer.py:256-258 | In a gap without magic it starts at the beginning of the gap. |
| `FrameRecovery.RecoversFromPlainDamageIff` | sync/importer.py:249-259 | With damage that contains no magic, such as the zero bytes of missing pieces, that is exactly when no gap length leaves a remainder above `chunk - 4`. |
| `FrameRecovery.OverlookedFrame` | sync/importer.py:255-258 | Otherwise the frame behind such a gap is lost. |
| `FrameRecovery.SomeFrameIsOverlooked` | sync/importer.py:245-258 | Witness, for every chunk size: an intact frame behind zero bytes that is never committed. |
| `FrameRecovery.RecoveredFrames` | sync/importer.py:249-297 | What is committed when frames are overlooked: each frame that fits the grid in force, which starts anew behind it; every other one counts as part of the next gap. |
| `FrameRecovery.ScanIsRecovered` | sync/importer.py:249-297 | The same for a scan that starts before an overlooked region. |
| `FrameRecovery.ChunkIndependence` | sync/importer.py:261-297 | On an undamaged file every read-chunk size of four bytes or more yields every frame, at its exact length. |
| `FrameRecovery.RecoveredLines` | sync/importer.py:292-296 | The lines read are those of the intact frames, frame after frame, and no others. |
| `FrameRecovery.LinesOfLayout` | sync/importer.py:292-296 | Lines of committed frames depend on the frame's bytes alone, not on what surrounds it. |
| `FrameRecovery.ScanIsSound` | sync/importer.py:249-297 | On any bytes whatever, committed frames start at a magic, decode, are disjoint and increase. |
| `FrameRecovery.ScanGap` | sync/importer.py:252-259 | Past a gap without decodable magic the next frame is taken whole, or never. |
| `FrameRecovery.StreamingDecodersExist` | sync/importer.py:263 | The laws asked of the decoder are consistent. |
| `Frames.ScanFrames` | sync/importer.py:233-297 | Both loops end; the lines are those of the committed frames, and what is reported is the end of each committed frame. |
| `FrameRecovery.FrameLinesMeaning` | sync/importer.py:291-297 | The lines of a payload are, frame after frame, those of what each intact frame decodes to. |
| `Frames.ScanOnce` | sync/importer.py:249-297 | One round of the outer loop advances and agrees with the scan. |
| `Frames.DecodeFrame` | sync/importer.py:261-284 | Feeding chunk by chunk reaches the verdict of decoding all remaining bytes at once, with the exact length of the frame. |
| `Frames.DecompressObj.Decompress` | sync/importer.py:273-281 | New output, end of frame and unused bytes of a streaming decoder. |
| `Frames.FindInWindow` | sync/importer.py:251-259 | Searching a window is searching the file between its edges. |
| `Cursors.CursorRoundTrip` | app/search.py:59-77 | For every rank and every 16-byte MD5, and with every reader of base64 and JSON that understands the encoder, the cursor decodes to what it was made from if the rank has at most 105 characters, and is rejected otherwise. |
| `Cursors.CursorInjective` | app/search.py:59-61 | Two rows never share a cursor. |
| `Cursors.AcceptedCursorIsUsable` | app/search.py:64-77 | Any accepted string, however lenient base64 and JSON parsing are, names a 16-byte key. |
| `Cursors.AcceptedText` | app/search.py:64-77 | An accepted cursor has 1 to 200 characters of the alphabet, but for one final newline, and carries what the reader made of it. |
| `Cursors.RenderedText` | app/search.py:59-61 | The text that is encoded. |
| `Cursors.StrictReads` | app/search.py:67-71 | A reader that accepts nothing but the encoder's layout understands the encoder. |
| `Cursors.WireStripped` | app/search.py:61-68 | An encoded cursor matches the pattern, has the expected length, and padding restores it. |
| `Cursors.ParseRender` | app/search.py:60 | The JSON text of a cursor reads back. |
| `Base64Url.DecodeEncode` | app/search.py:61 | base64url decoding inverts encoding for payloads of every length (section 5 of RFC 4648). |
| `Base64Url.StrippedRoundTrip` | app/search.py:59-70 | It still does after stripping and restoring the padding (section 3.2 of RFC 4648). |
| `Base64Url.StripEncode` | app/search.py:61 | Restoring `=` by `-len % 4` undoes the strip, and the stripped text has only alphabet symbols and the expected length. |
| `Base64Url.SymbolTable` | app/search.py:59-61 | The alphabet is that of section 5 of RFC 4648. |
| `Base64Url.TestVectors` | app/search.py:59-61 | Test vectors of section 10 of RFC 4648. |
| `Base64Url.HexRoundTrip` | app/search.py:183 | A key survives the hexadecimal form. |
| `Base64Url.FromHexTotal` | app/search.py:183 | Every even-length string of hexadecimal digits is a key. |
| `Keyset.NeverRepeats` | app/search.py:178-189 | However the table changes between pages, a traversal lists keys in strictly ascending order, so none twice, provided no rank comes back from a cursor higher than it went in. |
| `Keyset.ReturnedOnce` | app/search.py:178-189 | Under the same proviso no (rank, md5) key occurs at two places of a traversal. |
| `Keyset.SteadyRowsAreReturned` | app/search.py:178-189 | In a traversal that ran to a null cursor every row that stayed visible under one key is returned, whatever happened to the others, provided no rank comes back lower. |
| `Keyset.NothingComesBackIff` | app/search.py:182-188 | For every last row: its cursor selects nothing at or before it, in any table, if and only if the rank did not rise on its way. |
| `Keyset.NothingIsSkippedIff` | app/search.py:182-188 | It selects everything behind it, in any table, if and only if the rank did not fall. |
| `Keyset.EqualRanksAreSkipped` | app/search.py:186 | After a fall all rows of the same rank behind the last one are skipped. |
| `Keyset.RisenRankRepeats` | app/search.py:186 | After a rise the second page of an unchanging table begins with a row of the first. |
| `Keyset.RisenRankNeverEnds` | app/search.py:186 | Where all rows have one rank and it rises, every request returns the first page again and the traversal never ends. |
| `Keyset.TenthIsSkipped` | app/search.py:263 | Witness: the `real` 0.1 comes back lower, and the second of two rows with that rank is skipped. |
| `Keyset.SevenTenthsNeverEnd` | app/search.py:263 | Witness: the `real` 0.7 comes back higher, and two rows with that rank, one per page, are never left. |
| `Keyset.RoundedTenths` | app/search.py:263 | The four numbers are the nearest with 24 and with 53 significant bits, and compare as stated. |
| `Keyset.RepeatedMd5HasLowerRank` | app/search.py:185-188 | An MD5 that comes back has a lower rank than before. |
| `Keyset.UnchangingTable` | app/search.py:246-265 | On an unchanging table whose ranks survive the cursor the pages concatenate to the full sorted result and the traversal ends, with no more pages than the limit requires. |
| `Keyset.PagesOfUnchangingTable` | app/search.py:246-265 | The same from any cursor. |
| `Keyset.PageSplits` | app/search.py:252-265 | A page is the beginning of what remains; it has a cursor exactly when more than `limit` rows remain, and that is its last row. |
| `Keyset.PageOrder` | app/search.py:178-189 | Within a page ranks descend, and at equal ranks the earlier row has the smaller byte at the first place where the two keys differ. |
| `Keyset.TotalLowerBound` | app/search.py:246-265 | The reported total is the number of rows that remain, or one more than the page when there are more. |
| `Keyset.RemainingIff` | app/search.py:178-189 | Which rows remain after a cursor, by rank and bytes. |
| `Keyset.RemainingAfter` | app/search.py:185-188 | The keyset predicate of a row selects exactly the rows sorted behind it. |
| `Keyset.SortedIsSorted` | app/search.py:185-188 | The ordering used lists exactly the given keys, ascending in the order that `Keyset.BeforeIff` spells out. |
| `Keyset.SortedUnique` | app/search.py:185-188 | There is only one such listing. |
| `Keyset.BeforeTotal` | app/search.py:185-188 | `rank DESC, md5 ASC` (`Keyset.BeforeIff`) is a strict total order ... |
| `Keyset.BeforeTransitive` | app/search.py:185-188 | ... and transitive. |
| `Keyset.BeforeIff` | app/search.py:185-188 | A row comes before another when its rank is higher, or at equal ranks when its key is the smaller. |
| `Keyset.LexLessIff` | app/search.py:185-188 | A key is smaller when at the first difference it ends or has the smaller byte. |
| `StallDetector.RunningTimeBound` | sync/torrent_client.py:192-335 | A download that still runs has taken at most `total` times (patience + poll interval) plus one patience, patience being the checking grace plus max(1800, window at 99%). |
| `StallDetector.TimeBoughtByProgress` | sync/torrent_client.py:213-216 | Each new value of `total_done` buys at most one patience and one poll interval. |
| `StallDetector.PatienceBoundsUnchanged` | sync/torrent_client.py:306-316 | While the loop continues, the last change of `total_done` is no further back than the patience. |
| `StallDetector.PatienceIsReached` | sync/torrent_client.py:217-232 | That bound is attained, for all limits. |
| `StallDetector.NoFalseStall` | sync/torrent_client.py:300-316 | A stall is raised only after more than 900 seconds without change, never for a finished torrent, and never while checking below 99% within the grace. |
| `StallDetector.TailStallsExactlyAtLimit` | sync/torrent_client.py:220-228 | With every poll since the last change at 99% or more, the stall comes exactly when max(900, window) is exceeded: a checking state cannot delay it. |
| `StallDetector.ClockTracksLastChange` | sync/torrent_client.py:213-232 | The stall clock starts at the last change, and checking moves it by no more than the grace. |
| `StallDetector.TailClock` | sync/torrent_client.py:220-228 | In the tail checking does not move it at all. |
| `StallDetector.GrowsWithProgressIff` | sync/torrent_client.py:63-81 | The timeout scales up with progress, as its description says, exactly when the window at 99% (or the base) is at least 1800 seconds; with the default of 900 it does not. |
| `StallDetector.AdaptiveStallTimeout` | sync/torrent_client.py:63-81 | The timeout lies between the base and the longest window. |
| `StallDetector.StallsIff` | sync/torrent_client.py:213-316 | When a poll ends in a stall, in seconds: 900, 1200 from 90%, 1800 from 95%, and the window or 900 from 99%, since the last poll that set the clock; when it ends finished. |
| `StallDetector.StallClock` | sync/torrent_client.py:213-232 | The clock shows the last poll that changed `total_done` or was a check below 99% within the grace after the change. |
| `StallDetector.TorrentClient.DownloadWithHandle` | sync/torrent_client.py:192-316 | The loop ends at the first poll whose verdict is finished or stalled, with that verdict. |
| `SyncOutcomes.RunSync` | sync/run.py:345-551 | A run refuses while another session holds the lock and then changes nothing; it always leaves the lock as it found it; when it returns, the outcome partition holds; when it is interrupted, rows, modes and lists are those of discovery, the jobs that ended and the one that was stopped. |
| `SyncOutcomes.StoppedRun` | sync/run.py:225-229 | An interrupted run, collection by collection: those that ended are reported as in a full run, the stopped one is back to discovered, and the rest stand where discovery put them, importing or downloading, in no list and with their mode unchanged. |
| `SyncOutcomes.RunPartition` | sync/run.py:370-545 | For every order in which downloads end: each wanted collection with a release is in exactly one of processed, skipped, blocked and failed, its row is completed, completed, blocked_storage or failed to match, its mode is updated exactly when it was processed, and rows of nothing wanted keep their status. |
| `SyncOutcomes.CompletionOrderIrrelevant` | sync/run.py:510-545 | Given the outcome of each download and import, every completion order of the parallel path gives the rows, modes and sets of the sequential path. |
| `SyncOutcomes.SettleAllClosed` | sync/run.py:193-237 | What a list of jobs does to rows, modes and summary, described without its order. |
| `SyncOutcomes.DiscoverAllClosed` | sync/run.py:370-449 | What discovery does to rows, lists and job dictionaries, described collection by collection from the initial rows. |
| `SyncOutcomes.PlanStable` | sync/run.py:424-433 | A collection listed twice is planned the second time as the first. |
| `SyncOutcomes.AsCompleted` | sync/run.py:510 | Downloads may end in any order, each once. |
| `SyncRun.SyncRunSummary.DiscoverReleases` | sync/run.py:366-449 | The discovery loop computes the discovery. |
| `SyncRun.SyncRunSummary.DiscoverRelease` | sync/run.py:370-449 | One collection: no release, retained payload, already completed, blocked, or to download; `SyncRun.PlanIff` says which. |
| `SyncRun.PlanIff` | sync/run.py:370-449 | When each happens, in the fields: a retained payload exactly in mode import with a non-empty last release and a payload present; else skipped when completed and not forced, blocked when the guard refuses, downloaded otherwise. |
| `SyncRun.OutcomeCases` | sync/run.py:499-545 | A complete download is imported strictly, a partial one resiliently, a failed one fails the release. |
| `SyncOutcomes.RetainedOnce` | sync/run.py:376-421 | Two runs: a collection that the first processed has no retained payload to import in the second. |
| `SyncOutcomes.ProcessedIsSkipped` | sync/run.py:431-440 | Two runs: a processed release that is still the newest is skipped unless forced. |
| `SyncOutcomes.FailedIsRetried` | sync/run.py:431-449 | Two runs: a failed release is downloaded or imported again. |
| `SyncRun.SyncRunSummary.ImportRetained` | sync/run.py:452-461 | Retained payloads are imported in order until one is stopped. |
| `SyncRun.SyncRunSummary.RunDownloads` | sync/run.py:243-316 | Downloads are settled in order until one is stopped, in either path. |
| `SyncRun.SyncRunSummary.FinishDownload` | sync/run.py:510-539 | A download that failed counts like a failed import; a complete or partial one is imported. |
| `SyncRun.SyncRunSummary.ImportPayload` | sync/run.py:148-237 | Final status, mode and summary entry for each import outcome. |
| `SyncRun.SettleRest` | sync/run.py:225-229 | After a stop nothing else happens. |
| `SyncRun.Database.EnsureRelease` | sync/state.py:107-127 | An unknown release is inserted as discovered with the given torrent hash; a known one keeps its status, and its hash unless a new one is given. |
| `SyncRun.Database.TryLock` | sync/state.py:97-100 | The lock is taken exactly when free or already held by the same session. |
| `SyncRun.Database.Unlock` | sync/state.py:103-104 | Undoes one acquisition of the same session and nothing else. |
| `Commands.PauseAgreementIff` | app/routes/control.py:201-206 | For every interleaving of API requests, overlapping ones included, with the worker: whenever no pause or resume waits for the worker, the flag is what the last one issued asked for exactly when no handler has written since the worker applied it, or the last that has asked for the same. |
| `Commands.PauseAgreement` | app/routes/control.py:201-206 | With requests one at a time that is always so, even while the last request has yet to write. |
| `Commands.OverlapDisagrees` | app/routes/control.py:201-206 | Witness: pause and resume overlap, the pause writes last, and the flag stays up although resume was issued last. |
| `Commands.AppliedExactlyOnce` | sync/state.py:46-63 | Every command is applied exactly once, in the order issued; when queue and worker are idle, all have been. |
| `Commands.WorkerKnows` | sync/worker.py:119 | With requests one at a time, a worker that has polled and left no pause or resume behind knows the agreed state. |
| `Commands.AlwaysSerial` | sync/worker.py:104-119 | The invariant behind the last two. |
| `Commands.AlwaysInvariant` | sync/worker.py:104-119 | The invariant over every interleaving: the flag is what the last handler wrote since the worker last wrote it, or else what the applied commands ask for. |
| `Commands.NextKeepsInvariant` | sync/worker.py:104-119 | Each atomic statement of either side keeps it. |
| `Commands.RunInterruptedIff` | sync/worker.py:163-216 | Whatever flag the last poll reads: a run is interrupted at its first line exactly when that flag is down but a pause was polled that no interrupted run has used up; so pausing never interrupts the run under way. |
| `Commands.SkippedIff` | sync/worker.py:163-216 | A turn is skipped exactly when the flag it reads is up, and runs to the end in the remaining cases. |
| `Commands.AskedIff` | sync/worker.py:104-119 | What a queue of commands asks for: its last pause or resume decides. |
| `Commands.ShutdownFlagIff` | sync/importer.py:87-99 | The importer's shutdown flag is up exactly when some pause was polled that no interrupted run has used up since. |
| `Commands.ResumedRunIsInterrupted` | sync/worker.py:111-115 | Witness: pause, resume, and the next run is interrupted all the same. |
| `Commands.UnclaimedResumeIsInterrupted` | sync/worker.py:119 | Witness: so is a run started because the API took the flag down after the pause was claimed. |
| `Commands.CommandPoller.Poll` | sync/worker.py:96-119 | A poll empties the queue and leaves flag, request and shutdown flag as the claimed commands ask. |
| `Commands.ControlStore.PostCommand` | app/routes/control.py:201-206 | Queue and flag after one API request. |
| `Commands.ControlStore.PopPending` | sync/state.py:46-63 | Claims everything, oldest first. |
| `CountCache.AtMostOneRefresh` | app/routes/dashboard.py:142-153 | Over every interleaving of requests and refresh threads at most one refresh lives, and the refresh key is set exactly while one does. |
| `CountCache.AnswersAreFresh` | app/routes/dashboard.py:137-140 | Counts returned under a key were taken after that key was first read from the database. |
| `CountCache.NewKeyStartsEmpty` | app/routes/dashboard.py:117-122 | Under a key never seen before a request gets nothing rather than old counts. |
| `CountCache.AskIff` | app/routes/dashboard.py:126-157 | A request gets counts of its own key only, and starts a refresh exactly when none runs and they are not younger than a minute. |
| `CountCache.AnswersWereCounted` | app/routes/dashboard.py:62-95 | Counts returned under a key are those that a refresh for that key counted at the time that goes with them. |
| `CountCache.RefreshStores` | app/routes/dashboard.py:98-108 | A refresh that counted leaves its counts when it ends, one that failed leaves the cache alone. |
| `CountCache.RefreshCanRestart` | app/routes/dashboard.py:98-108 | However a refresh ends, the next request without a fresh hit can start another. |
| `CountCache.AlwaysInvariant` | app/routes/dashboard.py:99-157 | The invariant behind these, over every interleaving. |
| `CountCache.NextKeepsInvariant` | app/routes/dashboard.py:99-157 | Each locked section and each step of a thread keeps it. |
| `CountCache.Globals.CurrentCollectionCounts` | app/routes/dashboard.py:126-157 | The locked section of a request, including a thread that fails to start. |
| `CountCache.Globals.FinishRefresh` | app/routes/dashboard.py:98-108 | The locked section at the end of a refresh. |
| `Isbn.NormalizeIsbnList` | common/normalize.py:100-123 | Raises exactly when some value does; otherwise the ISBN-10 list is empty and the ISBN-13 list holds the distinct normal forms in first-occurrence order. |
| `Isbn.ValidIsbn10Converts` | common/normalize.py:67-73 | Every checksum-valid ISBN-10 converts to a valid 978 ISBN-13 with the same nine digits, unless an `X` before the last place makes the conversion raise, which it does exactly then. |
| `Isbn.ConversionInjective` | common/normalize.py:67-73 | Different ISBN-10s have different ISBN-13s. |
| `Isbn.CheckDigitCompletes` | common/normalize.py:70-72 | The computed check digit completes the weighted sum to a multiple of ten. |
| `Isbn.Isbn13Iff` | common/normalize.py:60-64 | The ISBN-13 checksum, digit by digit. |
| `Isbn.Isbn10Iff` | common/normalize.py:52-57 | The ISBN-10 checksum, digit by digit, a last `X` counting ten. |
| `Isbn.NormalizeIsbn13Iff` | common/normalize.py:76-85 | Which values have which ISBN-13: a valid one of any prefix is its own, a valid ISBN-10 has the valid 978 code of its nine digits, and nothing else has one. |
| `Isbn.EarlyXRaises` | common/normalize.py:52-57 | Witness: X00000000X passes the checksum and then raises. |
| `Isbn.Isbn10IsAbsorbed` | common/normalize.py:113-122 | A value with a valid ISBN-10 form always has an ISBN-13 form or raises, so the ISBN-10 branch never appends. |
| `Isbn.LookupAgreement` | app/search.py:122-134 | A search hits an indexed record exactly when one of its identifiers has the normal form of the query. |
| `Isbn.FilterIff` | app/search.py:122-134 | The search accepts a value exactly when it has an ISBN-13 form, and asks for that form. |
| `Isbn.BothFormsAgree` | common/normalize.py:76-85 | An ISBN-10 and its conversion normalize alike, so either form finds what was indexed from either. |
| `Isbn.NormalFormsMembers` | common/normalize.py:107-117 | A code is listed exactly when some value normalizes to it. |
| `Isbn.CleanIdempotent` | common/normalize.py:80 | Cleaning twice is cleaning once, and no separator survives. |
| `Isbn.CleanMeaning` | common/normalize.py:76-80 | Cleaning goes character by character. |
| `Isbn.CleanOne` | common/normalize.py:76-80 | A character is dropped if it is a separator, and else upper-cased. |
| `Isbn.CleanAfterDrop` | app/search.py:124 | The search's own removal of hyphens and spaces makes no difference. |

## Left out

- `ImportResume.ReimportConverges`: after a shutdown it requires that no record has an empty `ipfs_cid`; `ImportResume.ShutdownConvergesIff` covers every payload.
- `ImportResume.ImportCrashedThenResumed`: the process dies between two lines; a death between the commit of a batch and the update of the counters leaves those inserts uncounted and is not covered. Both runs import the same payload for the same release row.
- `ImportPipeline.ReleaseImport.Run`: the shutdown flag is given as the first line at which it is seen, the error rate is a real number, and the statements never fail in the database.
- `RecordFolds.ReplayChangesNothing`: for records that are alive, kept, without a removal or discard reason and without repetitions inside a list; a tombstone can be revived on replay.
- `BatchBoundaries.ImportedScalar`: for texts that do not consist of NUL characters only; such a text counts as filled in the merge and is stored as an empty one (`MetadataTable.ColumnHoldsField`).
- `FrameRecovery.RecoveredFrames`: for intact frames without a decodable magic inside them; an overlooked frame with one is covered by `FrameRecovery.ScanIsSound` only.
- `Frames.ScanFrames`: the decoder, UTF-8 decoding and line splitting are functions with the laws stated in `Streaming`; lines are collected instead of yielded, so a consumer that stops early is not modelled.
- `Cursors.CursorRoundTrip`: what base64 decoding, `json.loads` and `float` accept beyond the encoder's output is an arbitrary function.
- `Keyset.SteadyRowsAreReturned`: how a rank changes on its way through a cursor is an arbitrary function; single and double precision are modelled only for the ranks of the witnesses; `limit` is at least one, as the route demands.
- `StallDetector.TorrentClient.DownloadWithHandle`: works on a sequence of observations and stops with `Running` when they end; times are real numbers.
- `SyncOutcomes.RunPartition`: releases, retained payloads, storage refusals and the outcome of each download and import are fixed for the run; failures of the status updates themselves are not modelled.
- `Commands.PauseAgreement`: for requests that do not overlap; `Commands.PauseAgreementIff` covers the others. There is one worker, which does not crash between claiming and applying; `FOR UPDATE SKIP LOCKED` among several workers is not modelled.
- `CountCache.AnswersAreFresh`: without `_reset_collection_count_cache`, which only tests call.
- `Isbn.NormalizeIsbnList`: digits and upper-casing are ASCII, all values are strings.
- URL, size, messages and times of a release row are not columns of the model; the reset of its counters is `Database.Reset` of `ImportPipeline`.
- `title_norm`, `author_tokens`, `search_tsv`, `created_at`, `updated_at`: derived or automatic columns, field plumbing.
- Error samples, discard samples, progress bytes and performance buckets: bounded logs with easy properties.
- The non-resilient reader (`stream_reader`): one foreign call.
- Column widths (`SMALLINT`, text limits) and failures of PostgreSQL.
- Full-text queries and ranks, and the search filters other than ISBN: SQL text passed to PostgreSQL.
- Torrent sessions, re-announcing, the magnet fallback, peer logging, seed-base hard links and file moves.
- Manifest discovery, schedule arithmetic, the storage guard's arithmetic, purge, filter analysis, source adapters, HTML, authentication and migrations.
- Signals and worker stop: only the pause path to the shutdown flag is modelled.
