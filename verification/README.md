# LevelDB 1.18, Snappy 1.1.0 and the region file, modelled and proved

This project models three pieces of storage code of the repository in Dafny and proves what they are
for.

- **LevelDB**, a log-structured store. Compaction, point lookup and iteration are proved against one
  reference, the map of each user key to its newest entry at a snapshot. The commit protocol is a
  machine of atomic steps (what happens while the mutex is held, and each store or file operation
  done without it), with invariants over every run. The log, the tables, the manifest, the skip list
  and the cache are modelled with their state and their bytes.
- **Snappy**, the block compressor. Compressor, decompressor and the writers' fast paths are proved
  against the meaning of the compressed format, for every hash function and every way a source cuts
  its bytes into pieces.
- **The region file**, a first-fit sector allocator for chunks.

`dafny verify dfyconfig.toml` checks everything.

## How the model is organised

| part | modules |
|---|---|
| entries, compaction, overlap, lookup, versions | Entries, Compaction, CompactionMeaning, CompactionInstall, Overlap, VersionGet, VersionRun |
| iteration | Cursor, DbIter, EntryCursor, MergingIterator, TwoLevelIterator |
| commit and durability | CommitProtocol, CommitInvariant, CommitMeaning, CommitDurability, CommitReads, CommitRecovery, CommitProgress, WriteBatch |
| write-ahead log | LogFormat, LogWriter, LogScan, LogReader |
| memtable | SkipList, SkipListReaders |
| tables | Coding, BlockFormat, BlockBuilder, BlockIterator, Comparator, Bloom, FilterBlock, TableBuilder |
| cache, manifest | HandleTable, LruCache, EditHistory, Manifest, VersionEdit, ManifestRecovery |
| Snappy | Bits, SnappyFormat, SnappyEncoding, SnappyCompress, SnappyStream, SnappyWriter, SnappyDecompress |
| region file | RegionFormat, RegionFile |

Classes and loops stand where the source has fields that change and loops; each method is stated
against a specification function or predicate, and the theorems are about those. What the outside
world decides is a parameter: the hash functions, the checksum step, the height of a skip-list node,
the size of an encoded block, the cuts of a byte source, the clock.

A user key is a real number in the modules that only compare user keys. There are countably many byte
strings, so any order a comparator can put them in embeds in the order of the reals; the key stands
for its place. Where the bytes of a key matter (blocks, tables, filters, the manifest), keys are byte
strings under the bytewise comparator.

Three promises do not hold of the code in every case; each has its failing input and its exact
condition:

- A compaction may bring old values back. When two files of a level meet in a user key and only the one
  with the newer entry is an input, readers get the older entry (`CompactionInstall.OldValueReturns`).
  Installing is right exactly if what stays at the upper level is newer than the outputs of its user
  keys, and no dropped deletion uncovers a value left behind (`CompactionInstall.InstallExactly`).
- A builder may list a file twice. When a file of the base is deleted and added again, the saved list
  has it twice and the replay once (`Manifest.ListedTwice`). The saved list is the replay exactly if,
  among the numbers not finally deleted, no file of the base was deleted or added again, and the first
  file added of its kind is the one added since the last deletion (`EditHistory.SavedIsReplay`).
- Decoding a version edit does not forget the compaction pointers of the edit it decodes into. It undoes
  encoding exactly if there were none (`VersionEdit.RoundTrip`).

Assumptions that are hypotheses of theorems, because the source does not enforce them:

- The smallest snapshot is below the largest sequence number.
- A region file stays below two gigabytes, where the source's `int` positions are right
  (`RegionFormat.SeekExact`).
- A block, a filter block and a log record stay below 2^32 bytes, as their 32-bit fields demand.

Two places where the code is subtler than its comments suggest: the shortened separator of two blocks
must have a user key strictly before that of the next block, not merely be a smaller internal key, for
a lookup at the largest sequence number to look in the right block (`Comparator.InternalSeparator`,
`TableBuilder.OnlyBlock`); and the cached data block of a two-level iterator is reused only when the
index names the same block again (`TwoLevelIterator.TwoLevelIterator.InitDataBlock`).

## Model

| member | source | states |
|---|---|---|
| Entries.NewestUnique | app/src/main/jni/leveldb-1.18/db/dbformat.h:70-80 | with distinct (user key, sequence) pairs, the newest visible entry of a key decides the lookup |
| Entries.MissingMeansNone | app/src/main/jni/leveldb-1.18/db/version_set.cc:330-420 | a source answers nothing for a key exactly when it has no entry of the key at or below the snapshot |
| Compaction.Compaction.IsBaseLevelForKey | app/src/main/jni/leveldb-1.18/db/version_set.cc:1434-1453 | for any nondecreasing sequence of keys, the advancing cursors answer as a stateless search of every deeper file would |
| Compaction.Compaction.ShouldStopBefore | app/src/main/jni/leveldb-1.18/db/version_set.cc:1455-1475 | true exactly when the grandparents passed since the output began have more bytes together than the limit; the cursor then stands at the first grandparent that does not end before the key, and the count starts again |
| Compaction.PassedBounds | app/src/main/jni/leveldb-1.18/db/version_set.cc:1455-1475 | an output cut that way overlaps grandparents of which all but the last have together at most the limit |
| Compaction.DoCompactionWork | app/src/main/jni/leveldb-1.18/db/db_impl.cc:855-976 | the loop keeps exactly the entries that are neither shadowed for every live snapshot nor obsolete deletions, in order, whatever the output cuts; every output is below the size limit before its last entry and bounded in the grandparent bytes that it overlaps; and every output but the last reached the size limit or was cut for its grandparents |
| Compaction.AddToOutput | app/src/main/jni/leveldb-1.18/db/db_impl.cc:951-973 | an output under construction gains exactly the entry added, with the right smallest and largest key, and is finished exactly when it reaches the size limit |
| Compaction.LastSequenceDecides | app/src/main/jni/leveldb-1.18/db/db_impl.cc:913-939 | remembering one sequence number is enough: the entry just before decides whether any earlier one shadows this one |
| CompactionMeaning.SurvivorsMembers | app/src/main/jni/leveldb-1.18/db/db_impl.cc:884-976 | an entry survives if and only if some position of the input holds it and the two drop rules spare it |
| CompactionMeaning.SurvivorsSorted | app/src/main/jni/leveldb-1.18/db/db_impl.cc:884-976 | the survivors are sorted, as the table builder demands |
| CompactionMeaning.OutputsDisjoint | app/src/main/jni/leveldb-1.18/db/db_impl.cc:951-973 | the output tables are sorted and each ends before the next begins |
| CompactionMeaning.SurvivorsAnswer | app/src/main/jni/leveldb-1.18/db/db_impl.cc:913-939 | for a key in the inputs, the survivors above the deeper levels answer like the inputs above them, at every snapshot from the smallest on |
| CompactionMeaning.SearchIsLookup | app/src/main/jni/leveldb-1.18/db/version_set.cc:330-420 | searching sources newest first equals one lookup in all entries, when newer data sits above older data |
| CompactionInstall.NewerAboveExactly | app/src/main/jni/leveldb-1.18/db/db_impl.cc:834-853 | the installed version has newer data above older data if and only if what stays at the upper level is newer than the outputs of its user keys |
| CompactionInstall.InstallExactly | app/src/main/jni/leveldb-1.18/db/db_impl.cc:834-853 | newer data stays above older data and no reader at or above the smallest snapshot can tell, if and only if that holds and no dropped deletion that readers see uncovers a value left behind at the two levels |
| CompactionInstall.AnswerChanges | app/src/main/jni/leveldb-1.18/db/db_impl.cc:913-939 | a dropped deletion that uncovers a value changes what a reader at the smallest snapshot gets |
| CompactionInstall.OldValueReturns | app/src/main/jni/leveldb-1.18/db/version_set.cc:1297-1382 | two files of a level that meet in a user key, only the newer one compacted: the old value comes back |
| CompactionInstall.ClosedIsEnough | app/src/main/jni/leveldb-1.18/db/version_set.cc:1297-1382 | inputs that share no user key with what stays at their levels meet both conditions |
| CompactionInstall.CompactVersion | app/src/main/jni/leveldb-1.18/db/db_impl.cc:855-976 | the whole compaction: sorted disjoint bounded outputs, which may be installed exactly under the two conditions |
| VersionRun.FlushStep | app/src/main/jni/leveldb-1.18/db/db_impl.cc:485-494 | a flush to the level picked for it is an allowed step of a run of versions |
| VersionRun.CompactStep | app/src/main/jni/leveldb-1.18/db/db_impl.cc:834-976 | the outputs of the loop, as tables, are an allowed step exactly if they stay below what is newer, and then answers stay exactly if nothing is uncovered |
| VersionRun.CompactDisjoint | app/src/main/jni/leveldb-1.18/db/version_set.cc:1297-1382 | outputs of inputs that are all the files overlapping a range lie apart from the files that stay |
| VersionRun.EveryVersionOk | app/src/main/jni/leveldb-1.18/db/version_set.cc:811-894 | every version of every run of flushes and compactions has newer data above older data, sorted disjoint levels and level 0 stacked by number: what Get and the overlap searches require |
| Overlap.FindFile | app/src/main/jni/leveldb-1.18/db/version_set.cc:77-96 | binary search finds the first file whose largest key is at or after the key |
| Overlap.SomeFileOverlapsRange | app/src/main/jni/leveldb-1.18/db/version_set.cc:112-147 | true exactly when some file overlaps the range; on sorted disjoint files the binary search agrees with the scan |
| Overlap.GetOverlappingInputs | app/src/main/jni/leveldb-1.18/db/version_set.cc:522-563 | at levels above 0 exactly the overlapping files in order; at level 0 it ends despite restarts, with the files of the level, each once and in order, that some range selects: the least set that holds the overlapping files and is closed under overlap of user keys |
| Overlap.ContainedIsLeast | app/src/main/jni/leveldb-1.18/db/version_set.cc:543-562 | a widened range out of which no file sticks selects the least closed set |
| Overlap.WidenBegin | app/src/main/jni/leveldb-1.18/db/version_set.cc:552-557 | widening the range to a file that overlaps it brings in only files that every closed set has |
| Overlap.PickLevelForMemTableOutput | app/src/main/jni/leveldb-1.18/db/version_set.cc:493-519 | a flush placed at a level above 0 overlaps no file at that level or above, and bounded bytes below; it could not go one level deeper |
| Overlap.FlushKeepsNewerAbove | app/src/main/jni/leveldb-1.18/db/db_impl.cc:485-494 | adding the flushed table where that says keeps newer data above older data |
| VersionGet.TableGet | app/src/main/jni/leveldb-1.18/table/table.cc:226-255 | the first entry at or after (key, snapshot) is the newest visible one of the key, if any is |
| VersionGet.LevelLookup | app/src/main/jni/leveldb-1.18/db/version_set.cc:364-381 | the one file that the binary search names answers for the whole level, even when neighbours share a user key |
| VersionGet.SortedNumbers | app/src/main/jni/leveldb-1.18/db/version_set.cc:352-362 | sorting the level-0 files newest first keeps exactly the same files |
| VersionGet.LevelZeroGet | app/src/main/jni/leveldb-1.18/db/version_set.cc:346-363 | reading only the level-0 files that span the key, newest first, answers for the whole level |
| VersionGet.Get | app/src/main/jni/leveldb-1.18/db/version_set.cc:323-420 | a point lookup that stops at the first answer equals a lookup in all entries of the version |
| Cursor.RunsUnique | app/src/main/jni/leveldb-1.18/db/db_iter.cc:146-304 | the reference cursor on the ordered map is deterministic, so refining it fixes every answer of a run |
| DbIter.ShownIsView | app/src/main/jni/leveldb-1.18/db/db_iter.cc:173-203 | an entry not hidden by a newer visible one is in the view of the snapshot with its value |
| DbIter.ViewIsShown | app/src/main/jni/leveldb-1.18/db/db_iter.cc:173-203 | every key of the view comes from such an entry |
| DbIter.FirstIsLeast | app/src/main/jni/leveldb-1.18/db/db_iter.cc:173-203 | the first shown entry within a bound is the least key of the view within it |
| DbIter.LastIsGreatest | app/src/main/jni/leveldb-1.18/db/db_iter.cc:232-272 | the last shown entry within a bound is the greatest key of the view within it |
| DbIter.DBIter.FindNextUserEntry | app/src/main/jni/leveldb-1.18/db/db_iter.cc:173-203 | the forward scan stops at the first shown entry beyond the key to skip, past deletions and entries newer than the snapshot |
| DbIter.DBIter.FindPrevUserEntry | app/src/main/jni/leveldb-1.18/db/db_iter.cc:232-272 | the backward scan ends holding the last shown entry of the greatest smaller key |
| DbIter.DBIter.Next | app/src/main/jni/leveldb-1.18/db/db_iter.cc:146-171 | from either direction: the least key of the view after the current one, or the end |
| DbIter.DBIter.Prev | app/src/main/jni/leveldb-1.18/db/db_iter.cc:205-230 | from either direction: the greatest key of the view before the current one, or the end |
| DbIter.DBIter.Seek | app/src/main/jni/leveldb-1.18/db/db_iter.cc:274-286 | the least key of the view at or after the target |
| DbIter.DBIter.SeekToFirst | app/src/main/jni/leveldb-1.18/db/db_iter.cc:288-297 | the least key of the view |
| DbIter.DBIter.SeekToLast | app/src/main/jni/leveldb-1.18/db/db_iter.cc:299-304 | the greatest key of the view |
| DbIter.DBIter.Run | app/src/main/jni/leveldb-1.18/db/db_iter.cc:146-304 | any run of Seek, SeekToFirst, SeekToLast, Next and Prev shows, step by step, the keys and values of the reference cursor on the view |
| DbIter.InternalIterator.Seek | app/src/main/jni/leveldb-1.18/table/merger.cc:51-57 | the merging iterator stands at the first of all entries, in order, that is not before the target |
| DbIter.Iterate | app/src/main/jni/leveldb-1.18/db/db_impl.cc:1035-1064 | the whole iterator, DBIter over the merging iterator over any memtables and tables: every run shows the reference cursor on the view of all their entries |
| EntryCursor.MovesUnique | app/src/main/jni/leveldb-1.18/table/merger.cc:35-112 | one step of the reference cursor on a set of entries has only one outcome |
| EntryCursor.PrevUndoesNext | app/src/main/jni/leveldb-1.18/table/merger.cc:59-112 | stepping back from where a step forward led returns to the start |
| MergingIterator.SmallestIsLeast | app/src/main/jni/leveldb-1.18/table/merger.cc:155-168 | when every child stands at its first entry in a limit, the smallest child key is the least of the union in it |
| MergingIterator.LargestIsGreatest | app/src/main/jni/leveldb-1.18/table/merger.cc:170-183 | the mirror image for the largest child key |
| MergingIterator.MergingIterator.TurnForward | app/src/main/jni/leveldb-1.18/table/merger.cc:68-79 | switching direction puts every other child just beyond the current key and keeps the current entry |
| MergingIterator.MergingIterator.TurnReverse | app/src/main/jni/leveldb-1.18/table/merger.cc:94-108 | switching direction puts every other child just before the current key and keeps the current entry |
| MergingIterator.MergingIterator.Next | app/src/main/jni/leveldb-1.18/table/merger.cc:59-83 | the least entry of the union beyond the current key, after any history of moves |
| MergingIterator.MergingIterator.Prev | app/src/main/jni/leveldb-1.18/table/merger.cc:85-112 | the greatest entry of the union before the current key, after any history of moves |
| MergingIterator.MergingIterator.Run | app/src/main/jni/leveldb-1.18/table/merger.cc:35-112 | any run over sorted children with distinct keys is a run of the cursor on their union |
| TwoLevelIterator.FrontIsLeast | app/src/main/jni/leveldb-1.18/table/two_level_iterator.cc:125-136 | the entry found after skipping exhausted blocks forward is the least of all blocks in the limit |
| TwoLevelIterator.BackIsGreatest | app/src/main/jni/leveldb-1.18/table/two_level_iterator.cc:138-149 | the entry found after skipping exhausted blocks backward is the greatest of all blocks in the limit |
| TwoLevelIterator.TwoLevelIterator.InitDataBlock | app/src/main/jni/leveldb-1.18/table/two_level_iterator.cc:156-170 | the data iterator is kept when it already reads the block the index names, and reopened otherwise |
| TwoLevelIterator.TwoLevelIterator.Seek | app/src/main/jni/leveldb-1.18/table/two_level_iterator.cc:91-96 | the least entry of all blocks at or after the target, through the index keys |
| TwoLevelIterator.TwoLevelIterator.Run | app/src/main/jni/leveldb-1.18/table/two_level_iterator.cc:91-170 | any run is a run of the cursor on the entries of all blocks, empty blocks included |
| CommitProtocol.BuildBatchGroup | app/src/main/jni/leveldb-1.18/db/db_impl.cc:1237-1282 | the loop finds the one group that the size and sync rules allow and concatenates its batches in queue order |
| CommitInvariant.HistoryGrows | app/src/main/jni/leveldb-1.18/db/db_impl.cc:1178-1225 | every step leaves the logged history alone except the one that appends a record, which extends it by the group |
| CommitInvariant.StandsForMore | app/src/main/jni/leveldb-1.18/db/db_impl.cc:503-534 | a table of all updates since, added to what stands for the updates before, stands for all of them |
| CommitInvariant.CompactedStandsFor | app/src/main/jni/leveldb-1.18/db/db_impl.cc:834-853 | after a compaction the version stands for the same updates, from its smallest snapshot on |
| CommitInvariant.FlushedStandsFor | app/src/main/jni/leveldb-1.18/db/db_impl.cc:457-501 | after a flush the version stands for all updates up to the switch of memtables |
| CommitInvariant.StepKeepsInv | app/src/main/jni/leveldb-1.18/db/db_impl.cc:1162-1347 | every step of writers, background thread and readers keeps the whole invariant: queue, memtables, logs, versions, snapshots and readers |
| CommitMeaning.StoreIsLookup | app/src/main/jni/leveldb-1.18/db/db_impl.cc:1077-1122 | the newest visible entry of a key is its value in the plain map after the first updates |
| CommitMeaning.ReaderSeesHistory | app/src/main/jni/leveldb-1.18/db/db_impl.cc:1084-1107 | searching memtable, immutable memtable and version shows the history up to the snapshot, whatever happens meanwhile |
| CommitMeaning.ReadsAreAtomic | app/src/main/jni/leveldb-1.18/db/db_impl.cc:1077-1134 | in every reachable state every Get, iterator or snapshot reads the map after the complete batches of the first writers of the queue and nothing else |
| CommitMeaning.ReadsAreStable | app/src/main/jni/leveldb-1.18/db/db_impl.cc:1035-1064 | no step changes what an open reader reads |
| CommitReads.SourcesAreStable | app/src/main/jni/leveldb-1.18/db/db_impl.cc:1084-1107 | no step changes what an open reader finds in the memtable, in the immutable memtable or in the version, each by itself |
| CommitReads.ReadsInPieces | app/src/main/jni/leveldb-1.18/db/db_impl.cc:1077-1122 | in every run: the places are searched at moments of their own while the mutex is free, and the answer is still that of the map after the complete batches of the first writers |
| CommitReads.ReadsSeeReturned | app/src/main/jni/leveldb-1.18/db/db_impl.cc:1077-1134 | in every run: a read opened without a snapshot answers with all writes that had returned by then and no others; one opened at a snapshot answers with all that had returned at the step where GetSnapshot took it |
| CommitMeaning.RecoveryLosesNothing | app/src/main/jni/leveldb-1.18/db/db_impl.cc:362-455 | at any moment the version in the MANIFEST with the logs it has not given up reads like the map after every logged write |
| CommitMeaning.InstallPreserves | app/src/main/jni/leveldb-1.18/db/db_impl.cc:834-853 | what the compaction theorem gives is what the protocol asks of an installed compaction |
| CommitDurability.RunKeepsAll | app/src/main/jni/leveldb-1.18/db/db_impl.cc:1162-1347 | in every run from the start the invariant holds, and every acknowledged sync write is secured |
| CommitDurability.SyncedWriteSurvives | app/src/main/jni/leveldb-1.18/db/db_impl.cc:1191-1217 | after any loss of unsynced records, a restart answers for a key what an acknowledged sync write of it, or a later write, put there; and the last write if that was the acknowledged one |
| CommitRecovery.ReadLog | app/src/main/jni/leveldb-1.18/db/db_impl.cc:362-455 | a log file cut anywhere behind its synced part gives back a prefix of its records with all that were synced |
| CommitRecovery.CutIsCrash | app/src/main/jni/leveldb-1.18/db/db_impl.cc:362-455 | whatever the cuts of the log files behind their synced parts, what the reader gets back is a crash of the commit protocol |
| CommitRecovery.SyncedWriteSurvivesInFiles | app/src/main/jni/leveldb-1.18/db/db_impl.cc:362-455 | in every state of every run, with the log files cut anywhere behind what was synced and read back, every acknowledged sync write or a later one answers for its key |
| CommitDurability.NothingInUseDeleted | app/src/main/jni/leveldb-1.18/db/db_impl.cc:218-272 | no step deletes or changes a table of a live version or pending output, or a log that a restart would replay |
| CommitDurability.NothingInUseMissing | app/src/main/jni/leveldb-1.18/db/version_set.cc:1137-1148 | every version in use finds all its tables |
| CommitDurability.ObsoleteIsDeleted | app/src/main/jni/leveldb-1.18/db/db_impl.cc:218-272 | installing a version leaves no table that nobody needs and no log older than it |
| CommitDurability.RecordsAreGroups | app/src/main/jni/leveldb-1.18/db/db_impl.cc:1162-1235 | in every run each queued batch is in exactly one log record, in queue order, with contiguous sequence numbers, and no sync write rides with a leader that does not sync |
| CommitProgress.WritersReturn | app/src/main/jni/leveldb-1.18/db/db_impl.cc:1162-1235 | from every reachable state, whatever the background thread does, steps of the writers alone serve all that wait, in the order of the queue |
| CommitProgress.FlushGoesThrough | app/src/main/jni/leveldb-1.18/db/db_impl.cc:503-534 | from every reachable state without a compaction under way, a waiting memtable can be flushed: it makes room for the next, and only the log of the current one is left |
| CommitProgress.CompactionGoesThrough | app/src/main/jni/leveldb-1.18/db/db_impl.cc:834-853 | a compaction whose outputs, cut into tables in any way, keep what it owes its readers can be carried through: the inputs give way to the outputs and all else stays |
| CommitProgress.RunGoesOn | app/src/main/jni/leveldb-1.18/db/db_impl.cc:1162-1347 | such steps continue any run, so the three statements above hold at every moment of every run |
| CommitProgress.OnlyNeededIsLeft | app/src/main/jni/leveldb-1.18/db/db_impl.cc:218-272 | in every run, installing a version leaves exactly the tables of the current version and of open readers, and exactly the logs that recovery could need; no reserved file number is kept |
| WriteBatch.WriteBatch.Append | app/src/main/jni/leveldb-1.18/db/write_batch.cc:141-145 | appending concatenates the changes and adds the counts |
| WriteBatch.Iterate | app/src/main/jni/leveldb-1.18/db/write_batch.cc:42-80 | for any bytes: done exactly when they parse to the end and the count is that of the changes, corrupt otherwise, with the changes before the damage handed over |
| WriteBatch.ParseUndoesBytes | app/src/main/jni/leveldb-1.18/db/write_batch.cc:42-80 | bytes that spell changes parse to these and to the end |
| WriteBatch.ParseStopsAtDamage | app/src/main/jni/leveldb-1.18/db/write_batch.cc:42-80 | damage behind whole changes stops the parse right there |
| WriteBatch.ChangeRoundTrip | app/src/main/jni/leveldb-1.18/db/write_batch.cc:53-73 | a Put or Delete reads back as itself, whatever follows |
| WriteBatch.ChangeTags | app/src/main/jni/leveldb-1.18/db/write_batch.cc:102-111 | the bytes of a Put and of a Delete, spelled out |
| WriteBatch.TagsMean | app/src/main/jni/leveldb-1.18/db/write_batch.cc:53-73 | for any bytes: tag 1 is a Put of two strings, tag 0 a Delete of one, and every other tag or missing string is damage |
| WriteBatch.GroupRoundTrip | app/src/main/jni/leveldb-1.18/db/db_impl.cc:1182-1188 | the batch of a group hands over its members in order, under the sequence number it was given |
| LogFormat.UnmaskUndoesMask | app/src/main/jni/leveldb-1.18/util/crc32c.h:31-40 | unmasking a masked checksum gives the checksum |
| LogFormat.SurvivorsArePrefix | app/src/main/jni/leveldb-1.18/db/log_reader.cc:59-263 | the records that a byte prefix of the log holds completely are a prefix of the records written |
| LogWriter.Writer.AddRecord | app/src/main/jni/leveldb-1.18/db/log_writer.cc:27-73 | the bytes appended are the fragments of the record, with block trailers filled and zero-length first fragments where the source makes them |
| LogWriter.Writer.EmitPhysicalRecord | app/src/main/jni/leveldb-1.18/db/log_writer.cc:75-100 | header and payload of one fragment, checksum masked |
| LogFormat.OneFragment | app/src/main/jni/leveldb-1.18/db/log_writer.cc:75-100 | the bytes of a record that fits its block, spelled out |
| LogFormat.TwoFragments | app/src/main/jni/leveldb-1.18/db/log_writer.cc:27-73 | the bytes of a record that goes on in the next block, spelled out |
| LogReader.Reader.ReadPhysicalRecord | app/src/main/jni/leveldb-1.18/db/log_reader.cc:181-263 | for any bytes: what the file holds at the position, be it a fragment, the end of the file or a bad record, with the reports and the position behind it |
| LogReader.Reader.ReadRecord | app/src/main/jni/leveldb-1.18/db/log_reader.cc:59-164 | for any bytes: the next record that the fragments join to, with one report for each damage on the way, and the position behind it |
| LogScan.FragmentsAreSound | app/src/main/jni/leveldb-1.18/db/log_reader.cc:181-263 | for any bytes: what is handed over as a fragment is a seven-byte header and the data, and the stored bytes spell the masked checksum of kind and data |
| LogScan.MismatchIsReported | app/src/main/jni/leveldb-1.18/db/log_reader.cc:235-248 | a complete fragment with another stored checksum is a bad record: one report, and the rest of its block is dropped |
| LogScan.RecordsAreSound | app/src/main/jni/leveldb-1.18/db/log_reader.cc:59-164 | for any bytes: every record returned is a full fragment, or a first, middle ones and a last in a row, joined |
| LogScan.ScanWrote | app/src/main/jni/leveldb-1.18/db/log_reader.cc:59-164 | on a cut file of what the writer wrote, the scan finds the next complete record or the end, without a report |
| LogScan.ChecksumRoundTrip | app/src/main/jni/leveldb-1.18/db/log_reader.cc:235-248 | the stored checksum of an undamaged fragment matches |
| LogReader.CrashAndRecover | app/src/main/jni/leveldb-1.18/db/log_reader.cc:59-263 | for any records and any byte prefix of their log, the reader returns exactly the records whose last fragment is there, in order, and reports no corruption |
| SkipList.LinkOne | app/src/main/jni/leveldb-1.18/db/skiplist.h:363-369 | linking a node between its neighbours keeps a level a sorted chain of exactly its nodes |
| SkipList.PublishKeeps | app/src/main/jni/leveldb-1.18/db/skiplist.h:363-369 | after each store every level is linked and contained in the one below |
| SkipList.SkipList.FindGreaterOrEqual | app/src/main/jni/leveldb-1.18/db/skiplist.h:262-281 | the first node at or after the key, and the last node before it on every level |
| SkipList.SkipList.FindLessThan | app/src/main/jni/leveldb-1.18/db/skiplist.h:284-302 | the last node before the key, or the head |
| SkipList.SkipList.FindLast | app/src/main/jni/leveldb-1.18/db/skiplist.h:305-322 | the last node, or the head of an empty list |
| SkipList.SkipList.Insert | app/src/main/jni/leveldb-1.18/db/skiplist.h:337-370 | for any height the key joins exactly the levels below it |
| SkipList.SkipList.Contains | app/src/main/jni/leveldb-1.18/db/skiplist.h:373-380 | true exactly for the keys inserted |
| SkipList.Iterator.Prev | app/src/main/jni/leveldb-1.18/db/skiplist.h:214-222 | the greatest key before the current one, or no position |
| SkipList.Iterator.Seek | app/src/main/jni/leveldb-1.18/db/skiplist.h:225-227 | the least key at or after the target, or no position |
| SkipList.PrevUndoesNext | app/src/main/jni/leveldb-1.18/db/skiplist.h:208-222 | stepping back from the next node returns |
| SkipListReaders.StepKeepsInv | app/src/main/jni/leveldb-1.18/db/skiplist.h:262-370 | every load of a reader and every store of the writer keeps all levels sorted and nested and all readers on them |
| SkipListReaders.SearchesAreAtomic | app/src/main/jni/leveldb-1.18/db/skiplist.h:262-370 | in every interleaving a finished search gives the exact answer for the keys of one moment between its start and its end, and misses no key that was there at its start |
| SkipListReaders.NothingSkipped | app/src/main/jni/leveldb-1.18/db/skiplist.h:262-281 | a finished seek returns a node at or after the target and skips no key present at the start |
| SkipListReaders.NeverStuck | app/src/main/jni/leveldb-1.18/db/skiplist.h:211-225 | whatever the interleaving, the pointers that the next load or store needs are there |
| SkipListReaders.LoadAdvances | app/src/main/jni/leveldb-1.18/db/skiplist.h:262-281 | each load of a search ends it, goes down a level, or leaves fewer keys of the level ahead |
| Coding.LengthRoundTrip | app/src/main/jni/leveldb-1.18/util/coding.cc:75-79 | a variable-length number below 2^32 is read back, whatever follows |
| Coding.EncodeVarint32 | app/src/main/jni/snappy-1.1.0/snappy-stubs-internal.h:437-463 | the unrolled encoder writes the seven-bit digits of the number |
| Coding.GetVarint32Ptr | app/src/main/jni/leveldb-1.18/util/coding.cc:112-129 | the loop reads the number at the pointer and where it ends, for any bytes |
| Coding.VarintExamples | app/src/main/jni/leveldb-1.18/util/coding.cc:33-66 | numbers of one to five bytes, in bytes |
| BlockFormat.HeaderRoundTrip | app/src/main/jni/leveldb-1.18/table/block_builder.cc:93-100 | the three lengths of an entry decode to themselves |
| BlockFormat.ShortHeader | app/src/main/jni/leveldb-1.18/table/block.cc:57-63 | three bytes below 128 are the three lengths, as the general decoder would say |
| BlockFormat.EntryDecodes | app/src/main/jni/leveldb-1.18/table/block.cc:226-252 | at the offset of each entry its lengths, key suffix and value are found |
| BlockFormat.RestartThere | app/src/main/jni/leveldb-1.18/table/block.cc:99-102 | the restart array holds the offsets of the restart points |
| BlockFormat.BlockExample | app/src/main/jni/leveldb-1.18/table/block_builder.cc:15-27 | a block of two entries, in bytes |
| BlockBuilder.BlockBuilder.Add | app/src/main/jni/leveldb-1.18/table/block_builder.cc:73-107 | the entry is appended with the longest prefix it shares; restart points come exactly an interval apart and are stored whole |
| BlockBuilder.BlockBuilder.Reset | app/src/main/jni/leveldb-1.18/table/block_builder.cc:48-55 | the builder is ready for the next block, whatever it held |
| BlockBuilder.BlockBuilder.Finish | app/src/main/jni/leveldb-1.18/table/block_builder.cc:63-71 | the finished bytes are the entries and the restart offsets, exactly as long as estimated |
| BlockIterator.DecodeEntry | app/src/main/jni/leveldb-1.18/table/block.cc:53-74 | the one-byte fast path and the general path decode the same header, for any bytes |
| BlockIterator.Iterator.ParseNextKey | app/src/main/jni/leveldb-1.18/table/block.cc:226-253 | the next entry is decoded with its full key and value, or the end is reached |
| BlockIterator.Iterator.Prev | app/src/main/jni/leveldb-1.18/table/block.cc:144-163 | the entry before, found from the restart point before it |
| BlockIterator.Iterator.SeekToLast | app/src/main/jni/leveldb-1.18/table/block.cc:210-215 | the last entry |
| BlockIterator.Iterator.FindRestart | app/src/main/jni/leveldb-1.18/table/block.cc:168-189 | binary search on restart keys: the last restart point before the target, or the first |
| BlockIterator.Iterator.Seek | app/src/main/jni/leveldb-1.18/table/block.cc:165-203 | the first entry not before the target, under any transitive order |
| BlockIterator.RoundTrip | app/src/main/jni/leveldb-1.18/table/block_builder.cc:63-107 | for any restart interval, building a block and reading it gives the same pairs |
| Comparator.LexAt | app/src/main/jni/leveldb-1.18/util/comparator.cc:25-27 | the first difference decides the order of two strings |
| Comparator.FindShortestSeparator | app/src/main/jni/leveldb-1.18/util/comparator.cc:29-51 | a string in [start, limit): start cut behind its first difference from limit with one byte increased, exactly where that is below limit, else start |
| Comparator.FindShortSuccessor | app/src/main/jni/leveldb-1.18/util/comparator.cc:53-65 | a string at or after the key: its first byte that is not 0xff increased and the rest cut off, or the key if it has none |
| Comparator.InternalTransitive | app/src/main/jni/leveldb-1.18/db/dbformat.cc:50-66 | the internal order is transitive and asymmetric |
| Comparator.InternalTotal | app/src/main/jni/leveldb-1.18/db/dbformat.cc:50-66 | two internal keys that differ are ordered |
| Comparator.InternalSeparator | app/src/main/jni/leveldb-1.18/db/dbformat.cc:68-85 | a key in [start, limit): the shortened user key with the highest tag exactly where that is shorter and beyond, and then its user key is strictly before that of limit |
| Comparator.InternalSuccessor | app/src/main/jni/leveldb-1.18/db/dbformat.cc:87-99 | a key at or after the given one: the shortened user key with the highest tag exactly where that is shorter and beyond |
| Bloom.WithBitTests | app/src/main/jni/leveldb-1.18/util/bloom.cc:56-58 | setting a bit sets that bit and no other |
| Bloom.BloomFilterPolicy.CreateFilter | app/src/main/jni/leveldb-1.18/util/bloom.cc:35-61 | the filter lets every key it was made from through; it has the size the source gives it and exactly the bits set that a probe of a key hits |
| Bloom.ProbeIs | app/src/main/jni/leveldb-1.18/util/bloom.cc:53-59 | the probes are an arithmetic progression from the hash, by the hash rotated right by 17 bits, modulo 2^32 |
| Bloom.BloomFilterPolicy.KeyMayMatch | app/src/main/jni/leveldb-1.18/util/bloom.cc:63-86 | false exactly when some probe of the key meets an unset bit, for any filter bytes |
| FilterBlock.FilterBlockBuilder.StartBlock | app/src/main/jni/leveldb-1.18/table/filter_block.cc:22-28 | filters are generated up to the index of the new block, each of exactly the keys of its blocks |
| FilterBlock.FilterBlockBuilder.GenerateFilter | app/src/main/jni/leveldb-1.18/table/filter_block.cc:52-76 | the pending keys get one filter of the policy, no keys an empty one; earlier filters do not change |
| FilterBlock.FilterBlockBuilder.Finish | app/src/main/jni/leveldb-1.18/table/filter_block.cc:36-50 | every added key matches the filter found at its block offset, and the filter for every two kilobytes is the one the policy makes of exactly the keys added there |
| FilterBlock.FilterWord | app/src/main/jni/leveldb-1.18/table/filter_block.cc:98-99 | the offset array and its end word are found where the reader looks |
| FilterBlock.FilterBlockReader.constructor | app/src/main/jni/leveldb-1.18/table/filter_block.cc:78-93 | any bytes can be opened: the offset array is where the last word says, unless that or the whole is out of bounds and there are no filters; those of a builder have its filters |
| FilterBlock.FilterBlockReader.KeyMayMatch | app/src/main/jni/leveldb-1.18/table/filter_block.cc:95-109 | for any bytes: true without a filter or with damaged offsets, false for an empty one, else the verdict of the filter; for a block that a builder made, the verdict of the filter of the two kilobytes of the block offset |
| TableBuilder.NewSeparator | app/src/main/jni/leveldb-1.18/table/table_builder.cc:101-108 | a key between the last key of a block and what follows separates them |
| TableBuilder.TableBuilder.Add | app/src/main/jni/leveldb-1.18/table/table_builder.cc:92-121 | the pair joins the table: the block is written exactly when it reaches the block size, and the delayed index key is the separator of the last key and this one |
| TableBuilder.TableBuilder.Flush | app/src/main/jni/leveldb-1.18/table/table_builder.cc:123-137 | the block moves to the file without changing the pairs, at the offset where the file ended |
| TableBuilder.TableBuilder.Finish | app/src/main/jni/leveldb-1.18/table/table_builder.cc:199-253 | the table holds exactly the pairs added, indexed and covered by a filter of the policy given; its last index key is the short successor of its last key |
| TableBuilder.OnlyBlock | app/src/main/jni/leveldb-1.18/table/table.cc:230-232 | only the block of the first index key at or after the lookup key can hold the answer |
| TableBuilder.AnswerPasses | app/src/main/jni/leveldb-1.18/table/table.cc:233-239 | the filter never turns the answer away |
| TableBuilder.InternalGet | app/src/main/jni/leveldb-1.18/table/table.cc:226-255 | with or without a filter, the first pair at or after the key is handed over whenever it has the user key, nothing else with that user key ever is, and nothing at all when the filter rejects the key |
| TableBuilder.AnswerIsNewest | app/src/main/jni/leveldb-1.18/table/table.cc:247-252 | the first pair at or after the lookup key, if of the user key, is the newest one that the reader may see, and conversely |
| TableBuilder.BuildAndGet | app/src/main/jni/leveldb-1.18/table/table.cc:226-255 | for any increasing pairs, block size, policy or none: a lookup in the table built hands over a pair of the user key exactly if the reader may see one, and then the newest |
| HandleTable.HandleTable.FindPointer | app/src/main/jni/leveldb-1.18/util/cache.cc:98-105 | the handle with the key, or the end of the chain when none has it |
| HandleTable.HandleTable.Insert | app/src/main/jni/leveldb-1.18/util/cache.cc:62-76 | the handle replaces the one with the same key, if any, and there are never more handles than buckets |
| HandleTable.HandleTable.Remove | app/src/main/jni/leveldb-1.18/util/cache.cc:78-86 | exactly the handle with the key leaves |
| HandleTable.HandleTable.Resize | app/src/main/jni/leveldb-1.18/util/cache.cc:107-131 | rehashing keeps every handle, each in the bucket of its hash; there are 4 buckets, or a power of two of them that is at least the number of handles and less than twice it |
| LruCache.BooksGive | app/src/main/jni/leveldb-1.18/util/cache.cc:186-194 | dropping a reference keeps refs equal to holders and usage equal to charges; the last one deletes, once |
| LruCache.LRUCache.Lookup | app/src/main/jni/leveldb-1.18/util/cache.cc:209-218 | a hit becomes most recently used and gains one reference; a miss changes nothing |
| LruCache.LRUCache.Release | app/src/main/jni/leveldb-1.18/util/cache.cc:220-223 | the handle is given back; the entry is deleted exactly when nobody holds it |
| LruCache.LRUCache.Insert | app/src/main/jni/leveldb-1.18/util/cache.cc:225-256 | the entry replaces its key, then the least recently used leave, one by one, until usage fits or the ring is empty, and no longer |
| LruCache.LRUCache.Erase | app/src/main/jni/leveldb-1.18/util/cache.cc:258-265 | the key leaves the cache and clients keep their handles |
| EditHistory.SortedUnique | app/src/main/jni/leveldb-1.18/db/version_set.cc:601-612 | a list sorted by smallest key and number is determined by its files |
| EditHistory.ReplayEvents | app/src/main/jni/leveldb-1.18/db/version_set.cc:656-699 | replaying edits one after another is replaying their deletions and additions one after another |
| EditHistory.AfterMeans | app/src/main/jni/leveldb-1.18/db/version_set.cc:656-699 | a file is left exactly if it was in the base and its number never deleted, or it was added and its number not deleted since |
| EditHistory.SavedIsReplay | app/src/main/jni/leveldb-1.18/db/version_set.cc:702-748 | the list a builder saves is the replay, in order and without repetition, if and only if, among numbers not finally deleted, no file of the base was deleted or added again and the first added of its kind is the one added since the last deletion |
| EditHistory.FreshAgrees | app/src/main/jni/leveldb-1.18/db/version_set.cc:702-748 | edits that never add a number used before at the level meet that condition |
| Manifest.MergeLevel | app/src/main/jni/leveldb-1.18/db/version_set.cc:702-748 | the merge is in order, a base file before an added one of the same place, and has each file as often as base and added files together, the deleted numbers left out |
| Manifest.Builder.Apply | app/src/main/jni/leveldb-1.18/db/version_set.cc:656-699 | for any edits, the builder holds what the deletions and additions amount to: the numbers now deleted, and of the files added alike the first |
| Manifest.Builder.SaveTo | app/src/main/jni/leveldb-1.18/db/version_set.cc:702-748 | each list has the base files and the first of each kind added, unless their number is deleted |
| Manifest.ListedTwice | app/src/main/jni/leveldb-1.18/db/version_set.cc:702-748 | one edit that deletes a base file and adds it again: the builder lists it twice, the replay has it once |
| Manifest.AllSavedIsReplay | app/src/main/jni/leveldb-1.18/db/version_set.cc:702-748 | over all levels, what is saved is the replay exactly if the history of every level agrees |
| Manifest.ReplayUnique | app/src/main/jni/leveldb-1.18/db/version_set.cc:702-748 | two sorted results of the same replay are equal |
| Manifest.RunIsReplay | app/src/main/jni/leveldb-1.18/db/version_set.cc:811-894 | one version per edit: all are replays exactly if each edit agrees with the replay of those before |
| Manifest.SnapshotReplay | app/src/main/jni/leveldb-1.18/db/version_set.cc:1054-1082 | a snapshot edit on an empty base stands for the version it was written from |
| Manifest.RecoverLists | app/src/main/jni/leveldb-1.18/db/version_set.cc:925-1005 | for any edits: recovery from a snapshot gives the replay exactly if its history agrees; where the running database is right, recovery gives its lists exactly then |
| VersionEdit.LongRoundTrip | app/src/main/jni/leveldb-1.18/util/coding.cc:81-96 | a variable-length number below 2^64 is read back, whatever follows |
| VersionEdit.FieldRoundTrip | app/src/main/jni/leveldb-1.18/db/version_edit.cc:41-86 | every tagged field reads back as itself, whatever follows; NumberTags and its companions spell the tags out |
| VersionEdit.EncodeTo | app/src/main/jni/leveldb-1.18/db/version_edit.cc:41-86 | the bytes decode to the edit, whatever follows: its fields in the order of the format, the deleted files ascending; and they are the bytes that the tag lemmas name |
| VersionEdit.DecodeFrom | app/src/main/jni/leveldb-1.18/db/version_edit.cc:109-210 | for any bytes and any edit decoded into: what a new edit would hold, behind the compaction pointers that Clear leaves there; failure on the first bad field |
| VersionEdit.TagMeans | app/src/main/jni/leveldb-1.18/db/version_edit.cc:109-160 | for any bytes: tag 1 is the comparator name, 2 the log number, 3 the next file number, 4 the last sequence and 9 the previous log number; a missing part and every tag but 1 to 7 and 9 is a failure |
| VersionEdit.ListTagMeans | app/src/main/jni/leveldb-1.18/db/version_edit.cc:161-205 | for any bytes: tag 5 is a compaction pointer, 6 a deleted file and 7 a new file with number, size, smallest and largest key |
| VersionEdit.NumberTags | app/src/main/jni/leveldb-1.18/db/version_edit.cc:46-61 | an edit with one number is encoded as its tag, as a literal byte, and the number; these bytes decode to it |
| VersionEdit.NameTag | app/src/main/jni/leveldb-1.18/db/version_edit.cc:42-45 | the same for the comparator name: 1, length, name |
| VersionEdit.PointerTag | app/src/main/jni/leveldb-1.18/db/version_edit.cc:63-67 | the same for a compaction pointer: 5, level, length, key |
| VersionEdit.DeletedTag | app/src/main/jni/leveldb-1.18/db/version_edit.cc:69-75 | the same for a deleted file: 6, level, number |
| VersionEdit.NewFileTag | app/src/main/jni/leveldb-1.18/db/version_edit.cc:77-85 | the same for a new file: 7, level, number, size, smallest and largest key |
| VersionEdit.RoundTrip | app/src/main/jni/leveldb-1.18/db/version_edit.cc:26-210 | decoding undoes encoding if and only if the edit decoded into had no compaction pointers |
| ManifestRecovery.Recover | app/src/main/jni/leveldb-1.18/db/version_set.cc:896-1012 | for any records: nothing is recovered from a damaged record, another comparator or a missing number; otherwise the builder lists and the latest of each number |
| ManifestRecovery.CrashAndRecover | app/src/main/jni/leveldb-1.18/db/version_set.cc:896-1012 | edits written to a manifest that is cut off anywhere: a restart recovers what the first edits make, as many as are whole in the file, and their replay exactly if their history agrees |
| SnappyFormat.CopyUnique | app/src/main/jni/snappy-1.1.0/snappy.cc:97-102 | the bytes of an overlapping copy are determined by offset and length |
| SnappyFormat.CopySplit | app/src/main/jni/snappy-1.1.0/snappy.cc:215-231 | two copies in a row are one copy of the joint length |
| SnappyFormat.ShortLiteral | app/src/main/jni/snappy-1.1.0/snappy.cc:725-760 | a literal of up to 60 bytes: a tag byte of four times its length less one, then its bytes |
| SnappyFormat.LongLiteral | app/src/main/jni/snappy-1.1.0/snappy.cc:725-760 | longer literals: tag 240 and the length less one in a byte, or tag 244 and the length less one in two bytes, the lower first |
| SnappyFormat.ShortCopyTag | app/src/main/jni/snappy-1.1.0/snappy.cc:761-777 | a tag of kind 1: a copy of 4 to 11 bytes, the high bits of the offset in the tag and the low ones in the next byte |
| SnappyFormat.CopyTag2 | app/src/main/jni/snappy-1.1.0/snappy.cc:761-777 | a tag of kind 2: a copy of 1 to 64 bytes with an offset of two bytes, the lower first |
| SnappyFormat.CopyTag4 | app/src/main/jni/snappy-1.1.0/snappy.cc:761-777 | a tag of kind 3: a copy of 1 to 64 bytes with an offset of four bytes, the lowest first |
| SnappyFormat.BadOffset | app/src/main/jni/snappy-1.1.0/snappy.cc:1008-1032 | an offset of zero or beyond what was written is malformed |
| SnappyEncoding.LiteralEncodes | app/src/main/jni/snappy-1.1.0/snappy.cc:155-195 | a literal decodes to its bytes, after any text |
| SnappyEncoding.CopyDecodes | app/src/main/jni/snappy-1.1.0/snappy.cc:197-213 | a copy tag decodes to the copy of that offset and length |
| SnappyEncoding.LiteralCost | app/src/main/jni/snappy-1.1.0/snappy.cc:55-77 | what a literal costs against its bytes |
| SnappyEncoding.CopyCost | app/src/main/jni/snappy-1.1.0/snappy.cc:55-77 | what a copy costs against its bytes |
| Bits.FirstDifference | app/src/main/jni/snappy-1.1.0/snappy-internal.h:104-110 | the lowest set bit of the exclusive or of two words lies in the first byte that differs |
| Bits.FindLSBSetNonZero | app/src/main/jni/snappy-1.1.0/snappy-stubs-internal.h:366-377 | shifting by halves finds the lowest set bit |
| Bits.FindLSBSetNonZero64 | app/src/main/jni/snappy-1.1.0/snappy-stubs-internal.h:380-389 | the lowest set bit of a 64-bit word, from its two halves |
| Bits.Log2Floor | app/src/main/jni/snappy-1.1.0/snappy-stubs-internal.h:349-364 | the power of two at or below the number, -1 for zero |
| SnappyCompress.FindMatchLength | app/src/main/jni/snappy-1.1.0/snappy-internal.h:85-119 | the length of the longest common prefix, eight bytes at a time, then by the lowest differing bit, then byte by byte |
| SnappyCompress.EmitLiteral | app/src/main/jni/snappy-1.1.0/snappy.cc:155-195 | the literal is written; the sixteen-byte fast path may overrun it but stays in the buffer |
| SnappyCompress.EmitCopy | app/src/main/jni/snappy-1.1.0/snappy.cc:215-231 | a copy of any length is split into pieces that decode to it |
| SnappyCompress.CompressFragment | app/src/main/jni/snappy-1.1.0/snappy.cc:328-452 | for any hash function and table size, the output decodes to the input, table entries always point before the position, and every write stays within the size bound; up to 16 bytes are one literal, and more of one byte are that byte and one copy |
| SnappyStream.Compress | app/src/main/jni/snappy-1.1.0/snappy.cc:875-954 | for any source and any cut into pieces, the stream decodes to the input and is at most 32 + n + n/6 bytes long; for one byte over and over, its exact bytes |
| SnappyStream.WholeDecodes | app/src/main/jni/snappy-1.1.0/snappy.cc:875-954 | length and blocks together decode to the whole text |
| SnappyWriter.RepeatsGap | app/src/main/jni/snappy-1.1.0/snappy.cc:104-139 | expanding the pattern keeps it periodic |
| SnappyWriter.IncrementalCopyFastPath | app/src/main/jni/snappy-1.1.0/snappy.cc:141-153 | for every gap and length the same bytes as copying one at a time, at most ten written beyond |
| SnappyWriter.ArrayWriter.AppendFromSelf | app/src/main/jni/snappy-1.1.0/snappy.cc:1008-1032 | the copy of the format, or a refusal exactly when it refuses; nothing written past the limit |
| SnappyWriter.ArrayWriter.TryFastAppend | app/src/main/jni/snappy-1.1.0/snappy.cc:994-1006 | a short literal is appended by sixteen-byte copy only where that stays within the limit |
| SnappyDecompress.Decompressor.RefillTag | app/src/main/jni/snappy-1.1.0/snappy.cc:782-839 | however the source cuts its bytes, the next tag and its operands lie contiguous and nothing is lost |
| SnappyDecompress.Decompressor.DecompressAllTags | app/src/main/jni/snappy-1.1.0/snappy.cc:710-779 | the text the format assigns to the tags, or failure where it assigns none, for both writers |
| SnappyDecompress.Decompressor.ReadUncompressedLength | app/src/main/jni/snappy-1.1.0/snappy.cc:686-705 | the length in front, at most five bytes |
| SnappyDecompress.RawUncompress | app/src/main/jni/snappy-1.1.0/snappy.cc:1040-1043 | succeeds exactly on well-formed streams and then yields their text |
| SnappyDecompress.IsValidCompressedBuffer | app/src/main/jni/snappy-1.1.0/snappy.cc:1088-1092 | the same verdict as decompressing, without writing |
| SnappyDecompress.RoundTrip | app/src/main/jni/snappy-1.1.0/snappy.cc:842-954 | decompressing what Compress made gives the input, for any cuts on either side |
| RegionFormat.SeekExact | app/src/main/java/com/mcal/worldtope/DesktopRegionFile.java:260-262 | the position computed in ints is right exactly below two gigabytes |
| RegionFormat.WordExamples | app/src/main/java/com/mcal/worldtope/DesktopRegionFile.java:92-103 | words have the most significant byte first and a sign |
| RegionFormat.ReleaseKeeps | app/src/main/java/com/mcal/worldtope/DesktopRegionFile.java:206-209 | giving up a chunk's sectors keeps the free map exact |
| RegionFormat.ClaimKeeps | app/src/main/java/com/mcal/worldtope/DesktopRegionFile.java:230-236 | taking free sectors keeps chunks apart and the free map exact |
| RegionFile.RegionFile.constructor | app/src/main/java/com/mcal/worldtope/DesktopRegionFile.java:64-111 | opening a file builds the free map: exactly the sectors behind the header that no chunk owns |
| RegionFile.RegionFile.FindRun | app/src/main/java/com/mcal/worldtope/DesktopRegionFile.java:210-228 | the lowest run of free sectors that is long enough, or none |
| RegionFile.RegionFile.Write | app/src/main/java/com/mcal/worldtope/DesktopRegionFile.java:198-258 | chunks stay apart, behind the header and inside the file; the payload is stored, other chunks keep their bytes, writes of 256 sectors or more change nothing; as many sectors as before stay where they are, else the chunk goes to the lowest free run in the map with its own sectors given back, or to the end of the file, which grows by just as much if there is none; and the time is entered |
| RegionFile.HoldsReads | app/src/main/java/com/mcal/worldtope/DesktopRegionFile.java:143-189 | what a write stored is what the reader of those sectors finds |
| RegionFile.RegionFile.Read | app/src/main/java/com/mcal/worldtope/DesktopRegionFile.java:143-189 | the payload last written to the chunk, after any sequence of writes; for any bytes in its sectors, what their length and kind say |
| RegionFile.Reopen | app/src/main/java/com/mcal/worldtope/DesktopRegionFile.java:92-103 | closing and opening finds the same offsets, the same payloads and the same free sectors |
| RegionFile.ReadAfterReopen | app/src/main/java/com/mcal/worldtope/DesktopRegionFile.java:143-189 | every chunk written before reads back its payload after closing and opening |

## Left out

- CommitProtocol.BuildBatchGroup: the rest of Write, MakeRoomForWrite and CompactMemTable is a machine on values rather than a class, so the relinking of the writer queue and the condition variables are not modelled; that waiting writers and memtables can be served is CommitProgress, that the scheduler does it is not stated.
- SkipListReaders.SearchesAreAtomic: loads and stores are sequentially consistent steps; memory barriers are not modelled, and that a search ends is stated load by load, not for a writer that keeps inserting ahead of it.
- SnappyCompress.FindMatchLength: the variant for other processors, which compares four bytes at a time, is not modelled.
- TableBuilder.TableBuilder.Add: data blocks are lists of pairs there and their encoded sizes are parameters; that the bytes of a block give the pairs back is BlockIterator.RoundTrip. Block handles, footer, metaindex, compression type byte and block checksums are not modelled.
- BlockIterator.Iterator.ParseNextKey: the branch for corrupt bytes is not taken by a block that a builder made and is not modelled.
- LogReader.Reader.ReadRecord: initial offsets other than 0 and record offsets are not modelled; the checksum is a fold of an arbitrary byte step.
- LruCache.LRUCache.Insert: ring and bucket chains are sequences of handle numbers rather than linked nodes; sharding by the top hash bits and NewId are not modelled.
- SkipList.SkipList.Insert: a node is named by its key and its pointers are kept per level in maps; the random height is a parameter.
- RegionFile.RegionFile.Write: the compressed payload is opaque bytes, and files whose length is not a whole number of sectors are not padded.
- RegionFile.RegionFile.Read: an exception from a damaged length is an outcome of its own; decompression is not modelled.
- Compaction.DoCompactionWork: every key parses; shutdown, I/O errors and a memtable flush in the middle of a compaction are not modelled, and PickCompaction and SetupOtherInputs, which choose the inputs, are not either.
- WriteBatch.Iterate: what a damaged batch leaves in the memtable is not followed into the commit protocol, where batches are well formed.
- VersionRun.EveryVersionOk: a version is a list of tables per level there; the commit protocol has it as a set of file numbers, and the file metadata of the manifest has keys as bytes.
- DbIter.Iterate: the children are sorted lists; that a table's two-level iterator walks its entries in that order is TwoLevelIterator.TwoLevelIterator.Run.
- CommitRecovery.ReadLog: how a batch is spelled in a record is a parameter; that its bytes give the changes back is WriteBatch.GroupRoundTrip.
- TableBuilder.BuildAndGet: a filter block of four gigabytes or more, whose 32-bit offsets wrap, is not read.
- Manifest.Builder.SaveTo: the debug assertion that levels above 0 do not overlap, and the compaction pointers that Apply copies to the version set, are not modelled.
- Overlap.PickLevelForMemTableOutput: levels are chosen for user keys; scoring, seek statistics and manual compaction only decide when to compact.
- DbIter.DBIter.Seek: read sampling and the release of large saved values are not modelled.
- Memtable encoding (memtable.cc), LookupKey and the ring of the snapshot list: they only add easy members; snapshots are a list, oldest first, in the commit protocol.
- SnappyStream.Compress: GetAppendBuffer and scratch-buffer reuse of sinks, and the C string wrappers, only forward.
- I/O errors, background errors and recovery of damaged databases: they only add error plumbing.
- User interface, JNI glue, Java wrappers, environment, file names, loggers, benchmarks and CRC tables are not part of this model.
