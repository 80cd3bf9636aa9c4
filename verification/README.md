# LevelDB and nanopb in Dafny

A model of two libraries that the Unsinkable app carries under `Unsinkable/Pods`: LevelDB, an
LSM-tree key-value store, and nanopb, a protocol-buffer encoder and decoder. File and module
names are the same.

**The store** (`DbFormat`, `Version`, `Compaction`, `InputSelection`, `VersionBuilder`, `DbState`,
`DbSteps`, `DbRuns`, `LostDelete`). Its state is two memtables, seven levels of table files, the
live snapshots and the history of all writes. The specification is the history: a read at
sequence number `s` is the last write to the key numbered `s` or less. Every step keeps an
invariant under which the layered search answers as the history does.

**Durability** (`Durable`, `Recovery`, `Reopening`, `Manifest`, `ManifestBytes`, `EditCodec`,
`EditFields`, `DbImpl`). The directory with its logs, tables and MANIFEST is added, as are crashes that may cut
the last log record, recoveries that may themselves crash, and the deletion of obsolete files.
`DbImpl.DBImpl` is the database object; its methods are steps of this machine.

**Writes** (`WriteBatch`, `GroupCommit`, `Log`, `LogDamage`, `LoggedBatches`, `MemTables`,
`SkipList`, `SnapshotLists`). Batches and their bytes, the queue of writers, the fragmenting log
and what is read of a damaged one, the memtable, the skip list with one inserter among readers,
the list of snapshots.

**Reads** (`SortedIterator`, `Merger`, `DbIter`, `DbIterators`). The merging iterator and the
client's iterator, both cursors that change direction.

**Tables** (`Bits`, `Coding`, `Varints`, `Comparators`, `Bloom`, `FilterBlock`, `Block`,
`BlockIter`, `TableFormat`, `TableState`, `TableBuilding`, `Tables`, `TwoLevel`). From key-value
pairs to the bytes of a table and back to single lookups and iteration.

**The cache** (`HandleTable`, `LruCache`). The chained hash table and the two circular lists.

**nanopb** (`PbCommon`, `PbMessage`, `PbWire`, `PbScalars`, `PbTyping`, `PbRecords`, `PbEncode`,
`PbDecode`). `PbMessage` and `PbWire` say as functions what bytes a message has and how bytes are
read; the encoder and decoder are methods proved against them. `PbScalars`, `PbTyping` and
`PbRecords` say what those functions mean on any bytes, without naming how they compute it. The
wire format is that of the Protocol Buffers encoding guide ("Base 128 Varints", "Signed
Integers", "Length-Delimited Records").

`FormatVectors` writes out bytes of every format.

`dafny verify dfyconfig.toml` checks the whole project.

## Findings

The code does not always have the property its comments claim. Each case has the input that
shows it and the exact condition under which the property holds.

| locator | as written | input | intended | confidence |
|---|---|---|---|---|
| `Unsinkable/Pods/leveldb-library/db/version_set.cc:1401-1447` with `Unsinkable/Pods/leveldb-library/db/db_impl.cc:899-999` | `SetupOtherInputs` closes the upper level with `AddBoundaryInputs` but not the lower one, so a lower file that is left out may hold an older value of a user key whose deletion marker the compaction drops | `LostDelete.RUN`, a run of the store from empty, and the compaction of `LostDelete.DeletedKeyReappears` at its end, after which the deleted key 2.0 reads as its old value | a compaction changes no read at a live snapshot; `DbSteps.CompactIff`: it keeps the invariant if and only if `DropsSafe`, that no dropped marker uncovers a value outside the inputs; `DbSteps.ClosedDropsSafe`: that holds whenever `LowerClosed`, a guard on the chosen files that can be checked before the compaction | proved |
| `Unsinkable/Pods/leveldb-library/db/version_edit.cc:26-39` | `Clear` leaves `compact_pointers_` alone, so decoding into a used object keeps the older pointers in front of the new ones | any edit decoded into an object with a pointer (`EditCodec.EditRoundTrip`) | decoding an encoded edit gives it back; `EditCodec.FreshDecodes`: it does if and only if there were no pointers before | proved |
| `Unsinkable/Pods/leveldb-library/db/db_impl.cc:1207-1236` | a group whose log append or sync fails uses up its sequence numbers: the last sequence number is set whatever the status | any group with an operation whose append fails (`GroupCommit.FailGroup`) | numbers in the log leave no gap; `GroupCommit.LogHasNoGap`: they leave none if and only if no operation was in a group that failed; `GroupCommit.LogIsQueueOrder` is what holds in any case | proved |
| `Unsinkable/Pods/leveldb-library/db/log_reader.cc:144-170` with `Unsinkable/Pods/leveldb-library/db/log_reader.h:64-73` | the reader's own codes for the end of the file and for a bad record, 5 and 6, share their range with the types stored in the file, so a whole fragment stored with one of them ends the reading or is passed over, and nothing is reported | a file that is one fragment of type 5 or 6 with its right checksum (`LogDamage.UnreportedFragment`) | every byte read is delivered or reported; `LogDamage.AllKeptIff`: a step of putting records together loses bytes if and only if the fragment has a stored type of 6 and a payload, or is taken for the end of the file with a payload or with part of a record before it (at a true end that part is meant to go without report); `LogDamage.RecordAccounts`: outside of these every byte is accounted for | proved |

## Model

| member | source | states |
|---|---|---|
| `DbFormat.LookupAllEntries` | Unsinkable/Pods/leveldb-library/db/db_impl.cc:1100-1145 | reading the set of all entries ever written at `s` is reading the history at `s`: the two notions of a read agree |
| `Version.FindFile` | Unsinkable/Pods/leveldb-library/db/version_set.cc:88-106 | the binary search finds the first file whose largest key is not before the key, and all files before it end before the key |
| `Version.SomeFileOverlapsRange` | Unsinkable/Pods/leveldb-library/db/version_set.cc:122-157 | with or without the binary search the answer is whether some file of the list overlaps the range of user keys |
| `Version.SeekFindsNewest` | Unsinkable/Pods/leveldb-library/db/version_set.cc:263-276 | one seek in the entries of a table, with the saver callback, answers with the newest visible entry of the user key |
| `Version.CandidatesNewestFirst` | Unsinkable/Pods/leveldb-library/db/version_set.cc:349-363 | exactly the level-0 files whose user-key range covers the key, newest first |
| `Version.SearchLevel0` | Unsinkable/Pods/leveldb-library/db/version_set.cc:349-417 | stopping at the newest level-0 file that answers is a search for the newest visible entry of the whole level |
| `Version.SearchSortedLevel` | Unsinkable/Pods/leveldb-library/db/version_set.cc:365-417 | one file found by binary search is enough at a sorted level, even when the user key spans two files |
| `Version.Get` | Unsinkable/Pods/leveldb-library/db/version_set.cc:326-421 | level by level with early exit: the result is the newest visible entry over all entries of all files |
| `Compaction.CompactionPreservesReads` | Unsinkable/Pods/leveldb-library/db/db_impl.cc:929-963 | the two drop rules change no read at any snapshot from the smallest on if and only if no dropped marker uncovers a value outside the inputs |
| `Compaction.UnsafeDropObservable` | Unsinkable/Pods/leveldb-library/db/db_impl.cc:949-960 | if one does, the reader at the smallest snapshot sees it: the key was deleted before and has a value after |
| `Compaction.CompactionState.IsBaseLevelForKey` | Unsinkable/Pods/leveldb-library/db/version_set.cc:1533-1552 | asked about keys in non-decreasing order, the forward-only cursors answer whether any file of a deeper level covers the key |
| `Compaction.CompactionState.ShouldDrop` | Unsinkable/Pods/leveldb-library/db/db_impl.cc:936-963 | the loop, with its memory of one sequence number, drops exactly the hidden entries and the obsolete markers |
| `Compaction.CompactionState.DoCompactionWork` | Unsinkable/Pods/leveldb-library/db/db_impl.cc:899-1012 | wherever the outputs are cut, they are valid files that together hold exactly the kept entries in order, numbered one after another |
| `InputSelection.GetOverlappingInputs` | Unsinkable/Pods/leveldb-library/db/version_set.cc:519-559 | at level 0 the restarts end with the files of the least range that contains the given one and is closed under user-key overlap; below, with exactly the overlapping files |
| `InputSelection.GetRange` | Unsinkable/Pods/leveldb-library/db/version_set.cc:1205-1224 | the least and the greatest internal key of the files |
| `InputSelection.FindSmallestBoundaryFile` | Unsinkable/Pods/leveldb-library/db/version_set.cc:1344-1362 | of the files that continue the user key past the given key, the one that starts first; none only if there is none |
| `InputSelection.AddBoundaryInputs` | Unsinkable/Pods/leveldb-library/db/version_set.cc:1378-1401 | it ends, adds only files that continue the user key the selection ended with, and leaves none of them out |
| `InputSelection.BoundaryDone` | Unsinkable/Pods/leveldb-library/db/version_set.cc:1378-1401 | after it, every file left out at the level holds only newer entries of any user key of the selection |
| `InputSelection.SetupOtherInputs` | Unsinkable/Pods/leveldb-library/db/version_set.cc:1403-1447 | the attempted expansion only adds files of the upper level and keeps exactly the same lower files, and it is made exactly if it adds files within the byte limit; before and after it only newer entries are left behind at the upper level and all lower files that overlap are taken |
| `InputSelection.PickCompaction` | Unsinkable/Pods/leveldb-library/db/version_set.cc:1270-1322 | from any first file the heuristics choose, the inputs are that file with all it draws in, expanded exactly if the rules allow it, and closed as a compaction needs |
| `InputSelection.CompactRange` | Unsinkable/Pods/leveldb-library/db/version_set.cc:1464-1495 | the same for a manual compaction: the files that overlap the range, above level 0 only as many as it takes to reach the size limit; there is none exactly if no file overlaps |
| `VersionBuilder.SaveLevel` | Unsinkable/Pods/leveldb-library/db/version_set.cc:699-721 | the merge of base and added files is sorted and holds exactly the files not deleted |
| `VersionBuilder.Builder.Apply` | Unsinkable/Pods/leveldb-library/db/version_set.cc:650-692 | after any sequence of edits the pooled files are those that applying the edits one version at a time leaves |
| `VersionBuilder.Builder.SaveTo` | Unsinkable/Pods/leveldb-library/db/version_set.cc:695-755 | the saved lists are sorted and hold, level by level, exactly those files |
| `DbState.EmptyInv` | Unsinkable/Pods/leveldb-library/db/db_impl.cc:182-212 | a new database has the invariant |
| `DbState.SearchIsHistory` | Unsinkable/Pods/leveldb-library/db/db_impl.cc:1100-1145 | stopping at the first of memtable, immutable memtable and version that knows the key gives the answer of the history |
| `DbState.WriteAllInv` | Unsinkable/Pods/leveldb-library/db/db_impl.cc:1185-1256 | a batch of writes keeps the invariant |
| `DbState.RotateInv` | Unsinkable/Pods/leveldb-library/db/db_impl.cc:1346-1366 | so does a memtable becoming immutable |
| `DbSteps.FlushInv` | Unsinkable/Pods/leveldb-library/db/db_impl.cc:491-566 | a flush to any level that `PickLevelForMemTableOutput` may choose keeps the invariant and the set of entries |
| `DbSteps.CompactIff` | Unsinkable/Pods/leveldb-library/db/db_impl.cc:878-1036 | a compaction keeps the invariant if and only if no marker it drops uncovers a value outside its inputs |
| `DbSteps.ClosedDropsSafe` | Unsinkable/Pods/leveldb-library/db/version_set.cc:1403-1447 | no drop uncovers anything if the lower inputs are closed as well as the upper ones |
| `DbSteps.CompactInv` | Unsinkable/Pods/leveldb-library/db/db_impl.cc:878-1036 | a compaction whose lower inputs are closed keeps the invariant, reads at live snapshots included |
| `DbSteps.MoveInv` | Unsinkable/Pods/leveldb-library/db/db_impl.cc:718-729 | moving a file down keeps the invariant and the set of entries |
| `DbRuns.RunInv` | Unsinkable/Pods/leveldb-library/db/db_impl.cc:535-767 | the invariant (levels sorted and disjoint, upper levels and higher level-0 numbers newer, reads right) holds at every state of every run |
| `DbRuns.RunReads` | Unsinkable/Pods/leveldb-library/db/db_impl.cc:1100-1145 | in every run a read at a live snapshot or at the latest number finds the last write numbered no later |
| `DbRuns.SnapshotIsStable` | Unsinkable/Pods/leveldb-library/db/snapshot.h:46-86 | a snapshot answers the same at any two points of its life |
| `LostDelete.RunIsExecution` | Unsinkable/Pods/leveldb-library/db/db_impl.cc:535-767 | the twelve states of `RUN`, from the empty store on, follow one another by steps of the store |
| `LostDelete.DeletedKeyReappears` | Unsinkable/Pods/leveldb-library/db/version_set.cc:1401-1447 | at the end of that run a compaction with everything `SetupOtherInputs` guarantees makes a deleted key read as its old value |
| `Recovery.EveryPhaseInv` | Unsinkable/Pods/leveldb-library/db/db_impl.cc:280-489 | the invariant of running, crashed and recovering databases holds in every run with any number of crashes |
| `Recovery.NothingIsLost` | Unsinkable/Pods/leveldb-library/db/db_impl.cc:310-489 | no acknowledged write is missing from any later state |
| `Recovery.RecoveredExactly` | Unsinkable/Pods/leveldb-library/db/db_impl.cc:310-489 | what is recovered is the history acknowledged before the crash, or that and the one batch in flight as a whole |
| `Reopening.AlwaysOpens` | Unsinkable/Pods/leveldb-library/db/db_impl.cc:280-489 | whenever a running database crashes, some run of recovery steps leads from what is left to an open database with exactly the writes that are left |
| `Reopening.RecoveryEnds` | Unsinkable/Pods/leveldb-library/db/db_impl.cc:371-489 | so it does from any point of a recovery |
| `Recovery.ReadsAfterCrashes` | Unsinkable/Pods/leveldb-library/db/db_impl.cc:1100-1145 | reads of an open database answer from that history, whatever crashes came before |
| `Recovery.NeededFilesExist` | Unsinkable/Pods/leveldb-library/db/db_impl.cc:223-278 | every table of a live version or a running compaction and the current log are on disk whenever the database runs |
| `Recovery.CollectStepInv` | Unsinkable/Pods/leveldb-library/db/db_impl.cc:223-278 | `DeleteObsoleteFiles` removes nothing a recovery needs: the durable invariant survives it |
| `Recovery.CrashLeaves` | Unsinkable/Pods/leveldb-library/db/db_impl.cc:310-369 | a crash, with the last log record cut or not, leaves a directory that can be recovered |
| `Recovery.CommitStepInv` | Unsinkable/Pods/leveldb-library/db/db_impl.cc:1474-1515 | installing the recovered version gives a running database with the invariant |
| `Durable.BaseFlush` | Unsinkable/Pods/leveldb-library/db/db_impl.cc:535-566 | a flush moves the writes of the immutable memtable from what the logs hold to what the tables hold, which is a consistent database again |
| `Durable.Replayed` | Unsinkable/Pods/leveldb-library/db/db_impl.cc:371-489 | replaying the logged writes on what the tables hold rebuilds the memtable they were flushed from, in a consistent database |
| `Manifest.SnapshotRebuilds` | Unsinkable/Pods/leveldb-library/db/version_set.cc:1088-1116 | a snapshot record applied to nothing rebuilds the version it was taken from |
| `Manifest.VersionSet.Recover` | Unsinkable/Pods/leveldb-library/db/version_set.cc:886-1011 | reading the MANIFEST gives sorted levels with exactly the files its edits leave and the last of each recorded number; it succeeds exactly if all three numbers were recorded |
| `Manifest.VersionSet.WriteSnapshot` | Unsinkable/Pods/leveldb-library/db/version_set.cc:1088-1116 | the record describes the current version |
| `Manifest.VersionSet.LogAndApply` | Unsinkable/Pods/leveldb-library/db/version_set.cc:801-884 | the new version is the old one with the edit applied, and the MANIFEST, extended by that record or begun with a snapshot, describes it |
| `ManifestBytes.SnapshotRoundTrip` | Unsinkable/Pods/leveldb-library/db/version_set.cc:1088-1116 | a version written as a snapshot record, encoded, decoded and applied to nothing is that version again |
| `ManifestBytes.MeansOne` | Unsinkable/Pods/leveldb-library/db/version_edit.cc:41-205 | the bytes of a record mean one edit at most |
| `EditCodec.EditRoundTrip` | Unsinkable/Pods/leveldb-library/db/version_edit.cc:41-205 | decoding an encoded edit gives it back, behind any compaction pointers that were there before |
| `EditCodec.FreshDecodes` | Unsinkable/Pods/leveldb-library/db/version_edit.cc:26-39 | it is the same edit if and only if there were none |
| `EditCodec.VersionEdit.Clear` | Unsinkable/Pods/leveldb-library/db/version_edit.cc:26-39 | everything but the compaction pointers is reset |
| `EditCodec.VersionEdit.EncodeTo` | Unsinkable/Pods/leveldb-library/db/version_edit.cc:41-85 | the encoding of the edit is appended |
| `EditCodec.VersionEdit.DecodeFrom` | Unsinkable/Pods/leveldb-library/db/version_edit.cc:107-205 | for any bytes: it succeeds exactly if they are a sequence of fields, and then the edit is what they say |
| `EditFields.EditIs` | Unsinkable/Pods/leveldb-library/db/version_edit.cc:87-205 | what that means, told by the numbers the bytes say: each field one of the eight tags, each level below 7, each number and key whole, nothing left over |
| `DbImpl.DBImpl.Get` | Unsinkable/Pods/leveldb-library/db/db_impl.cc:1100-1145 | the value is that of the last write to the key at the snapshot, or at the latest number |
| `DbImpl.DBImpl.GetSnapshot` | Unsinkable/Pods/leveldb-library/db/db_impl.cc:1166-1169 | the snapshot is the latest sequence number and joins the live ones |
| `DbImpl.DBImpl.ReleaseSnapshot` | Unsinkable/Pods/leveldb-library/db/db_impl.cc:1171-1174 | it leaves them |
| `DbImpl.DBImpl.Write` | Unsinkable/Pods/leveldb-library/db/db_impl.cc:1204-1237 | one batch goes to the end of the current log and into the memtable, and nothing else changes |
| `DbImpl.DBImpl.SwitchMemTable` | Unsinkable/Pods/leveldb-library/db/db_impl.cc:1343-1366 | a new log and a new memtable; the state is that after a rotation |
| `DbImpl.DBImpl.PickLevelForMemTableOutput` | Unsinkable/Pods/leveldb-library/db/version_set.cc:491-516 | the level at which the way down has to stop: nothing on the way shares keys with the table and not too many bytes do two levels below, and the next step is forbidden by one of these, or the level is 2 |
| `DbImpl.DBImpl.CompactMemTable` | Unsinkable/Pods/leveldb-library/db/db_impl.cc:535-566 | a flush step of the durable machine, to the level at which the table has to stop: table, then edit, then the memtable is gone and the older log is no longer needed |
| `DbImpl.DBImpl.TrivialMove` | Unsinkable/Pods/leveldb-library/db/db_impl.cc:718-729 | a move step of the durable machine |
| `DbImpl.DBImpl.DoCompaction` | Unsinkable/Pods/leveldb-library/db/db_impl.cc:860-1036 | a compaction step of the durable machine |
| `DbImpl.DBImpl.DeleteObsoleteFiles` | Unsinkable/Pods/leveldb-library/db/db_impl.cc:223-278 | exactly the logs and tables that are needed stay |
| `DbImpl.DBImpl.RecoverLogFile` | Unsinkable/Pods/leveldb-library/db/db_impl.cc:371-489 | all records of a log are replayed, through tables where the memtable grew large |
| `DbImpl.DBImpl.Open` | Unsinkable/Pods/leveldb-library/db/db_impl.cc:1474-1515 | a database opened on what a crash left has exactly the recoverable writes |
| `WriteBatch.BatchRoundTrip` | Unsinkable/Pods/leveldb-library/db/write_batch.cc:42-80 | the bytes of a batch read back as its sequence number, its operations and their count |
| `WriteBatch.CutBatch` | Unsinkable/Pods/leveldb-library/db/write_batch.cc:42-80 | a batch cut at any byte after the header: the handler gets exactly the operations that are whole, and the status is never ok |
| `WriteBatch.Iterate` | Unsinkable/Pods/leveldb-library/db/write_batch.cc:42-80 | for any bytes: the handler gets the operations up to the first bad one, and the status is ok exactly if all bytes were operations and the count is right |
| `WriteBatch.Batch.Put` | Unsinkable/Pods/leveldb-library/db/write_batch.cc:98-103 | the operation is appended and counted |
| `WriteBatch.Batch.Delete` | Unsinkable/Pods/leveldb-library/db/write_batch.cc:105-109 | the operation is appended and counted |
| `WriteBatch.Batch.Append` | Unsinkable/Pods/leveldb-library/db/write_batch.cc:144-148 | the operations of the source are appended and counted |
| `GroupCommit.BuildBatchGroup` | Unsinkable/Pods/leveldb-library/db/db_impl.cc:1260-1306 | the result holds the operations of the group in queue order, a group as long as it may be; no batch of a caller is written to |
| `GroupCommit.GroupLengthIs` | Unsinkable/Pods/leveldb-library/db/db_impl.cc:1267-1303 | in bytes: a group ends only with the queue, before a synced writer that its leader is not, or before a batch that would take it past 1 MB, or past 128 KB more than a leader of at most 128 KB |
| `GroupCommit.CanGoOn` | Unsinkable/Pods/leveldb-library/db/db_impl.cc:1185-1256 | whoever waits, the queue can go on without anyone else arriving, and gets nearer to its end |
| `GroupCommit.EveryoneLeaves` | Unsinkable/Pods/leveldb-library/db/db_impl.cc:1185-1256 | from every reachable state some run lets every writer leave, with success if no sync has failed |
| `GroupCommit.LogIsQueueOrder` | Unsinkable/Pods/leveldb-library/db/db_impl.cc:1185-1256 | in every interleaving and whatever fails: the memtable got the operations of the writers that succeeded in the order they queued, each batch is in the log, sequence numbers increase and never overlap, and the temporary batch is empty between groups |
| `GroupCommit.LogHasNoGap` | Unsinkable/Pods/leveldb-library/db/db_impl.cc:1204-1237 | the log is those operations with consecutive numbers, and the last number is used, if and only if no operation was in a group that failed |
| `GroupCommit.NothingAfterSyncError` | Unsinkable/Pods/leveldb-library/db/db_impl.cc:1216-1232 | after a background error nothing is logged or applied any more |
| `GroupCommit.SyncErrorIsFinal` | Unsinkable/Pods/leveldb-library/db/db_impl.cc:1216-1232 | so a group whose sync fails is the last to change the log or the memtable |
| `GroupCommit.LeftForGood` | Unsinkable/Pods/leveldb-library/db/db_impl.cc:1239-1248 | a writer leaves once and its outcome never changes |
| `GroupCommit.SyncHonoured` | Unsinkable/Pods/leveldb-library/db/db_impl.cc:1282-1285 | a write that asked for a synced log was in a synced group |
| `Log.EncodingReads` | Unsinkable/Pods/leveldb-library/db/log_reader.cc:56-174 | a record whose last fragment is in the file is read back, one that is cut off is not, and neither is reported as dropped |
| `Log.RecordReads` | Unsinkable/Pods/leveldb-library/db/log_reader.cc:56-174 | the same for any record of a file cut at any byte |
| `Log.TruncatedLogReads` | Unsinkable/Pods/leveldb-library/db/log_reader.cc:56-174 | of a file cut anywhere exactly the records whose last fragment is whole are read, in order, with no drop |
| `Log.Writer.AddRecord` | Unsinkable/Pods/leveldb-library/db/log_writer.cc:34-108 | what is appended depends only on the length of the file |
| `Log.Writer.Reopen` | Unsinkable/Pods/leveldb-library/db/log_writer.cc:27-30 | so a reopened log continues as if it had never been closed |
| `Log.Reader.ReadRecord` | Unsinkable/Pods/leveldb-library/db/log_reader.cc:56-174 | for any file, corrupt ones included: the record, the position and the reported drops are those of the specification |
| `Log.Reader.ReadPhysicalRecord` | Unsinkable/Pods/leveldb-library/db/log_reader.cc:189-271 | for any file one fragment is read buffer by buffer as the specification says |
| `LogDamage.DamagedPhysical` | Unsinkable/Pods/leveldb-library/db/log_reader.cc:234-256 | a whole fragment with any one byte changed, other than in its length, is a bad record, reported with its size; for any checksum whose step is injective |
| `LogDamage.ReadsOn` | Unsinkable/Pods/leveldb-library/db/log_reader.cc:56-174 | whatever happened to a log before a block boundary, reading from there gives exactly the records that begin there or later |
| `LogDamage.RecordAccounts` | Unsinkable/Pods/leveldb-library/db/log_reader.cc:56-174 | every payload byte read is in the record returned, reported as dropped or kept for the record being put together, but for fragments of type 5 or 6 |
| `LogDamage.AllKeptIff` | Unsinkable/Pods/leveldb-library/db/log_reader.cc:144-170 | one step loses bytes exactly in the cases of those types |
| `LogDamage.UnreportedFragment` | Unsinkable/Pods/leveldb-library/db/log_reader.cc:144-170 | a whole fragment of type 5 or 6 is lost and nothing is reported |
| `LoggedBatches.CrashKeepsWholeBatches` | Unsinkable/Pods/leveldb-library/db/db_impl.cc:404-439 | a log of batches cut at any byte gives back a prefix of them, each one whole, and no corruption |
| `MemTables.MemTable.Add` | Unsinkable/Pods/leveldb-library/db/memtable.cc:75-98 | the encoded record goes to its place; everything else stays |
| `MemTables.MemTable.Get` | Unsinkable/Pods/leveldb-library/db/memtable.cc:100-134 | the newest record of the user key visible at the sequence number, a deletion or nothing |
| `MemTables.EntryOrder` | Unsinkable/Pods/leveldb-library/db/memtable.cc:28-34 | comparing encoded keys orders records by user key, then sequence number and type downwards |
| `SkipList.List.FindGreaterOrEqual` | Unsinkable/Pods/leveldb-library/db/skiplist.h:262-281 | the first node at or after the key, and on every level in use the last node before it |
| `SkipList.List.FindLessThan` | Unsinkable/Pods/leveldb-library/db/skiplist.h:285-302 | the last node before the key |
| `SkipList.List.FindLast` | Unsinkable/Pods/leveldb-library/db/skiplist.h:305-322 | the last node |
| `SkipList.List.Contains` | Unsinkable/Pods/leveldb-library/db/skiplist.h:371-378 | whether the key is in the list |
| `SkipList.List.Insert` | Unsinkable/Pods/leveldb-library/db/skiplist.h:337-368 | the key is added, on as many levels as the height says; on each level everything else stays |
| `SkipList.HistoryInv` | Unsinkable/Pods/leveldb-library/db/skiplist.h:337-368 | after every single write of every interleaving each level is strictly sorted and contained in the one below |
| `SkipList.ReaderCanRead` | Unsinkable/Pods/leveldb-library/db/skiplist.h:262-322 | a reader among them can always take its next step |
| `SkipList.EverySearchIsExact` | Unsinkable/Pods/leveldb-library/db/skiplist.h:262-302 | a search answers exactly for the list as it is at its last read, whatever an insertion has done so far |
| `SkipList.CanBegin` | Unsinkable/Pods/leveldb-library/db/skiplist.h:337-346 | an insertion of a key that is not in the list can always begin, with any height |
| `SkipList.InserterCanMove` | Unsinkable/Pods/leveldb-library/db/skiplist.h:337-368 | an insertion that has begun can always take its next step, whatever readers do |
| `SkipList.InsertionEnds` | Unsinkable/Pods/leveldb-library/db/skiplist.h:337-368 | from any point of it some run ends with the key on its levels and on no other |
| `SkipList.OnlyGrows` | Unsinkable/Pods/leveldb-library/db/skiplist.h:337-368 | what a reader could once find stays |
| `SnapshotLists.SnapshotList.Oldest` | Unsinkable/Pods/leveldb-library/db/snapshot.h:47-50 | the oldest has the least number of all |
| `SnapshotLists.SnapshotList.New` | Unsinkable/Pods/leveldb-library/db/snapshot.h:57-70 | the snapshot joins the ring at the newest end |
| `SnapshotLists.SnapshotList.Delete` | Unsinkable/Pods/leveldb-library/db/snapshot.h:79-86 | it leaves the ring and the others stay in order |
| `Merger.MergeExists` | Unsinkable/Pods/leveldb-library/table/merger.cc:179-189 | sorted lists with distinct keys have a merge |
| `Merger.MergingIterator.Seek` | Unsinkable/Pods/leveldb-library/table/merger.cc:47-53 | whatever the positions of the children, the cursor stands where a seek in the merged list stands |
| `Merger.MergingIterator.SeekToFirst` | Unsinkable/Pods/leveldb-library/table/merger.cc:31-37 | at the first entry |
| `Merger.MergingIterator.SeekToLast` | Unsinkable/Pods/leveldb-library/table/merger.cc:39-45 | at the last entry |
| `Merger.MergingIterator.Next` | Unsinkable/Pods/leveldb-library/table/merger.cc:55-79 | one entry on in the merged list, after a move in either direction |
| `Merger.MergingIterator.Prev` | Unsinkable/Pods/leveldb-library/table/merger.cc:81-108 | one entry back, after a move in either direction |
| `DbIter.ShownIsReadable` | Unsinkable/Pods/leveldb-library/db/db_iter.cc:141-299 | the entries the cursor may stand on are exactly the readable keys with their values |
| `DbIter.CursorReads` | Unsinkable/Pods/leveldb-library/db/db_iter.cc:64-71 | a cursor that may stand at an entry reads the value the key has |
| `DbIter.DBIter.Next` | Unsinkable/Pods/leveldb-library/db/db_iter.cc:141-198 | to the next such entry, over deletions, overwrites and entries too new, after a move in either direction |
| `DbIter.DBIter.Prev` | Unsinkable/Pods/leveldb-library/db/db_iter.cc:200-267 | to the previous one |
| `DbIter.DBIter.Seek` | Unsinkable/Pods/leveldb-library/db/db_iter.cc:269-281 | to the first one at or after the target |
| `DbIter.DBIter.SeekToFirst` | Unsinkable/Pods/leveldb-library/db/db_iter.cc:283-292 | to the first one |
| `DbIter.DBIter.SeekToLast` | Unsinkable/Pods/leveldb-library/db/db_iter.cc:294-299 | to the last one |
| `DbIter.DBIter.KeyAndValue` | Unsinkable/Pods/leveldb-library/db/db_iter.cc:64-71 | in either direction the key and value read are those of the entry |
| `DbIter.NextIsSuccessor` | Unsinkable/Pods/leveldb-library/db/db_iter.cc:141-198 | no readable key is jumped over by Next |
| `DbIter.PrevIsPredecessor` | Unsinkable/Pods/leveldb-library/db/db_iter.cc:200-267 | nor by Prev |
| `DbIter.SeekIsLeast` | Unsinkable/Pods/leveldb-library/db/db_iter.cc:269-281 | Seek finds the least readable key at or after the target |
| `DbIter.EndsAreExtreme` | Unsinkable/Pods/leveldb-library/db/db_iter.cc:283-299 | SeekToFirst and SeekToLast find the least and the greatest readable key |
| `DbIterators.SourcesPartition` | Unsinkable/Pods/leveldb-library/db/version_set.cc:230-246 | the memtables, the level-0 tables and the lower levels read as one list each are sorted, share no key and together are the store |
| `DbIterators.IteratorShowsHistory` | Unsinkable/Pods/leveldb-library/db/db_impl.cc:1147-1157 | at a live snapshot the positions of the iterator are exactly the map the history gives |
| `DbIterators.NewIterator` | Unsinkable/Pods/leveldb-library/db/db_impl.cc:1062-1157 | so an iterator made from any state of the database, over the merge of its sources, shows that map |
| `Coding.VarintRoundTrip` | Unsinkable/Pods/leveldb-library/util/coding.cc:81-157 | a varint reads back, whatever follows it |
| `Varints.DecodeVarintIs` | Unsinkable/Pods/leveldb-library/util/coding.cc:112-169 | any bytes are read as a varint exactly if one of at most so many bytes is there, low seven bits first |
| `Varints.EncodeVarintIs` | Unsinkable/Pods/leveldb-library/util/coding.cc:47-96 | what is written is one varint with that value, as short as can be |
| `Varints.LengthPrefixedIs` | Unsinkable/Pods/leveldb-library/util/coding.cc:171-190 | bytes are read with their length exactly if as many follow as it says |
| `Varints.Fixed64Is` | Unsinkable/Pods/leveldb-library/util/coding.h:60-85 | fixed-width words are little-endian |
| `Coding.PutVarint32` | Unsinkable/Pods/leveldb-library/util/coding.cc:47-79 | the five branches write the varint |
| `Coding.PutVarint64` | Unsinkable/Pods/leveldb-library/util/coding.cc:81-96 | so does the loop |
| `Coding.GetVarint32` | Unsinkable/Pods/leveldb-library/util/coding.cc:112-140 | for any bytes: what at most five bytes say, modulo 2^32 |
| `Coding.GetVarint64` | Unsinkable/Pods/leveldb-library/util/coding.cc:142-169 | for any bytes: what at most ten bytes say, modulo 2^64 |
| `Coding.MaskUnmask` | Unsinkable/Pods/leveldb-library/util/crc32c.h:29-38 | masking a checksum and unmasking it lose nothing |
| `Coding.ExtendConcat` | Unsinkable/Pods/leveldb-library/util/crc32c.h:17-20 | extending the checksum of a prefix gives the checksum of the whole |
| `Coding.CrcOfNothing` | Unsinkable/Pods/leveldb-library/util/crc32c.h:19-20 | the checksum of no bytes is 0 |
| `Coding.ExtendByte` | Unsinkable/Pods/leveldb-library/util/crc32c.h:17-20 | each byte is one step of the checksum |
| `Coding.OneByteChanged` | Unsinkable/Pods/leveldb-library/util/crc32c.h:17-20 | with an injective step, changing one byte changes the checksum |
| `Comparators.FindShortestSeparator` | Unsinkable/Pods/leveldb-library/util/comparator.cc:29-50 | a separator, shortened to one byte after the common prefix exactly if there is room |
| `Comparators.FindShortSuccessor` | Unsinkable/Pods/leveldb-library/util/comparator.cc:52-64 | a successor; the key stays only if all its bytes are 0xff |
| `Comparators.InternalIsOrder` | Unsinkable/Pods/leveldb-library/db/dbformat.cc:51-67 | comparing internal keys is a total preorder if comparing user keys is |
| `Comparators.SeparatorBetween` | Unsinkable/Pods/leveldb-library/db/dbformat.cc:69-86 | a separator of internal keys is at or after the first and before the second |
| `Comparators.FindInternalSeparator` | Unsinkable/Pods/leveldb-library/db/dbformat.cc:69-86 | what is computed is such a separator and no longer than the key |
| `Comparators.FindInternalSuccessor` | Unsinkable/Pods/leveldb-library/db/dbformat.cc:88-101 | and the same for a successor |
| `Bloom.NoFalseNegatives` | Unsinkable/Pods/leveldb-library/util/bloom.cc:28-80 | a key of the filter always matches, whatever the hash |
| `Bloom.MatchesIff` | Unsinkable/Pods/leveldb-library/util/bloom.cc:56-80 | a filter of two bytes or more matches exactly if it has more than 30 probes or every bit probed is set; bit by bit, with the probe positions as a formula |
| `Bloom.ClearBitDenies` | Unsinkable/Pods/leveldb-library/util/bloom.cc:70-78 | one clear bit is enough to deny |
| `Bloom.ProbesIs` | Unsinkable/Pods/leveldb-library/util/bloom.cc:18-24 | the number of probes is 0.69 times the bits per key, rounded down, from 1 to 30 |
| `Bloom.BytesForIs` | Unsinkable/Pods/leveldb-library/util/bloom.cc:28-37 | a filter has as many bytes as the bits per key ask for, rounded up, and 8 at least |
| `Bloom.CreateFilter` | Unsinkable/Pods/leveldb-library/util/bloom.cc:28-54 | the filter of the keys is appended, with the probe count at its end |
| `Bloom.KeyMayMatch` | Unsinkable/Pods/leveldb-library/util/bloom.cc:56-80 | whether all probes of the key are set, filters of unknown or short form included |
| `FilterBlock.FilterBlockBuilder.StartBlock` | Unsinkable/Pods/leveldb-library/table/filter_block.cc:21-27 | filters are generated up to the one of the block; keys added so far are in filters before it |
| `FilterBlock.FilterBlockBuilder.Finish` | Unsinkable/Pods/leveldb-library/table/filter_block.cc:35-49 | the block holds the filters with all keys that were added |
| `FilterBlock.FilterBlockReader.KeyMayMatch` | Unsinkable/Pods/leveldb-library/table/filter_block.cc:90-104 | the answer is that of the stored bytes |
| `FilterBlock.FilterBlockReads` | Unsinkable/Pods/leveldb-library/table/filter_block.cc:77-104 | a stored filter block never denies a user key that was added for the 2 KB of the offset; empty filters match nothing and offsets past the end everything |
| `FilterBlock.OnlyFiltersDeny` | Unsinkable/Pods/leveldb-library/table/filter_block.cc:77-104 | whatever the bytes, only the filter stored for the offset denies a key; anything malformed may match |
| `Block.BlockBuilder.Add` | Unsinkable/Pods/leveldb-library/table/block_builder.cc:72-106 | the pair is added to the layout, compressed against the last key or at a restart |
| `Block.BlockBuilder.Finish` | Unsinkable/Pods/leveldb-library/table/block_builder.cc:62-70 | the bytes are those of the layout with its restarts |
| `Block.DecodeEntry` | Unsinkable/Pods/leveldb-library/table/block.cc:54-74 | the path for three one-byte lengths and the long one agree, on any bytes |
| `Block.HeaderRoundTrip` | Unsinkable/Pods/leveldb-library/table/block.cc:54-74 | an entry that was written decodes to its lengths, its key suffix and its value |
| `Block.OpenBlock` | Unsinkable/Pods/leveldb-library/table/block.cc:24-39 | for any bytes: where the restarts are, or that there are none |
| `Block.ContentsOpened` | Unsinkable/Pods/leveldb-library/table/block.cc:19-39 | a block that was built opens at its restarts |
| `BlockIter.Iter.KeyAndValue` | Unsinkable/Pods/leveldb-library/table/block.cc:128-135 | the key and value are those of the pair at the cursor |
| `BlockIter.Iter.ParseNextKey` | Unsinkable/Pods/leveldb-library/table/block.cc:224-251 | the next entry of the block is parsed, or the iterator is invalid exactly at the end |
| `BlockIter.Iter.Next` | Unsinkable/Pods/leveldb-library/table/block.cc:137-140 | one pair on |
| `BlockIter.Iter.Prev` | Unsinkable/Pods/leveldb-library/table/block.cc:142-161 | one pair back, through the restart before it |
| `BlockIter.Iter.Seek` | Unsinkable/Pods/leveldb-library/table/block.cc:163-201 | the binary search over restarts and the scan after it land on the first pair at or after the target |
| `BlockIter.Iter.SeekToFirst` | Unsinkable/Pods/leveldb-library/table/block.cc:203-206 | at the first pair |
| `BlockIter.Iter.SeekToLast` | Unsinkable/Pods/leveldb-library/table/block.cc:208-213 | at the last pair |
| `TableFormat.HandleRoundTrip` | Unsinkable/Pods/leveldb-library/table/format.cc:15-29 | a block handle reads back |
| `TableFormat.FooterRoundTrip` | Unsinkable/Pods/leveldb-library/table/format.cc:31-62 | a footer reads back |
| `TableFormat.MagicThere` | Unsinkable/Pods/leveldb-library/table/format.cc:42-62 | bytes that do not end with the magic number are no footer |
| `TableFormat.DamagedBlock` | Unsinkable/Pods/leveldb-library/table/format.cc:64-104 | a block with any one byte changed, in contents, type or checksum, is no block any more |
| `TableFormat.ReadBlock` | Unsinkable/Pods/leveldb-library/table/format.cc:64-139 | it returns contents exactly if the file holds them there with their checksum |
| `TableBuilding.TableBuilder.Add` | Unsinkable/Pods/leveldb-library/table/table_builder.cc:94-123 | the pair is added to the entries of the table; the data block becomes a block of the file exactly if it has reached its size |
| `TableBuilding.TableBuilder.Flush` | Unsinkable/Pods/leveldb-library/table/table_builder.cc:125-139 | the entries stay, and the data block becomes a block of the file |
| `TableBuilding.TableBuilder.Finish` | Unsinkable/Pods/leveldb-library/table/table_builder.cc:198-253 | the file is a table of exactly the pairs added: blocks, separating index keys, filters, metaindex and footer |
| `Tables.SeekInTable` | Unsinkable/Pods/leveldb-library/table/two_level_iterator.cc:82-87 | seeking in the index and then in that block is seeking among all pairs; if the block has nothing more, the pair found has another user key |
| `Tables.DeniedByFilter` | Unsinkable/Pods/leveldb-library/table/table.cc:222-230 | if the filter denies the target, no pair of the block has its user key |
| `Tables.Table.constructor` | Unsinkable/Pods/leveldb-library/table/table.cc:38-82 | a finished table opens |
| `Tables.Table.ReadMeta` | Unsinkable/Pods/leveldb-library/table/table.cc:84-111 | the metaindex leads to the filter block if there is one |
| `Tables.Table.FindBlock` | Unsinkable/Pods/leveldb-library/table/table.cc:218-221 | the index leads to the one block that can hold the target |
| `Tables.Table.InternalGet` | Unsinkable/Pods/leveldb-library/table/table.cc:216-244 | the pair where the target would stand is handed over if it has the user key of the target, and no other pair is |
| `TwoLevel.TwoLevelIterator.Seek` | Unsinkable/Pods/leveldb-library/table/two_level_iterator.cc:82-87 | at the first pair of the table at or after the target |
| `TwoLevel.TwoLevelIterator.SeekToFirst` | Unsinkable/Pods/leveldb-library/table/two_level_iterator.cc:89-94 | at the first pair |
| `TwoLevel.TwoLevelIterator.SeekToLast` | Unsinkable/Pods/leveldb-library/table/two_level_iterator.cc:96-101 | at the last pair |
| `TwoLevel.TwoLevelIterator.Next` | Unsinkable/Pods/leveldb-library/table/two_level_iterator.cc:103-107 | one pair on, across blocks |
| `TwoLevel.TwoLevelIterator.Prev` | Unsinkable/Pods/leveldb-library/table/two_level_iterator.cc:109-113 | one pair back, across blocks |
| `TwoLevel.TwoLevelIterator.KeyAndValue` | Unsinkable/Pods/leveldb-library/table/two_level_iterator.cc:32-39 | the key and value are those of the pair |
| `HandleTable.Table.FindPointer` | Unsinkable/Pods/leveldb-library/util/cache.cc:114-120 | the slot that points to the entry with the name, or the end of its chain |
| `HandleTable.Table.Lookup` | Unsinkable/Pods/leveldb-library/util/cache.cc:74-76 | the entry with the name, if it is in the table |
| `HandleTable.Table.Insert` | Unsinkable/Pods/leveldb-library/util/cache.cc:78-92 | the entry joins the table in place of the one with its name, which is returned; there are at least as many buckets as entries |
| `HandleTable.Table.Remove` | Unsinkable/Pods/leveldb-library/util/cache.cc:94-102 | the entry with the name leaves the table |
| `HandleTable.Table.Resize` | Unsinkable/Pods/leveldb-library/util/cache.cc:122-147 | the same entries, in 4 buckets doubled only until there are as many as entries |
| `LruCache.LRUCache.Lookup` | Unsinkable/Pods/leveldb-library/util/cache.cc:252-259 | the entry the table has; the client holds it, and of the entries waiting on the LRU list only it leaves, the others in order |
| `LruCache.LRUCache.Release` | Unsinkable/Pods/leveldb-library/util/cache.cc:261-264 | the deleter runs exactly if neither the cache nor a client holds the entry any more; an entry only the cache holds becomes the newest on the LRU list |
| `LruCache.LRUCache.Insert` | Unsinkable/Pods/leveldb-library/util/cache.cc:266-303 | the new entry is in and the one with its name out; of the waiting entries the oldest are evicted, no others, and no more than needed: then the charges fit or none is left, and with the last one evicted they would not have fitted |
| `LruCache.LRUCache.Unref` | Unsinkable/Pods/leveldb-library/util/cache.cc:225-237 | the deleter runs with the last reference; an entry only the cache holds goes to the newest end of the LRU list |
| `LruCache.LRUCache.FinishErase` | Unsinkable/Pods/leveldb-library/util/cache.cc:307-316 | every cached entry is on the one list its references say, and the usage is the sum of the charges |
| `LruCache.LRUCache.Erase` | Unsinkable/Pods/leveldb-library/util/cache.cc:318-321 | the entry with the name leaves the cache |
| `LruCache.LRUCache.Prune` | Unsinkable/Pods/leveldb-library/util/cache.cc:323-333 | exactly the entries that nobody holds leave the cache |
| `LruCache.LRUCache.Destroy` | Unsinkable/Pods/leveldb-library/util/cache.cc:205-215 | with no client left, every entry there ever was has had its deleter run exactly once |
| `PbCommon.FieldIter.Next` | Unsinkable/Pods/nanopb/pb_common.c:20-76 | position, offsets and required-field index are functions of the position reached, around the end of the table too |
| `PbCommon.AddressOfMember` | Unsinkable/Pods/nanopb/pb_common.c:20-76 | for a table made from a structure, these are the addresses of its members and of their presence fields; members of a union share theirs |
| `PbCommon.FieldIter.Find` | Unsinkable/Pods/nanopb/pb_common.c:78-95 | at most one lap; it succeeds exactly if some row that is no extension has the tag |
| `PbWire.Varint64RoundTrip` | Unsinkable/Pods/nanopb/pb_decode.c:255-275 | a varint of 64 bits reads back |
| `PbWire.Varint32RoundTrip` | Unsinkable/Pods/nanopb/pb_decode.c:187-253 | so does one of 32 bits |
| `PbWire.ZigZagRoundTrip` | Unsinkable/Pods/nanopb/pb_encode.c:630-639 | a signed number survives zig-zag and back |
| `PbWire.ScalarRoundTrip` | Unsinkable/Pods/nanopb/pb_decode.c:1328-1517 | every scalar type decodes what it encodes |
| `PbScalars.ScalarIs` | Unsinkable/Pods/nanopb/pb_decode.c:1328-1564 | for any bytes and every type but messages: a value is read exactly if it is what the bytes say and fits its field; varints with padding, signs, casts and strings up to a NUL included |
| `PbScalars.WidthIs` | Unsinkable/Pods/nanopb/pb_decode.c:1339-1422 | the numbers that fit a field of 1, 2, 4 or 8 bytes |
| `PbScalars.Varint32Is` | Unsinkable/Pods/nanopb/pb_decode.c:187-253 | a word of 32 bits is read exactly if the varint has bits for no more, but for padding with zeros or with the sign |
| `PbScalars.SkipVarintIs` | Unsinkable/Pods/nanopb/pb_decode.c:278-287 | a varint is skipped up to its last byte |
| `PbWire.PackedRoundTrip` | Unsinkable/Pods/nanopb/pb_decode.c:424-453 | so does a packed array |
| `PbWire.FieldRoundTrip` | Unsinkable/Pods/nanopb/pb_decode.c:928-1076 | the records of one field fill in its slot and nothing else |
| `PbWire.MessageRoundTrip` | Unsinkable/Pods/nanopb/pb_decode.c:928-1076 | decoding the encoding of any well-typed message, submessages, arrays and unions included, gives it back |
| `PbMessage.LeftOutIff` | Unsinkable/Pods/nanopb/pb_encode.c:238-426 | a field writes nothing exactly if it has a way not to be there and is not: an implicit one is zero, empty or a message of which nothing would be written |
| `PbTyping.RecordChanges` | Unsinkable/Pods/nanopb/pb_decode.c:406-483 | a record fills in the slot of its field and empties those of the others of its union; no other slot changes |
| `PbTyping.OnePerUnionKept` | Unsinkable/Pods/nanopb/pb_decode.c:466-478 | whatever the bytes: one member at most of each union before decoding, and one at most after it |
| `PbTyping.DecodedFits` | Unsinkable/Pods/nanopb/pb_decode.c:1078-1090 | whatever the bytes: a decoded message fits its descriptor at every depth, values in range, arrays within their sizes, one member at most of each union |
| `PbTyping.MessageIff` | Unsinkable/Pods/nanopb/pb_decode.c:928-1076 | records that can be read make a message exactly if no fixed-count array is left in part and each of the first 64 required fields has a record |
| `PbRecords.SkipsValue` | Unsinkable/Pods/nanopb/pb_decode.c:278-331 | any value is skipped exactly, by the wire type its record announces |
| `PbRecords.UnknownAnywhere` | Unsinkable/Pods/nanopb/pb_decode.c:960-990 | records of a field that is not in the table change nothing, wherever they stand between records |
| `PbRecords.FewerFields` | Unsinkable/Pods/nanopb/pb_decode.c:928-1076 | a reader that knows only some of the fields of a message reads exactly those |
| `PbRecords.Merged` | Unsinkable/Pods/nanopb/pb_decode.c:928-1076 | two messages read one after the other into the same slots read as their bytes in a row: values replaced, items appended, submessages merged |
| `PbRecords.SubmessageMerged` | Unsinkable/Pods/nanopb/pb_decode.c:1519-1541 | a submessage that occurs twice reads as one with the contents of both |
| `PbEncode.OStream.Write` | Unsinkable/Pods/nanopb/pb_encode.c:103-124 | the bytes are counted, and written if there is a buffer and room |
| `PbEncode.EncodeDatum` | Unsinkable/Pods/nanopb/pb_encode.c:769-912 | one value: the bytes of the wire format, or the stream is full |
| `PbEncode.EncodeArrayTo` | Unsinkable/Pods/nanopb/pb_encode.c:147-236 | packed or one record each, sizes counted first |
| `PbEncode.EncodeSubmessage` | Unsinkable/Pods/nanopb/pb_encode.c:717-765 | the pass that counts and the pass that writes agree at every depth: the size never changes |
| `PbEncode.EncodeMessage` | Unsinkable/Pods/nanopb/pb_encode.c:528-550 | all fields in the order of the table |
| `PbEncode.GetEncodedSize` | Unsinkable/Pods/nanopb/pb_encode.c:567-576 | the size is that of the encoding |
| `PbEncode.EncodeToBuffer` | Unsinkable/Pods/nanopb/pb_encode.c:528-550 | encoding succeeds exactly if the buffer is at least that large, and then holds the encoding |
| `PbDecode.DecodeVarint32` | Unsinkable/Pods/nanopb/pb_decode.c:187-253 | for any bytes: the value, or failure, that the wire format gives |
| `PbDecode.DecodeVarint64` | Unsinkable/Pods/nanopb/pb_decode.c:255-275 | for any bytes, modulo 2^64 |
| `PbDecode.DecodeTag` | Unsinkable/Pods/nanopb/pb_decode.c:298-319 | wire type and tag; a key of zero ends the message |
| `PbDecode.SkipField` | Unsinkable/Pods/nanopb/pb_decode.c:278-331 | exactly one field is skipped, or it fails |
| `PbDecode.MakeSubstream` | Unsinkable/Pods/nanopb/pb_decode.c:372-385 | the substream has exactly the announced bytes |
| `PbDecode.CloseSubstream` | Unsinkable/Pods/nanopb/pb_decode.c:387-400 | the parent continues right after them |
| `PbDecode.DecodeArrayFrom` | Unsinkable/Pods/nanopb/pb_decode.c:424-464 | packed and unpacked items are taken for any bytes as the wire format says, overflow included |
| `PbDecode.DecodeStaticField` | Unsinkable/Pods/nanopb/pb_decode.c:406-483 | the slot of the field is filled in as the wire format says |
| `PbDecode.MarkSeen` | Unsinkable/Pods/nanopb/pb_decode.c:1015-1020 | the bitmap has the bit of the index set as well, and no other |
| `PbDecode.AllSeen` | Unsinkable/Pods/nanopb/pb_decode.c:1054-1072 | whole words and then the remaining bits: the check passes exactly if all indices below the count were seen |
| `PbDecode.CheckRequired` | Unsinkable/Pods/nanopb/pb_decode.c:1033-1073 | it passes exactly if each of the first 64 required fields occurred |
| `PbDecode.DecodeNoinit` | Unsinkable/Pods/nanopb/pb_decode.c:928-1076 | for any bytes: the message, or failure, that the wire format gives |
| `PbDecode.DecodeBuffer` | Unsinkable/Pods/nanopb/pb_decode.c:1078-1090 | the same, from the default values |
| `FormatVectors.BatchBytes` | Unsinkable/Pods/leveldb-library/db/write_batch.cc:5-14 | a batch of a put and a deletion, byte by byte |
| `FormatVectors.LogBytes` | Unsinkable/Pods/leveldb-library/db/log_format.h:14-31 | a record in the log, byte by byte |
| `FormatVectors.LogBytesAtEnd` | Unsinkable/Pods/leveldb-library/db/log_writer.cc:41-58 | a record that begins where a block has room for a header only, and for none |
| `FormatVectors.TableBytes` | Unsinkable/Pods/leveldb-library/table/format.cc:31-40 | a footer and a block trailer, byte by byte |
| `FormatVectors.KeyBytes` | Unsinkable/Pods/leveldb-library/db/dbformat.cc:14-23 | an internal key |
| `FormatVectors.RecordBytes` | Unsinkable/Pods/leveldb-library/db/memtable.cc:75-98 | a put and a deletion in the memtable |
| `FormatVectors.BlockBytes` | Unsinkable/Pods/leveldb-library/table/block_builder.cc:5-27 | a block of two entries |
| `FormatVectors.EditBytes` | Unsinkable/Pods/leveldb-library/db/version_edit.cc:12-24 | each item of a version edit |
| `FormatVectors.FilterBytes` | Unsinkable/Pods/leveldb-library/table/filter_block.cc:35-49 | a filter block without filters |
| `FormatVectors.StringBytes` | Unsinkable/Pods/nanopb/pb_encode.c:709-715 | the guide's string |
| `FormatVectors.VarintBytes` | Unsinkable/Pods/nanopb/pb_encode.c:583-639 | the guide's examples of numbers in messages |
| `FormatVectors.FixedBytes` | Unsinkable/Pods/nanopb/pb_encode.c:641-705 | words of 32 and 64 bits with their keys |
| `FormatVectors.PackedBytes` | Unsinkable/Pods/nanopb/pb_encode.c:147-236 | the guide's packed array |
| `FormatVectors.SubmessageBytes` | Unsinkable/Pods/nanopb/pb_encode.c:717-765 | and its message in a message |

## Left out

Hypotheses of the theorems:

- DbSteps.CompactInv: takes the lower inputs as closed (`LowerClosed`), which the code does not ensure; `DbSteps.CompactIff` is without it. The runs of `DbRuns` and `Recovery` take compactions with this guard.
- Every compaction is one step: no flush happens inside `DoCompactionWork` (`db/db_impl.cc:908-918`), and shutting down does not cut it short.
- Fewer than 2^56 - 1 writes in all, since the largest sequence number marks "not seen yet" (`db/db_impl.cc:905`).
- File operations of the store succeed; a crash is the only failure. Failing log appends and syncs are in `GroupCommit`. What a failed append leaves in the log file is not modelled.
- Completed appends survive a crash, the last one may be cut at any byte; renames are atomic. `reuse_logs` is false, `prev_log_number` is 0.
- DbImpl.DBImpl.Open: takes a directory that a crash of this machine can leave; missing or corrupt files and the errors they give are not modelled.
- PbWire.MessageRoundTrip: takes messages of less than 2^32 bytes under descriptors (`DescOk`) whose tags are not zero and unique, with values (`SlotsOk`) that fit their fields: strings end in a zero within their size, implicit fields have zero as their default.
- Tables.Table.constructor: takes a file that `TableBuilder` has finished; the errors for other files are not modelled.

Where layers are not joined:

- User keys of the store are real numbers (any order of strings embeds in them); tables, memtables and batches have byte strings under the bytewise comparator. `ManifestBytes` takes the encoding of keys as a parameter; no other theorem spans the two.
- MemTables.MemTable.Add: inserts into a sorted list; the skip list, which keeps the same order, is a model of its own.
- The sources of an iterator (memtable, table and concatenating iterators) are cursors over lists, `SortedIterator.ListIterator`; that block and table iterators are such cursors is in `BlockIter` and `TwoLevel`.

Not modelled:

- Heuristics: compaction scores, seek sampling, `ShouldStopBefore`, when background work is scheduled. Compactions happen at any time, on any level, and cut their outputs anywhere.
- `BackgroundCompaction` as a whole; its branches are methods of their own. `MakeRoomForWrite` waiting or slowing down, condition variables and liveness.
- Log reader with an initial offset greater than 0, `LastRecordOffset`; the file is read in whole blocks.
- Snappy; the polynomial of the checksum and the hash of the filter, which are any functions.
- TableBuilding.TableBuilder.Add: needs room for 64-bit offsets and 32-bit block sizes, beyond which the code overflows; the same holds of block, filter and index sizes.
- The block cache inside table reads, the table cache, `IteratorWrapper`'s copy of key and validity, cleanup functions.
- `ShardedLRUCache`: sixteen caches, one by the top four bits of the hash; values and deleters are the addresses of entries.
- Arena memory, memory orders weaker than sequential consistency, `ApproximateSizes`, `DebugString`, `RepairDB`, `DestroyDB`, the environment and the C bindings.
- LogDamage.DamagedPhysical: takes the step of the checksum to be injective in the word and in the byte, as that of CRC-32C is; a changed length field moves the end of the fragment and is not part of it.
- PbRecords.Merged: takes descriptors without fixed-count arrays, whose size the decoder does not keep from one message to the next.
- nanopb callbacks, extensions, pointer fields, custom streams, default values other than zero, `pb_release`, delimited and null-terminated messages.
- PbDecode.DecodeVarint32: the bit position has no width; in the code it would wrap after 36 bytes of one varint.
- PbDecode.DecodeNoinit: does not say what the structure holds after a failed decode; fields are slots, not offsets in memory.
