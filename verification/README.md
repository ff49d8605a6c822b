# LevelDB and nanopb: models and proofs

LevelDB is a log-structured merge store. Batches of writes are grouped, logged and put into a skip-list
memtable; memtables are flushed to sorted tables; tables are moved and compacted through seven levels; reads
look through the memtable and the levels at a snapshot, by point lookup or by an iterator in either direction.
nanopb encodes and decodes Protocol Buffers messages as a table of fields describes them.

The project models both as their sources have them, classes and loops where the code updates state, functions
where it computes, and proves what holds over all inputs, all calls and all runs.

**What is read.** A read of a user key at a snapshot returns the value of the newest entry that is not newer
than the snapshot, and nothing if that is a deletion (`Keys.Lookup`). Everything that answers reads is proved
against this one function: the version search (`VersionGet`), the memtable (`MemTables`), the user-facing
iterator over merged runs (`DbIter`, `Merger`, `StoreIterators`), and the loop that drops entries (`Compactions`).

**Versions over time.** `VersionRuns` and `VersionHistory` define flush, trivial move and compaction as steps on
a version and prove that every run keeps the level invariants and the answers of all reads at or after the
highest snapshot that a compaction took for the smallest. `Background` has the class whose methods flush, move
and compact, each proved to be such a step, and whose `Get` reads what they leave. `VersionOps` proves the
methods that pick levels and inputs, `OutputCuts` where a compaction cuts its outputs, `VersionBuilder` and `VersionEdits` that a manifest recovers the version it
describes.

**Writes and crashes.** `WriteQueue` and `WriteRuns` are the writer queue as a state machine with concurrent
arrivals, group leaders and failures of the log's file or of a sync; `Log` and `LogRoundTrip` are the log format,
with the theorem that any byte prefix reads back as its whole records; `LogChecks` says what the records are made
of that a reader returns from any file; `LogFaults` is about writes that fail halfway; `Recovery` puts them
together: what comes back after a crash.

**Structures.** `SkipLists` and `SkipListRuns` (an insert's stores interleaved with a search's loads), `Blocks`,
`BlockIters`, `TableFormat`, `TableBuilders`, `TableReaders` (one block probed through shortened separators),
`Comparators`, `Blooms`, `FilterBlocks`, `FilteredTables`, `HandleTables`, `Caches`, `Snapshots`, `TwoLevel`, `Coding`,
`Crc32c`, `LogChecksum` (what the checksum makes of a block of zeros), `Formats` (bytes and checksums as the formats
have them).

**nanopb.** `PbSchema` has schemas and the values that fit them, `PbWire` the wire format as functions,
`PbRoundTrip` the round trip for every schema, `PbEncode` and `PbDecode` the imperative encoder and decoder with
the sizing pass and the bitmap of required fields. `PbKeys`, `PbMerge` and `PbBounds` are about bytes that no encoder
wrote: missing and unknown fields, submessages in parts, and that nothing decoded leaves its bounds. `PbExamples` has
the examples of the encoding specification.

Where the code does something that its comments do not say, the model follows the code:

- an internal key that does not parse resets the compaction loop and can bring a deleted value back; exactly
  when is `Compactions.ReadsKeptExactly`, an instance is `Compactions.CorruptKeyRevives`. Keys in the store's
  own files always parse, which the runs in `VersionHistory` keep;
- `VersionEdit::Clear` leaves the compaction pointers, so an edit decoded into a used object keeps the old ones
  in front;
- an empty filter in a filter block is handed to the policy, which decides (`FilterBlocks.AnswersByFilter`); the
  branch for empty filters is not reached in a block that was built.

Two hypotheses are part of the definition of a run of versions, because the code does not establish them by
itself. One is that the inputs of a move or compaction leave nothing in their level that is older than what they
hold of the same user key (`VersionRuns.LeavesNoOlder`). At level 0 it is proved; deeper it can be checked at the
bounds of the files (`VersionRuns.LeavesNoOlderMeans`); without it a move breaks the invariant
(`VersionHistory.MoveKeepsExactly`), a compaction changes exactly the reads that `Compactions.ReadsKeptExactly`
names. `SplitKeys` has the run that gets there: a value flushed to level 2 and its deletion to level 1, as the
picked levels are; a compaction, with a snapshot between the two, whose outputs are cut between them; then the
trivial move of the newer file, after which the search of the levels returns the deleted value. The other is that each flush, move and compaction
takes effect in one step on the version it was prepared from.

A third condition concerns the log. When a call on its file fails, the writer's offset goes on as if the record
had been written, only the writers of that group are told, and later writes go into the same file. An acknowledged
sync write that follows can be lost (`Recovery.LosesSyncedWrite`). Writes survive as long as the writer's offset
has agreed with the file after every record, failed ones included, which a caller can see from the file's length
(`Recovery.SyncedSurvives`); and after any call the writer may go on exactly when that is so
(`LogFaults.GoesOnIffInStep`, and `LogChecksum.LogGoesOnIffInStep` for CRC32C).

## Model

| member | source | states |
|---|---|---|
| VersionHistory.RunsKeep | 1. PicksOnMap/Pods/leveldb-library/db/version_set.cc:711-772 | In every run of flushes, trivial moves and compactions from the empty version, every level from 1 down stays sorted with disjoint ranges, shallower levels stay newer, higher file numbers in level 0 stay newer, and every read at or after the highest compaction snapshot answers from the version as from everything ever flushed |
| VersionHistory.StepKeeps | 1. PicksOnMap/Pods/leveldb-library/db/db_impl.cc:686-769 | Each of the three steps keeps the level invariants and the agreement of reads |
| VersionHistory.InitIsValid | 1. PicksOnMap/Pods/leveldb-library/db/version_set.cc:775-794 | The empty version satisfies the invariant the runs keep |
| VersionHistory.FlushKeeps | 1. PicksOnMap/Pods/leveldb-library/db/db_impl.cc:488-532 | A flushed table at the level picked for it keeps the invariant, whichever of the levels up to 2 that is |
| VersionHistory.MoveKeeps | 1. PicksOnMap/Pods/leveldb-library/db/db_impl.cc:712-731 | Moving one file a level down without rewriting it keeps the invariant |
| VersionHistory.CompactKeeps | 1. PicksOnMap/Pods/leveldb-library/db/db_impl.cc:887-1045 | Replacing the inputs by what the compaction loop wrote, cut anywhere into files, keeps the invariant |
| VersionHistory.CompactKeepsRead | 1. PicksOnMap/Pods/leveldb-library/db/db_impl.cc:900-1008 | After a compaction a read at or after the smallest snapshot still answers as from everything flushed |
| VersionHistory.NewsApart | 1. PicksOnMap/Pods/leveldb-library/db/version_set.cc:1345-1389 | Files written from the inputs stay apart from every file of the target level that was not an input |
| VersionHistory.PushedIsOlder | 1. PicksOnMap/Pods/leveldb-library/db/version_set.cc:1345-1389 | What is left in the upper levels, the input level included, is newer than what was pushed down |
| VersionHistory.PushedIsNewer | 1. PicksOnMap/Pods/leveldb-library/db/version_set.cc:1345-1389 | What was pushed down is newer than all that lies deeper |
| VersionRuns.FlushFits | 1. PicksOnMap/Pods/leveldb-library/db/version_set.cc:502-529 | A table flushed to the picked level fits: apart from its neighbours, newer than what is deeper, not newer than what is above, the newest in level 0 |
| VersionRuns.ReplacesKeepsValid | 1. PicksOnMap/Pods/leveldb-library/db/version_set.cc:711-757 | Deleting files and adding others that fit keeps all invariants of a version |
| SplitKeys.SplitKeyRevives | 1. PicksOnMap/Pods/leveldb-library/db/db_impl.cc:998-1004 | For files of any size at or above the output limit: flushing a value and then its deletion and compacting them with a snapshot in between is a run; that compaction is no move, its outputs are cut between the two entries; the newer file then may be moved trivially, which leaves a version that is not valid and whose first level that answers has the deleted value |
| SplitKeys.PickedLevels | 1. PicksOnMap/Pods/leveldb-library/db/version_set.cc:502-529 | The levels in that run are those that are picked: 2 for the value, 1 for its deletion, if the value's file is not larger than what a move may overlap |
| SplitKeys.ReadAfterMove | 1. PicksOnMap/Pods/leveldb-library/db/version_set.cc:332-429 | After the move the search of the levels returns the deleted value |
| VersionRuns.ClosedLeavesNoOlder | 1. PicksOnMap/Pods/leveldb-library/db/version_set.cc:557-569 | At level 0, where inputs are closed under overlap, nothing older than an input's entry of its user key is left |
| VersionRuns.LeavesNoOlderMeans | 1. PicksOnMap/Pods/leveldb-library/db/version_set.cc:557-569 | In a disjoint level nothing older is left if and only if no file that is left begins with the user key that an input before it ends with |
| VersionHistory.MoveKeepsExactly | 1. PicksOnMap/Pods/leveldb-library/db/db_impl.cc:717-724 | A move, as it may be set up, keeps the invariant if and only if it leaves nothing older than an entry of the file moved in its level |
| VersionHistory.CompactReadExactly | 1. PicksOnMap/Pods/leveldb-library/db/db_impl.cc:939-1008 | Whatever is left beside the inputs, a compaction keeps a read at or after its smallest snapshot if and only if it does not revive a value for it |
| Compactions.ReadsKeptExactly | 1. PicksOnMap/Pods/leveldb-library/db/db_impl.cc:939-972 | Whatever else is in the store, keeping only what the loop keeps leaves a read at or after the smallest snapshot unchanged if and only if the read does not meet a deletion dropped for want of deeper files, with an older value left beside the inputs or right below an unparsable entry, and no other deletion in between |
| Compactions.KeepsReads | 1. PicksOnMap/Pods/leveldb-library/db/db_impl.cc:939-972 | When every key parses and nothing older is left beside the inputs, no read at or after the smallest snapshot changes |
| Compactions.CorruptKeyRevives | 1. PicksOnMap/Pods/leveldb-library/db/db_impl.cc:940-945 | A concrete run of three entries in which an unparsable key between a dropped deletion and an older value brings the value back |
| Compactions.KeptBelowDeletion | 1. PicksOnMap/Pods/leveldb-library/db/db_impl.cc:939-972 | Below a deletion at or before the smallest snapshot of a key without deeper files, exactly the values right after an unparsable entry are kept |
| Compactions.KeptHolds | 1. PicksOnMap/Pods/leveldb-library/db/db_impl.cc:939-1008 | The loop keeps an entry if and only if the drop rule does not apply to it |
| Compactions.DoCompactionWork | 1. PicksOnMap/Pods/leveldb-library/db/db_impl.cc:887-1015 | The loop over the merged inputs writes nonempty, consecutively numbered files that together hold exactly the entries the drop rule keeps. Every output but the last ended because its size had reached the maximum or because a key to stop before came, no part of an output had reached it, and no such key lies inside an output |
| Compactions.Compaction.ShouldStopBefore | 1. PicksOnMap/Pods/leveldb-library/db/version_set.cc:1505-1526 | The sweep over the grandparents answers for each key asked about as counting all of them so far would |
| OutputCuts.StopMeans | 1. PicksOnMap/Pods/leveldb-library/db/version_set.cc:1505-1526 | A key is one to stop before exactly when, since the last such key or the first of all, more bytes of grandparents have ended than permitted |
| OutputCuts.SpansFew | 1. PicksOnMap/Pods/leveldb-library/db/version_set.cc:1505-1526 | So the grandparents that end within an output are never more than the permitted bytes |
| OutputCuts.CutsDetermined | 1. PicksOnMap/Pods/leveldb-library/db/db_impl.cc:936-1004 | Two ways to cut the same entries that meet the conditions of the loop are the same files |
| Compactions.DroppedMeans | 1. PicksOnMap/Pods/leveldb-library/db/db_impl.cc:957-980 | With keys that parse, an entry is dropped exactly when a newer one of its user key is also at or below the smallest snapshot, or it is a deletion there and nothing deeper holds the key |
| Compactions.TestEntry | 1. PicksOnMap/Pods/leveldb-library/db/db_impl.cc:939-972 | The loop's running user key and last sequence number decide the drop rule for each entry |
| Compactions.Compaction.IsBaseLevelForKey | 1. PicksOnMap/Pods/leveldb-library/db/version_set.cc:1484-1503 | For ascending keys the level_ptrs sweep answers true exactly when no file two or more levels down covers the user key |
| Compactions.NoneCovers | 1. PicksOnMap/Pods/leveldb-library/db/version_set.cc:1488-1500 | In a disjoint level a key before the first file not passed is covered by no file |
| Snapshots.SnapshotList.New | 1. PicksOnMap/Pods/leveldb-library/db/snapshot.h:42-51 | A new snapshot joins the newest end of the ring; numbers stay in order |
| Snapshots.SnapshotList.Delete | 1. PicksOnMap/Pods/leveldb-library/db/snapshot.h:53-58 | Unlinking takes exactly that snapshot out and keeps the order of the others |
| Snapshots.SnapshotList.Oldest | 1. PicksOnMap/Pods/leveldb-library/db/snapshot.h:39 | The oldest snapshot has a number no live snapshot goes below |
| Snapshots.SnapshotList.Newest | 1. PicksOnMap/Pods/leveldb-library/db/snapshot.h:40 | The newest has a number no live snapshot exceeds |
| Snapshots.SmallestSnapshot | 1. PicksOnMap/Pods/leveldb-library/db/db_impl.cc:900-904 | What compaction takes for the smallest snapshot bounds every live snapshot from below and is one of them, or the last sequence number |
| Background.VersionSet.Get | 1. PicksOnMap/Pods/leveldb-library/db/db_impl.cc:1109-1154 | However the versions were made by the calls below, a read at or after the horizon returns what a scan of everything ever flushed would |
| Background.VersionSet.BackgroundCompaction | 1. PicksOnMap/Pods/leveldb-library/db/db_impl.cc:686-769 | The inputs are those that picking and growing give; they are moved exactly when that is trivial and otherwise merged, with outputs cut where due; and that is one step of a run whenever the inputs leave nothing older in their levels, so the invariants and reads are kept |
| Background.VersionSet.IsTrivialMove | 1. PicksOnMap/Pods/leveldb-library/db/version_set.cc:1466-1474 | True exactly for one input with nothing to merge it with and, two levels down, at most the permitted bytes that overlap it |
| Background.VersionSet.CompactMemTable | 1. PicksOnMap/Pods/leveldb-library/db/db_impl.cc:488-565 | Writing a memtable to the level that is picked for it is a flush step of a run; an empty one adds no file |
| Background.VersionSet.CompactFiles | 1. PicksOnMap/Pods/leveldb-library/db/db_impl.cc:866-1045 | The compaction loop over the merged inputs and the edit with what it wrote make a compaction step |
| Background.VersionSet.MoveFile | 1. PicksOnMap/Pods/leveldb-library/db/db_impl.cc:717-724 | Deleting the file at its level and adding it below makes a move step |
| Background.MakeInputIterator | 1. PicksOnMap/Pods/leveldb-library/db/version_set.cc:1258-1289 | Level-0 files one by one and deeper inputs end to end are sorted runs without a common key, so the iterator merges exactly the entries of the inputs |
| Background.LogAndApply | 1. PicksOnMap/Pods/leveldb-library/db/version_set.cc:820-842 | The version that it makes current is the one before with the edit applied |
| Background.AddInputDeletions | 1. PicksOnMap/Pods/leveldb-library/db/version_set.cc:1476-1482 | Every input of both levels is deleted at its level |
| Background.RunsShareNoKey | 1. PicksOnMap/Pods/leveldb-library/db/version_set.cc:1258-1289 | In a valid version no two of the runs merged share an internal key |
| Background.RunsSorted | 1. PicksOnMap/Pods/leveldb-library/db/version_set.cc:1258-1289 | Each of them is sorted |
| Background.OverlappingInOrder | 1. PicksOnMap/Pods/leveldb-library/db/version_set.cc:531-572 | Picking the files that overlap keeps the order of the level |
| VersionOps.GetOverlappingInputs | 1. PicksOnMap/Pods/leveldb-library/db/version_set.cc:531-572 | Despite its restarts it ends, with the files overlapping a range that at level 0 is the least one around the query closed under overlap, and is the query itself deeper down |
| VersionOps.SetupOtherInputs | 1. PicksOnMap/Pods/leveldb-library/db/version_set.cc:1345-1396 | The lower inputs are exactly the next level's files that overlap the upper range, before and after growing; the upper inputs are grown to what they may grow to exactly when that is more files, fewer bytes with the lower ones than the limit, and overlaps no more of the next level; the grandparents are the files two levels down that overlap all of them |
| VersionOps.PickInputs | 1. PicksOnMap/Pods/leveldb-library/db/version_set.cc:1291-1343 | The input is the picked file, at level 0 with the least set of files closed under overlap around it |
| VersionOps.PickLevelForMemTableOutput | 1. PicksOnMap/Pods/leveldb-library/db/version_set.cc:502-529 | A deeper level is picked only past levels without overlap and with few enough bytes two levels below each, and it stops exactly for an overlap or too many bytes |
| VersionOps.FindFile | 1. PicksOnMap/Pods/leveldb-library/db/version_set.cc:86-105 | The binary search finds the first file whose largest key is not before the key |
| VersionOps.SomeFileOverlapsRange | 1. PicksOnMap/Pods/leveldb-library/db/version_set.cc:121-157 | True if and only if some file overlaps the user-key range, by scan or, in a disjoint level, by binary search |
| VersionOps.GetRange | 1. PicksOnMap/Pods/leveldb-library/db/version_set.cc:1224-1244 | The least and greatest bounds over the input files |
| VersionBuilder.Recover | 1. PicksOnMap/Pods/leveldb-library/db/version_set.cc:939-982 | All edits folded into one builder with one save give the levels that the edits mean |
| VersionBuilder.ApplyOneByOne | 1. PicksOnMap/Pods/leveldb-library/db/version_set.cc:820-842 | So does applying each edit to a new builder over the version before it |
| VersionBuilder.RecoverAgrees | 1. PicksOnMap/Pods/leveldb-library/db/version_set.cc:939-982 | The two give the same lists of files, in the same order |
| VersionBuilder.Builder.Apply | 1. PicksOnMap/Pods/leveldb-library/db/version_set.cc:665-708 | Deletions and additions of an edit are gathered per level, an addition cancelling an earlier deletion of its number |
| VersionBuilder.Builder.SaveLevel | 1. PicksOnMap/Pods/leveldb-library/db/version_set.cc:711-739 | Merging base and added files gives, sorted and once each, exactly those not deleted |
| VersionBuilder.Builder.SaveTo | 1. PicksOnMap/Pods/leveldb-library/db/version_set.cc:711-757 | The same for every level |
| VersionBuilder.GatheredSaves | 1. PicksOnMap/Pods/leveldb-library/db/version_set.cc:693-704 | For histories that never re-add a file, what was gathered saves exactly what is left after the edits |
| VersionEdits.VersionEdit.EncodeTo | 1. PicksOnMap/Pods/leveldb-library/db/version_edit.cc:41-86 | Appends the tagged fields of the edit, in the order of the tags |
| VersionEdits.VersionEdit.DecodeFrom | 1. PicksOnMap/Pods/leveldb-library/db/version_edit.cc:109-210 | Succeeds exactly on a record that parses as fields, and holds what those set over the pointers it had |
| VersionEdits.FieldsRoundTrip | 1. PicksOnMap/Pods/leveldb-library/db/version_edit.cc:41-210 | Every list of encodable fields is read back |
| VersionEdits.FaultStops | 1. PicksOnMap/Pods/leveldb-library/db/version_edit.cc:109-208 | Another tag, a level that there is not or a field cut short ends the reading with a failure, after the fields in front of it |
| VersionEdits.EditRoundTrip | 1. PicksOnMap/Pods/leveldb-library/db/version_edit.cc:41-210 | Decoding an encoded edit gives the edit; an object used before keeps its compaction pointers in front |
| VersionEdits.RecoverManifest | 1. PicksOnMap/Pods/leveldb-library/db/version_set.cc:939-982 | Decoding the manifest's records and saving once gives the levels that the edits written mean |
| VersionGet.Get | 1. PicksOnMap/Pods/leveldb-library/db/version_set.cc:332-429 | Stopping at the first level that answers, with one file probed per level below 0, gives what a scan of all entries of the version would |
| VersionGet.SearchLevels | 1. PicksOnMap/Pods/leveldb-library/db/version_set.cc:332-429 | In a version whose levels may be searched, valid or not, the search returns what the first level with a readable entry answers |
| VersionGet.StoppedIsAnswer | 1. PicksOnMap/Pods/leveldb-library/db/version_set.cc:332-429 | In a valid version the level at which the search stops has the newest readable entry of all levels |
| VersionGet.GetFromStore | 1. PicksOnMap/Pods/leveldb-library/db/db_impl.cc:1109-1154 | Memtable, immutable memtable and version, asked in this order, answer as their union would |
| VersionGet.SearchLevel | 1. PicksOnMap/Pods/leveldb-library/db/version_set.cc:349-400 | The files probed in one level find the newest entry the level has for the read |
| VersionGet.LevelZeroAnswers | 1. PicksOnMap/Pods/leveldb-library/db/version_set.cc:353-369 | Newest file first, the first level-0 file with an entry has the newest one |
| VersionGet.BelowAnswers | 1. PicksOnMap/Pods/leveldb-library/db/version_set.cc:371-386 | In a disjoint level the one candidate file decides |
| VersionGet.CandidateBelow | 1. PicksOnMap/Pods/leveldb-library/db/version_set.cc:371-386 | At most one file is probed, and none only when the level has no entry for the read |
| VersionGet.CandidatesInLevelZero | 1. PicksOnMap/Pods/leveldb-library/db/version_set.cc:353-366 | The candidates are exactly the files whose bounds include the user key, newest first |
| VersionGet.MemTableGet | 1. PicksOnMap/Pods/leveldb-library/db/memtable.cc:108-143 | A seek to the lookup key finds the newest entry that the read may use, or its absence |
| VersionGet.FirstIsAnswer | 1. PicksOnMap/Pods/leveldb-library/db/version_set.cc:268-281 | The first entry at or after the lookup key is the answer or has another user key |
| MemTables.MemTable.Add | 1. PicksOnMap/Pods/leveldb-library/db/memtable.cc:82-106 | Adding an entry with a new internal key puts it in its place among the ordered entries, encoded with both lengths in the size computed for it |
| MemTables.MemTable.AddAll | 1. PicksOnMap/Pods/leveldb-library/db/write_batch.cc:111-125 | Adding entries with keys of their own, in any order, leaves exactly those and what was there |
| MemTables.MemTable.Get | 1. PicksOnMap/Pods/leveldb-library/db/memtable.cc:108-143 | The lookup in the skip list of encoded entries returns the newest entry that the read may use: its value, its deletion, or nothing |
| MemTables.EntryReads | 1. PicksOnMap/Pods/leveldb-library/db/memtable.cc:14-19 | An encoded entry gives back its internal key and, behind it, its value |
| MemTables.EntryOrder | 1. PicksOnMap/Pods/leveldb-library/db/memtable.cc:33-39 | The skip list's comparator orders encoded entries as their internal keys are ordered |
| MemTables.MemLessIsWeak | 1. PicksOnMap/Pods/leveldb-library/db/memtable.cc:33-39 | The comparator is a strict weak order on all byte strings |
| MemTables.LookupKey | 1. PicksOnMap/Pods/leveldb-library/db/dbformat.cc:121-138 | The lookup key encodes the user key with the snapshot and the seek type, prefixed by its length |
| MemTables.MemTableIterator.Seek | 1. PicksOnMap/Pods/leveldb-library/db/memtable.cc:51-76 | Seeks to the first entry at or after an internal key |
| MemTables.MemTableIterator.Prev | 1. PicksOnMap/Pods/leveldb-library/db/memtable.cc:51-76 | Steps back over the ordered entries, off the front from the first |
| MemTables.MemTableIterator.Value | 1. PicksOnMap/Pods/leveldb-library/db/memtable.cc:62-65 | The value behind the key of the current entry |
| Keys.LookupNewest | 1. PicksOnMap/Pods/leveldb-library/db/dbformat.h:176-186 | The newest readable entry decides a read: its value, or nothing for a deletion |
| Keys.SortedIsDistinct | 1. PicksOnMap/Pods/leveldb-library/db/dbformat.cc:50-66 | Entries in strictly increasing internal-key order share no internal key |
| DbIter.DBIter.Next | 1. PicksOnMap/Pods/leveldb-library/db/db_iter.cc:146-171 | From either direction it moves to the next user key with a live value at the snapshot, with none in between |
| DbIter.DBIter.Prev | 1. PicksOnMap/Pods/leveldb-library/db/db_iter.cc:205-230 | From either direction it moves to the previous live user key, with none in between |
| DbIter.DBIter.Seek | 1. PicksOnMap/Pods/leveldb-library/db/db_iter.cc:274-286 | Lands on the first live user key at or after the target, with the value a read returns |
| DbIter.DBIter.SeekToFirst | 1. PicksOnMap/Pods/leveldb-library/db/db_iter.cc:288-297 | Lands on the first live user key |
| DbIter.DBIter.SeekToLast | 1. PicksOnMap/Pods/leveldb-library/db/db_iter.cc:299-304 | Lands on the last live user key |
| DbIter.DBIter.FindNextUserEntry | 1. PicksOnMap/Pods/leveldb-library/db/db_iter.cc:173-203 | Moving forward stops at the first shown entry, past the key to skip |
| DbIter.DBIter.FindPrevUserEntry | 1. PicksOnMap/Pods/leveldb-library/db/db_iter.cc:232-272 | Moving backward stops before the last user key shown, with its value saved |
| DbIter.LookupShown | 1. PicksOnMap/Pods/leveldb-library/db/db_iter.cc:184-194 | An entry shown is what a read of its user key returns |
| DbIter.LookupNotShown | 1. PicksOnMap/Pods/leveldb-library/db/db_iter.cc:184-194 | A user key of which no entry is shown reads as absent |
| Merger.MergingIterator.Seek | 1. PicksOnMap/Pods/leveldb-library/table/merger.cc:51-57 | A cursor over the sorted union of its children: Seek finds the lower bound |
| Merger.MergingIterator.Next | 1. PicksOnMap/Pods/leveldb-library/table/merger.cc:59-83 | One step forward in the union, from either direction |
| Merger.MergingIterator.Prev | 1. PicksOnMap/Pods/leveldb-library/table/merger.cc:85-112 | One step back in the union, from either direction |
| Merger.MergingIterator.SeekToFirst | 1. PicksOnMap/Pods/leveldb-library/table/merger.cc:35-41 | To the first entry of the union |
| Merger.MergingIterator.SeekToLast | 1. PicksOnMap/Pods/leveldb-library/table/merger.cc:43-49 | To the last entry of the union |
| Merger.MergingIterator.FindSmallest | 1. PicksOnMap/Pods/leveldb-library/table/merger.cc:155-168 | The child with the smallest key stands at the next place of the union |
| Merger.MergingIterator.FindLargest | 1. PicksOnMap/Pods/leveldb-library/table/merger.cc:170-184 | The child with the largest key stands at the place before |
| Merger.MergingIterator.SeekAfterCurrent | 1. PicksOnMap/Pods/leveldb-library/table/merger.cc:68-78 | Turning forward puts another child just after the current place of the union |
| Merger.MergingIterator.SeekBeforeCurrent | 1. PicksOnMap/Pods/leveldb-library/table/merger.cc:94-107 | Turning backward puts another child just before it |
| Merger.InterleavingExists | 1. PicksOnMap/Pods/leveldb-library/table/merger.cc:186-194 | Sorted runs that share no key have a sorted union, so the iterator is defined for all of them |
| TwoLevel.TwoLevelIterator.Seek | 1. PicksOnMap/Pods/leveldb-library/table/two_level_iterator.cc:91-96 | A cursor over the concatenation of the blocks: Seek finds the lower bound across blocks, empty ones included |
| TwoLevel.TwoLevelIterator.SeekToFirst | 1. PicksOnMap/Pods/leveldb-library/table/two_level_iterator.cc:98-103 | To the first entry of the concatenation |
| TwoLevel.TwoLevelIterator.SeekToLast | 1. PicksOnMap/Pods/leveldb-library/table/two_level_iterator.cc:105-110 | To the last entry of the concatenation |
| TwoLevel.TwoLevelIterator.Next | 1. PicksOnMap/Pods/leveldb-library/table/two_level_iterator.cc:112-116 | One entry forward, across block ends and empty blocks |
| TwoLevel.TwoLevelIterator.Prev | 1. PicksOnMap/Pods/leveldb-library/table/two_level_iterator.cc:118-122 | One entry back, across block ends and empty blocks |
| TwoLevel.TwoLevelIterator.SkipEmptyDataBlocksForward | 1. PicksOnMap/Pods/leveldb-library/table/two_level_iterator.cc:125-136 | The loop over empty blocks ends at an entry or the end, without moving in the concatenation |
| TwoLevel.TwoLevelIterator.SkipEmptyDataBlocksBackward | 1. PicksOnMap/Pods/leveldb-library/table/two_level_iterator.cc:138-149 | The same backward |
| TwoLevel.TwoLevelIterator.InitDataBlock | 1. PicksOnMap/Pods/leveldb-library/table/two_level_iterator.cc:156-170 | After it the data iterator is that of the index entry's handle, which is reopened only when the handle changed |
| TwoLevel.SeekLands | 1. PicksOnMap/Pods/leveldb-library/table/two_level_iterator.cc:91-96 | The lower bound in the index and then in the block it names is the lower bound of the whole |
| TwoLevel.ConcatSorted | 1. PicksOnMap/Pods/leveldb-library/table/two_level_iterator.cc:91-96 | Sorted blocks separated by the index keys concatenate to a sorted run |
| Cursors.Cursor.Seek | 1. PicksOnMap/Pods/leveldb-library/db/version_set.cc:163-209 | The iterator over one sorted run finds the lower bound |
| StoreIterators.NewDBIterator | 1. PicksOnMap/Pods/leveldb-library/db/db_impl.cc:1067-1166 | The iterator over memtable, immutable memtable, level-0 tables and deeper levels walks exactly what point reads of the whole store answer at its snapshot |
| StoreIterators.StoreRuns | 1. PicksOnMap/Pods/leveldb-library/db/version_set.cc:234-252 | Its children are sorted runs without a common key that together hold every entry of the store |
| WriteRuns.RunsKeep | 1. PicksOnMap/Pods/leveldb-library/db/db_impl.cc:1194-1267 | In every run of the writer queue, with any failures of the calls on the log's file: writers leave in the order they came, each group is a prefix of the queue in which no sync write follows a head without sync, groups get consecutive sequence numbers, the memtable holds exactly what was applied, the file begins with the log of the records that reached it whole before the first that did not, and while the writer stays in step reading comes to the file's end and finds every record added without an error |
| WriteRuns.StepKeeps | 1. PicksOnMap/Pods/leveldb-library/db/db_impl.cc:1194-1267 | Every arrival, lead, log write with its faults, memtable insertion and finish keeps that invariant |
| WriteRuns.SyncErrorStops | 1. PicksOnMap/Pods/leveldb-library/db/db_impl.cc:1237-1247 | In every run, once the group of a failed sync has left, with an error, the log, the memtable, what is synced and the last sequence number never change again and no later writer is acknowledged OK |
| WriteRuns.LeadTakesLongest | 1. PicksOnMap/Pods/leveldb-library/db/db_impl.cc:1215-1217 | The head takes with it the longest prefix of the queue that may join it |
| WriteQueue.BuildBatchGroup | 1. PicksOnMap/Pods/leveldb-library/db/db_impl.cc:1269-1316 | The batch written holds the operations of the group in queue order, and no writer's own batch changes |
| WriteQueue.GroupIsLongest | 1. PicksOnMap/Pods/leveldb-library/db/db_impl.cc:1275-1313 | The group is the longest prefix of the queue in which no write syncs for a head that does not and the batches stay within 1 MiB, or within 128 KiB more than a head of at most 128 KiB |
| Recovery.GroupsAreAtomic | 1. PicksOnMap/Pods/leveldb-library/db/db_impl.cc:1225-1249 | A read at the last sequence number sees all operations of every acknowledged group and none of a group under way |
| Recovery.AppliedBelow | 1. PicksOnMap/Pods/leveldb-library/db/db_impl.cc:1215-1216 | Applied entries carry strictly increasing sequence numbers from 1 up to the last one assigned |
| Recovery.AppliedOnceInOrder | 1. PicksOnMap/Pods/leveldb-library/db/db_impl.cc:1194-1267 | Without errors an idle store holds each served writer's operations once, in order of arrival, numbered consecutively from 1 |
| Recovery.ReplayRebuilds | 1. PicksOnMap/Pods/leveldb-library/db/db_impl.cc:407-436 | Without errors, reading the log and replaying its groups rebuilds the same entries and last sequence number |
| Recovery.SyncedSurvives | 1. PicksOnMap/Pods/leveldb-library/db/db_impl.cc:1222-1236 | After a crash that keeps any prefix of the log's file covering what was synced, all operations of an acknowledged sync write come back if the writer's offset agreed with the file after every record up to its group's, whichever of them failed |
| Recovery.AcknowledgedSurvives | 1. PicksOnMap/Pods/leveldb-library/db/db_impl.cc:1222-1249 | As long as the whole file is kept that goes for every write acknowledged OK |
| Recovery.MalformedRecord | 1. PicksOnMap/Pods/leveldb-library/db/db_impl.cc:407-436 | Replaying a record too short for a batch adds nothing, and one with a wrong count or something malformed in it adds the operations in front of that |
| Recovery.IntactIsInStep | 1. PicksOnMap/Pods/leveldb-library/db/log_writer.cc:84-109 | If every record up to a group's reached the file whole, the writer's offset agreed with the file after each of them |
| Recovery.LosesSyncedWrite | 1. PicksOnMap/Pods/leveldb-library/db/log_writer.cc:84-109 | A family of runs in which a write fails after its header has reached the log, and a later sync write, without a fault, acknowledged and out of step, is not found by recovery |
| Recovery.RecoverMemTable | 1. PicksOnMap/Pods/leveldb-library/db/db_impl.cc:395-436 | Recovery of a store without errors fills a fresh skip-list memtable with exactly the entries its memtable had |
| Recovery.CrashLeavesPrefix | 1. PicksOnMap/Pods/leveldb-library/db/db_impl.cc:365-486 | Without errors, what comes back after any crash is a first part of what was applied |
| Recovery.RecoverLogFile | 1. PicksOnMap/Pods/leveldb-library/db/db_impl.cc:365-486 | Reading the log and inserting its batches gives the replay of the records read and the greatest sequence number |
| WriteBatches.WriteBatch.Put | 1. PicksOnMap/Pods/leveldb-library/db/write_batch.cc:98-103 | Appends one put; the encoded batch stays that of its operations and sequence number |
| WriteBatches.WriteBatch.SetSequence | 1. PicksOnMap/Pods/leveldb-library/db/write_batch.cc:94-96 | Sets the sequence number and leaves count and records |
| WriteBatches.WriteBatch.Delete | 1. PicksOnMap/Pods/leveldb-library/db/write_batch.cc:105-109 | Appends one deletion |
| WriteBatches.WriteBatch.Append | 1. PicksOnMap/Pods/leveldb-library/db/write_batch.cc:141-145 | Appends all operations of another batch |
| WriteBatches.OpsRoundTrip | 1. PicksOnMap/Pods/leveldb-library/db/write_batch.cc:42-80 | The operations of a batch are read back |
| WriteBatches.BatchIterates | 1. PicksOnMap/Pods/leveldb-library/db/write_batch.cc:42-80 | Iterating a batch visits its operations in order and finds no fault |
| WriteBatches.InsertInto | 1. PicksOnMap/Pods/leveldb-library/db/write_batch.cc:111-134 | The operations before the first fault are added to the memtable, call by call, under consecutive sequence numbers |
| WriteBatches.FaultStops | 1. PicksOnMap/Pods/leveldb-library/db/write_batch.cc:42-80 | A batch with a wrong count, another tag or an operation cut short fails, after the operations in front of that |
| Log.Writer.AddRecord | 1. PicksOnMap/Pods/leveldb-library/db/log_writer.cc:36-82 | With any faults of the file's calls: fragments up to the first whose emission fails, trailers whose append may fail unnoticed, and the offset and status that the writer is left with |
| Log.Writer.EmitPhysicalRecord | 1. PicksOnMap/Pods/leveldb-library/db/log_writer.cc:84-109 | Header, payload and flush as far as they succeed; the offset goes on by the whole record in any case |
| LogFaults.GoesOnIffInStep | 1. PicksOnMap/Pods/leveldb-library/db/log_writer.cc:36-109 | After any call of AddRecord, with any faults, by a writer in step with a file that reading gets through, whatever record is added next without a fault is read back if and only if the writer's offset is that of the end of the file in its block |
| LogFaults.StaysReadThrough | 1. PicksOnMap/Pods/leveldb-library/db/log_reader.cc:60-281 | As long as every write leaves the writer in step, failed ones included, reading comes to the end of the file whatever follows |
| LogFaults.OkIsRead | 1. PicksOnMap/Pods/leveldb-library/db/log_writer.cc:36-109 | A record added without an error that leaves the writer in step is read from every file that begins with what was written, even when a trailer before it failed unnoticed |
| LogFaults.OkInStepIsWhole | 1. PicksOnMap/Pods/leveldb-library/db/log_writer.cc:36-82 | A write that reports no error and stays in step has added the whole record |
| LogChecksum.LogGoesOnIffInStep | 1. PicksOnMap/Pods/leveldb-library/db/log_writer.cc:36-109 | With CRC32C, the log's own checksum, whatever record is added after any call of AddRecord is read back if and only if the writer is still in step |
| LogChecksum.ZerosShowNoType | 1. PicksOnMap/Pods/leveldb-library/util/crc32c.cc:299-347 | CRC32C of the middle of a record of zeros that fills a block: no byte of its masked form is a record type |
| LogChecksum.ZeroBytesMultiply | 1. PicksOnMap/Pods/leveldb-library/util/crc32c.cc:299-347 | Any number of zero bytes takes the register to its product, as a polynomial, with what they make of the first bit |
| LogChecksum.TypeThenPayload | 1. PicksOnMap/Pods/leveldb-library/db/log_writer.cc:15-20 | The checksum from that of the type alone extended over the payload is the checksum of both |
| LogFaults.InStepGoesOn | 1. PicksOnMap/Pods/leveldb-library/db/log_writer.cc:36-109 | In step, the next record is read, behind all records of the log, whatever fragments the failed write has left |
| LogFaults.OutOfStepLoses | 1. PicksOnMap/Pods/leveldb-library/db/log_writer.cc:36-109 | Out of step with any file, the writer loses a record that it then adds without a fault |
| LogFaults.WholeInStep | 1. PicksOnMap/Pods/leveldb-library/db/log_writer.cc:36-109 | A write that adds as many bytes as the record takes has added the record and is in step |
| LogFaults.InStepLands | 1. PicksOnMap/Pods/leveldb-library/db/log_reader.cc:199-281 | When a write leaves the writer in step, reading comes to where it left off, past whole and missing fragments alike |
| LogFaults.ToBlock | 1. PicksOnMap/Pods/leveldb-library/db/log_reader.cc:199-281 | Whatever a file holds, reading comes to the start of every block that begins in it |
| LogFaults.StartReads | 1. PicksOnMap/Pods/leveldb-library/db/log_reader.cc:82-128 | A record with its first fragment at a position is read there whatever was gathered before |
| LogFaults.LogThenMore | 1. PicksOnMap/Pods/leveldb-library/db/log_reader.cc:60-182 | A log is read first, whatever follows it in the file |
| LogRoundTrip.NoFaults | 1. PicksOnMap/Pods/leveldb-library/db/log_writer.cc:36-109 | Without faults AddRecord appends exactly the record's fragments and stays in step |
| Log.Writer.Resume | 1. PicksOnMap/Pods/leveldb-library/db/log_writer.cc:28-31 | A writer on an existing file goes on at the file length modulo the block size |
| Log.Reader.ReadRecord | 1. PicksOnMap/Pods/leveldb-library/db/log_reader.cc:60-182 | Assembles the next logical record, and reports what it drops, as reading the file from the current position does |
| Log.Reader.ReadPhysicalRecord | 1. PicksOnMap/Pods/leveldb-library/db/log_reader.cc:199-281 | Reads the next physical record block by block as parsing the file in one piece does. Over the file's bytes: a record returned lies right before the new position with its length and type, and with checksums on the number in its header is the masked checksum of type and payload; one that fails this, or is longer than its block, is reported with the rest of the block |
| Log.PhysicalJudged | 1. PicksOnMap/Pods/leveldb-library/db/log_reader.cc:226-279 | That is what parsing the file comes to, case by case |
| LogChecks.LogicalMadeOf | 1. PicksOnMap/Pods/leveldb-library/db/log_reader.cc:60-182 | Every record returned is the payloads, joined, of neighbouring physical records that passed: one full one, or a first, middle ones and a last |
| LogChecks.AllAccounted | 1. PicksOnMap/Pods/leveldb-library/db/log_reader.cc:60-182 | Every byte of payload met is in the record returned or reported as dropped, apart from an unfinished record at the end of the file |
| LogRoundTrip.PrefixRoundTrip | 1. PicksOnMap/Pods/leveldb-library/db/log_reader.cc:60-182 | Reading any byte prefix of a log returns exactly the records wholly in it, in order, and reports no corruption |
| LogRoundTrip.LogReadsBack | 1. PicksOnMap/Pods/leveldb-library/db/log_reader.cc:60-182 | The whole log reads back |
| LogRoundTrip.RecordReads | 1. PicksOnMap/Pods/leveldb-library/db/log_reader.cc:60-182 | A record whose fragments are at a position is reassembled, and one cut short is the end of the file without a complaint |
| LogRoundTrip.PhysicalReads | 1. PicksOnMap/Pods/leveldb-library/db/log_reader.cc:199-281 | A physical record that is there whole passes its checks and is read back |
| LogRoundTrip.PhysicalCut | 1. PicksOnMap/Pods/leveldb-library/db/log_reader.cc:199-281 | One that the end of the file cuts short reads as the end |
| LogRoundTrip.WriteAndResume | 1. PicksOnMap/Pods/leveldb-library/db/log_writer.cc:28-31 | Stopping and resuming at the file length leaves the log one writer would have left |
| LogRoundTrip.ReadBack | 1. PicksOnMap/Pods/leveldb-library/db/log_reader.cc:60-182 | The reader, run to the end of a prefix of a log, returns its whole records and drops nothing |
| SkipListRuns.RunsKeep | 1. PicksOnMap/Pods/leveldb-library/db/skiplist.h:261-302 | In every run of single stores and loads, every level is sorted and part of the one below, and a search that has ended found a node not before the target and skipped none that was there when it began |
| SkipListRuns.StepKeeps | 1. PicksOnMap/Pods/leveldb-library/db/skiplist.h:336-370 | Each pointer store of an insert and each load of a search keeps that invariant |
| SkipListRuns.FoundIsPlace | 1. PicksOnMap/Pods/leveldb-library/db/skiplist.h:261-281 | A search that stays at a node of the bottom level is at the place of the target in the list as it is then |
| SkipListRuns.Iterator.Prev | 1. PicksOnMap/Pods/leveldb-library/db/skiplist.h:213-222 | One key back, or off the list from its front |
| SkipListRuns.Iterator.Seek | 1. PicksOnMap/Pods/leveldb-library/db/skiplist.h:224-227 | To the first key at or after the target |
| SkipListRuns.Contains | 1. PicksOnMap/Pods/leveldb-library/db/skiplist.h:372-380 | True exactly when a key that compares equal is in the list |
| SkipLists.SkipList.FindGreaterOrEqual | 1. PicksOnMap/Pods/leveldb-library/db/skiplist.h:261-281 | Finds the first node at or after the key and, per level, the last node before it |
| SkipLists.SkipList.FindLessThan | 1. PicksOnMap/Pods/leveldb-library/db/skiplist.h:283-302 | Finds the last node before the key |
| SkipLists.SkipList.FindLast | 1. PicksOnMap/Pods/leveldb-library/db/skiplist.h:304-322 | Finds the last node |
| SkipLists.SkipList.Insert | 1. PicksOnMap/Pods/leveldb-library/db/skiplist.h:336-370 | Puts a new key in its place, at any height drawn, and changes nothing else |
| SkipLists.SkipList.LinkLevel | 1. PicksOnMap/Pods/leveldb-library/db/skiplist.h:364-369 | The two stores for one level put the node in its place there and leave all other levels alone |
| SkipLists.StoreLinks | 1. PicksOnMap/Pods/leveldb-library/db/skiplist.h:364-369 | The publishing store turns a sorted level into the sorted level with the node |
| SkipLists.SetOwnKeeps | 1. PicksOnMap/Pods/leveldb-library/db/skiplist.h:364-369 | Setting the new node's own link first changes no level |
| SkipLists.PublishKeeps | 1. PicksOnMap/Pods/leveldb-library/db/skiplist.h:364-369 | After the publishing store the whole structure is a skip list again |
| SkipLists.SkipList.KeysAscend | 1. PicksOnMap/Pods/leveldb-library/db/skiplist.h:126-128 | The keys ascend |
| TableReaders.InternalGet | 1. PicksOnMap/Pods/leveldb-library/table/table.cc:226-255 | The saver gets at most the first entry at or after the key, and does get it whenever it has the key's user key, through one block, the index separators and the filter |
| TableReaders.FirstIsInBlock | 1. PicksOnMap/Pods/leveldb-library/table/table.cc:226-255 | If that entry has the key's user key it is in the one block the index finds |
| TableReaders.StoppedAtFirst | 1. PicksOnMap/Pods/leveldb-library/table/table.cc:242-246 | Where the seek in that block stops is the first entry at or after the key of the whole table |
| TableReaders.Open | 1. PicksOnMap/Pods/leveldb-library/table/table.cc:38-89 | The footer of a finished table leads to its index block |
| TableReaders.SeekBlock | 1. PicksOnMap/Pods/leveldb-library/table/table.cc:240-250 | A seek in a stored block finds its first entry at or after the key |
| TableBuilders.TableBuilder.Add | 1. PicksOnMap/Pods/leveldb-library/table/table_builder.cc:92-121 | A key after all others joins the entries; a deferred index entry gets a separator at or above its block's last key and below this key; the block is written out exactly when its size has reached the block size |
| TableBuilders.TableBuilder.Flush | 1. PicksOnMap/Pods/leveldb-library/table/table_builder.cc:123-137 | The data block goes to the file; its index entry waits |
| TableBuilders.TableBuilder.Finish | 1. PicksOnMap/Pods/leveldb-library/table/table_builder.cc:199-254 | The file is a table of exactly the entries added, whose index separates its blocks |
| TableBuilders.TableBuilder.WriteBlock | 1. PicksOnMap/Pods/leveldb-library/table/table_builder.cc:139-193 | The finished block is stored with type and checksum at the handle returned |
| TableFormat.HandleRoundTrip | 1. PicksOnMap/Pods/leveldb-library/table/format.cc:15-30 | A block handle is read back |
| TableFormat.FooterRoundTrip | 1. PicksOnMap/Pods/leveldb-library/table/format.cc:32-63 | A footer is read back |
| TableFormat.StoredReads | 1. PicksOnMap/Pods/leveldb-library/table/format.cc:65-142 | A stored block is read back and passes its checksum |
| TableFormat.ReadBlockMeans | 1. PicksOnMap/Pods/leveldb-library/table/format.cc:65-142 | A block is read exactly when its bytes are in the file, its type is that of no compression and, if checksums are verified, the number behind it is the masked checksum of contents and type |
| TableFormat.FooterNeedsMagic | 1. PicksOnMap/Pods/leveldb-library/table/format.cc:43-63 | A footer that is read ends with the eight bytes of the magic number |
| Blocks.BlockBuilder.Add | 1. PicksOnMap/Pods/leveldb-library/table/block_builder.cc:73-107 | The buffer grows by the entry, laid out as LayoutMeans says |
| Blocks.LayoutMeans | 1. PicksOnMap/Pods/leveldb-library/table/block_builder.cc:73-107 | Every entry at a multiple of the restart interval is a restart point and shares nothing; any other shares all that its key has in common with the one before |
| Blocks.BlockBuilder.Finish | 1. PicksOnMap/Pods/leveldb-library/table/block_builder.cc:63-71 | The block is the buffer followed by its restart offsets and their number |
| Blocks.EntryRoundTrip | 1. PicksOnMap/Pods/leveldb-library/table/block.cc:53-74 | An encoded entry decodes to its three lengths, with the key rest and the value behind them |
| Blocks.FastPath | 1. PicksOnMap/Pods/leveldb-library/table/block.cc:60-63 | Three lengths below 128 are decoded alike by the fast path |
| BlockIters.Iter.Next | 1. PicksOnMap/Pods/leveldb-library/table/block.cc:139-142 | To the next pair, across restart points |
| BlockIters.Iter.Prev | 1. PicksOnMap/Pods/leveldb-library/table/block.cc:144-163 | To the pair before, across restart points: the inverse of Next |
| BlockIters.Iter.Seek | 1. PicksOnMap/Pods/leveldb-library/table/block.cc:165-203 | To the first pair whose key is at or after the target |
| BlockIters.Iter.SeekToLast | 1. PicksOnMap/Pods/leveldb-library/table/block.cc:210-215 | To the last pair |
| BlockIters.Iter.ParseNextKey | 1. PicksOnMap/Pods/leveldb-library/table/block.cc:226-253 | The next pair is read from the shared prefix and the stored rest |
| BlockIters.BuiltHolds | 1. PicksOnMap/Pods/leveldb-library/table/block_builder.cc:63-71 | What the builder finishes is a block that holds its pairs, for every restart interval |
| BlockIters.NewIterator | 1. PicksOnMap/Pods/leveldb-library/table/block.cc:23-38 | The restart array is found from the end of the block |
| Comparators.BytewiseIsTotal | 1. PicksOnMap/Pods/leveldb-library/util/comparator.cc:25-27 | The bytewise order is a strict total order |
| Comparators.BytewiseSeparates | 1. PicksOnMap/Pods/leveldb-library/util/comparator.cc:29-65 | The bytewise separator lies from the first key up to but below the second, and the successor at or after the key |
| Comparators.FindShortestSeparator | 1. PicksOnMap/Pods/leveldb-library/util/comparator.cc:29-51 | Scanning for the first difference computes that separator |
| Comparators.FindShortSuccessor | 1. PicksOnMap/Pods/leveldb-library/util/comparator.cc:53-65 | Scanning for the first byte below 0xff computes that successor |
| Comparators.SeparatorIsShort | 1. PicksOnMap/Pods/leveldb-library/util/comparator.cc:29-51 | Where the first bytes that differ leave room, the separator is as short as any string between the two keys; otherwise it is the first key |
| Comparators.SuccessorIsShort | 1. PicksOnMap/Pods/leveldb-library/util/comparator.cc:53-65 | The successor of a key with a byte other than 0xff is as short as any string at or after the key |
| Comparators.EncodedOrder | 1. PicksOnMap/Pods/leveldb-library/db/dbformat.cc:50-66 | The comparator on encoded keys is the order by user key, then falling sequence number and type |
| Comparators.EncodedIsTotal | 1. PicksOnMap/Pods/leveldb-library/db/dbformat.cc:50-66 | It is a strict total order on all byte strings |
| Comparators.EncodedSeparatorMeans | 1. PicksOnMap/Pods/leveldb-library/db/dbformat.cc:68-85 | A shortened separator has a user key strictly between; any separator is at or above the first key and below the second |
| Comparators.EncodedSuccessorMeans | 1. PicksOnMap/Pods/leveldb-library/db/dbformat.cc:87-99 | A successor is at or after the key |
| FilteredTables.FilteredTableBuilder.Add | 1. PicksOnMap/Pods/leveldb-library/table/table_builder.cc:92-121 | Every key added to the table is added to the filter for the block that it is written in |
| FilteredTables.NewBuilder | 1. PicksOnMap/Pods/leveldb-library/table/table_builder.cc:61-68 | A new builder starts the filter block at offset 0 and holds no key |
| FilteredTables.FilteredTableBuilder.Finish | 1. PicksOnMap/Pods/leveldb-library/table/table_builder.cc:199-254 | The filter block read back passes every key of every block of the finished table |
| FilteredTables.InternalGetFiltered | 1. PicksOnMap/Pods/leveldb-library/table/table.cc:226-255 | A table probed through its filter gives the saver what it gives without: the first entry at or after the key whenever that has the key's user key |
| FilteredTables.InternalPolicyMatches | 1. PicksOnMap/Pods/leveldb-library/db/dbformat.cc:105-119 | Filters of user keys are without false negatives for internal keys |
| FilterBlocks.FinishAndAsk | 1. PicksOnMap/Pods/leveldb-library/table/filter_block.cc:22-109 | However a block was built, asking for a key gives the policy's answer on the filter of exactly the keys added in the range, so that every key added may match |
| FilterBlocks.AnswersByFilter | 1. PicksOnMap/Pods/leveldb-library/table/filter_block.cc:95-109 | For a finished block the answer is the policy's on the filter of the range, and a match behind the last range |
| FilterBlocks.EmptyMatchesNothing | 1. PicksOnMap/Pods/leveldb-library/util/bloom.cc:63-69 | A Bloom policy lets nothing match in a range without keys |
| FilterBlocks.AddedKeyMatches | 1. PicksOnMap/Pods/leveldb-library/table/filter_block.cc:95-109 | From block offset through the offset array to the filter: a key of the filter's range matches |
| FilterBlocks.FilterReadsBack | 1. PicksOnMap/Pods/leveldb-library/table/filter_block.cc:95-104 | The bounds read from the array enclose exactly the filter generated for the range |
| FilterBlocks.FilterBlockBuilder.StartBlock | 1. PicksOnMap/Pods/leveldb-library/table/filter_block.cc:22-28 | Filters are generated up to the block's range and no key added so far is lost |
| FilterBlocks.FilterBlockBuilder.Finish | 1. PicksOnMap/Pods/leveldb-library/table/filter_block.cc:36-50 | Every key added is in the filter of its block's range |
| FilterBlocks.BloomHasNoFalseNegatives | 1. PicksOnMap/Pods/leveldb-library/util/bloom.cc:35-87 | The Bloom policy is one without false negatives, as the filter block needs |
| Blooms.NoFalseNegative | 1. PicksOnMap/Pods/leveldb-library/util/bloom.cc:35-87 | Every key of a filter matches it, for every hash function |
| Blooms.ProbeMeans | 1. PicksOnMap/Pods/leveldb-library/util/bloom.cc:53-57 | The probes of a key are its hash plus multiples of itself rotated right by 17 bits, in 32 bits |
| Blooms.BloomFilterPolicy.CreateFilter | 1. PicksOnMap/Pods/leveldb-library/util/bloom.cc:35-61 | The appended array has set exactly the bits its keys probe |
| Blooms.BloomFilterPolicy.KeyMayMatch | 1. PicksOnMap/Pods/leveldb-library/util/bloom.cc:63-87 | A key matches if and only if all bits it probes are set, or the filter is reserved or too short as the code treats these |
| Caches.LRUCache.Insert | 1. PicksOnMap/Pods/leveldb-library/util/cache.cc:269-303 | The new entry is held by the caller and mapped when caching is on; of the unused entries the oldest are evicted and deleted, as many as it takes for the usage to fit the capacity and no more; every other entry and its mapping stay as they were |
| Caches.LRUCache.Lookup | 1. PicksOnMap/Pods/leveldb-library/util/cache.cc:255-262 | Finds exactly the cached keys and takes a reference to that handle alone |
| Caches.LRUCache.Release | 1. PicksOnMap/Pods/leveldb-library/util/cache.cc:264-267 | Gives back a reference to that handle alone; the deleter runs exactly when it was the last, and a cached handle that only the cache still holds becomes the most recent of the unused |
| Caches.LRUCache.Erase | 1. PicksOnMap/Pods/leveldb-library/util/cache.cc:318-321 | The key alone leaves the table; its handle alone changes, goes to its deleter at once if no client holds it, and otherwise loses the cache's reference |
| Caches.LRUCache.Prune | 1. PicksOnMap/Pods/leveldb-library/util/cache.cc:323-333 | Exactly the handles that no client uses go to their deleters, oldest first, and all others stay as they are |
| Caches.LRUCache.EvictOldest | 1. PicksOnMap/Pods/leveldb-library/util/cache.cc:293-300 | Evicts the entry unused for longest, whose deleter runs |
| Caches.LRUCache.FinishErase | 1. PicksOnMap/Pods/leveldb-library/util/cache.cc:307-316 | An entry that left the table is uncharged and unlisted, and deleted if nobody holds it |
| Caches.LRUCache.Ref | 1. PicksOnMap/Pods/leveldb-library/util/cache.cc:221-227 | Taking a reference moves an unused entry to the list of those in use |
| Caches.LRUCache.Unref | 1. PicksOnMap/Pods/leveldb-library/util/cache.cc:229-240 | Giving one back deletes at zero and moves to the recent end when only the cache holds it |
| HandleTables.HandleTable.FindPointer | 1. PicksOnMap/Pods/leveldb-library/util/cache.cc:113-123 | Finds the slot of a key in its chain, or the end of the chain when it has none |
| HandleTables.HandleTable.Lookup | 1. PicksOnMap/Pods/leveldb-library/util/cache.cc:76-78 | Returns what is mapped |
| HandleTables.HandleTable.Insert | 1. PicksOnMap/Pods/leveldb-library/util/cache.cc:80-94 | Maps the key and returns what it replaced; the table grows exactly when it has more keys than chains |
| HandleTables.HandleTable.Remove | 1. PicksOnMap/Pods/leveldb-library/util/cache.cc:96-104 | Unmaps the key and returns what it had |
| HandleTables.HandleTable.Resize | 1. PicksOnMap/Pods/leveldb-library/util/cache.cc:125-149 | Moving all slots to a table of the least power of two chains, from 4, that is no less than the keys maps the same keys |
| Coding.Varint32RoundTrip | 1. PicksOnMap/Pods/leveldb-library/util/coding.cc:47-141 | A varint of 32 bits is read back |
| Coding.Varint64RoundTrip | 1. PicksOnMap/Pods/leveldb-library/util/coding.cc:81-170 | A varint of 64 bits is read back |
| Coding.EncodeVarint32 | 1. PicksOnMap/Pods/leveldb-library/util/coding.cc:47-73 | The unrolled encoder writes the varint |
| Coding.EncodeVarint64 | 1. PicksOnMap/Pods/leveldb-library/util/coding.cc:81-90 | The loop writes the varint |
| Coding.VarintLength | 1. PicksOnMap/Pods/leveldb-library/util/coding.cc:103-110 | Counts the bytes of the varint |
| Coding.GetVarintPtr | 1. PicksOnMap/Pods/leveldb-library/util/coding.cc:112-158 | The shift loop of either width reads what the recursive definition reads, truncated to the width |
| Coding.ReadVarintMeans | 1. PicksOnMap/Pods/leveldb-library/util/coding.cc:112-158 | A varint is read exactly when one of the bytes it may have is below 128; its value is made up of seven bits of each byte up to that one |
| Coding.LengthPrefixedCut | 1. PicksOnMap/Pods/leveldb-library/util/coding.cc:172-192 | No string is read from a part of one |
| Coding.Fixed32RoundTrip | 1. PicksOnMap/Pods/leveldb-library/util/coding.cc:9-18 | A fixed 32-bit number is read back |
| Coding.Fixed64RoundTrip | 1. PicksOnMap/Pods/leveldb-library/util/coding.cc:20-33 | A fixed 64-bit number is read back |
| Coding.LengthPrefixedRoundTrip | 1. PicksOnMap/Pods/leveldb-library/util/coding.cc:98-192 | A length-prefixed string is read back |
| Crc32c.Extend | 1. PicksOnMap/Pods/leveldb-library/util/crc32c.cc:299-347 | For every buffer and alignment, prologue and the 16, 4 and 1 byte loops compute the fold over single bytes |
| Crc32c.Step4IsSteps | 1. PicksOnMap/Pods/leveldb-library/util/crc32c.cc:311-321 | A word through four tables is four single bytes through one |
| Crc32c.ExtendConcat | 1. PicksOnMap/Pods/leveldb-library/util/crc32c.cc:299-347 | Extending over a concatenation is extending twice |
| Crc32c.UnmaskMask | 1. PicksOnMap/Pods/leveldb-library/util/crc32c.h:31-40 | Unmask inverts Mask on all 32-bit values |
| Formats.ChecksumOfDigits | 1. PicksOnMap/Pods/leveldb-library/util/crc32c.cc:299-347 | CRC32C of the digits 1 to 9 is 0xe3069283 |
| Formats.ChecksumOfZeros | 1. PicksOnMap/Pods/leveldb-library/util/crc32c.cc:299-347 | CRC32C of 32 zero bytes is 0x8a9136aa, as section B.4 of RFC 3720 has it |
| Formats.InternalKeyBytes | 1. PicksOnMap/Pods/leveldb-library/db/dbformat.cc:12-21 | The bytes of an internal key: the user key, the type and the sequence number |
| Formats.BatchBytes | 1. PicksOnMap/Pods/leveldb-library/db/write_batch.cc:5-14 | The bytes of a batch with a put and a deletion |
| Formats.EditBytes | 1. PicksOnMap/Pods/leveldb-library/db/version_edit.cc:12-24 | The bytes of each field of a version edit, with its tag number |
| Formats.LogExample | 1. PicksOnMap/Pods/leveldb-library/db/log_writer.cc:36-82 | The fragments of a record of 97270 bytes behind one of 1000, and the six zeros before the next record |
| Formats.PhysicalBytes | 1. PicksOnMap/Pods/leveldb-library/db/log_writer.cc:84-97 | The seven bytes in front of a payload of 1000 bytes |
| Formats.BlockBytes | 1. PicksOnMap/Pods/leveldb-library/table/block_builder.cc:17-28 | The bytes of two entries, the second sharing a byte with the first, and of restart offsets |
| Formats.FooterBytes | 1. PicksOnMap/Pods/leveldb-library/table/format.cc:31-41 | The 48 bytes of a footer |
| Formats.FilterBytes | 1. PicksOnMap/Pods/leveldb-library/table/filter_block.cc:36-50 | The bytes of a filter block without filters |
| Formats.MemTableBytes | 1. PicksOnMap/Pods/leveldb-library/db/memtable.cc:81-105 | The bytes of a memtable entry |
| PbRoundTrip.RoundTrip | 1. PicksOnMap/Pods/nanopb/pb_decode.c:901-1063 | For every schema of static fields with distinct tags and every message that fits it, decoding what is encoded gives the message |
| PbRoundTrip.Varint32Reads | 1. PicksOnMap/Pods/nanopb/pb_decode.c:182-242 | A 32-bit varint is read back by the special first byte and the loop |
| PbRoundTrip.SignedReads | 1. PicksOnMap/Pods/nanopb/pb_decode.c:1289-1324 | A signed integer of any field width is read back through the varint's 64 or 32 bits |
| PbRoundTrip.OneReads | 1. PicksOnMap/Pods/nanopb/pb_decode.c:401-475 | A field that occurs once is decoded into its place and leaves the others |
| PbRoundTrip.ArrayReads | 1. PicksOnMap/Pods/nanopb/pb_decode.c:419-448 | A packed array comes back whole and in order |
| PbRoundTrip.UnionIsClear | 1. PicksOnMap/Pods/nanopb/pb_decode.c:461-470 | Clearing a union before decoding its present member loses nothing |
| PbSchema.ZigZagRoundTrip | 1. PicksOnMap/Pods/nanopb/pb_encode.c:596-605 | Zigzag decoding inverts encoding on all integers |
| PbSchema.ZeroIsDefault | 1. PicksOnMap/Pods/nanopb/pb_encode.c:215-305 | A value that the encoder leaves out as zero is what the decoder starts from |
| PbSchema.ZeroExactly | 1. PicksOnMap/Pods/nanopb/pb_encode.c:215-300 | A number, string or bytes is left out of a singular field exactly when it is the default |
| PbEncode.EncodeMessage | 1. PicksOnMap/Pods/nanopb/pb_encode.c:494-516 | Writing field by field writes the encoding of the message, on a counting stream counts it, and fails only for want of room |
| PbEncode.EncodeSubmessage | 1. PicksOnMap/Pods/nanopb/pb_encode.c:682-730 | The sizing pass and the writing pass agree, so the size check never fails, and length and contents are written |
| PbEncode.EncodeToBuffer | 1. PicksOnMap/Pods/nanopb/pb_encode.c:533-541 | The size computed is that of what is written, and encoding succeeds if and only if it fits the buffer |
| PbEncode.EncodePackedArray | 1. PicksOnMap/Pods/nanopb/pb_encode.c:126-178 | The size of a packed array, by multiplication or a counting pass, is that of the items written |
| PbEncode.EncodeArray | 1. PicksOnMap/Pods/nanopb/pb_encode.c:179-213 | Items that cannot be packed are written one by one with their tags |
| PbEncode.EncodeField | 1. PicksOnMap/Pods/nanopb/pb_encode.c:307-393 | Required, optional, singular, repeated and union fields are written or left out as their presence says |
| PbEncode.EncodeVarint | 1. PicksOnMap/Pods/nanopb/pb_encode.c:574-594 | The buffer loop writes the varint |
| PbEncode.EncodeScalar | 1. PicksOnMap/Pods/nanopb/pb_encode.c:734-869 | Every scalar encoder writes the encoding of its value |
| PbEncode.OStream.Write | 1. PicksOnMap/Pods/nanopb/pb_encode.c:101-121 | A write that does not fit fails without writing; a counting stream counts |
| PbEncode.FieldIter.Next | 1. PicksOnMap/Pods/nanopb/pb_common.c:20-76 | Moves to the next field, wrapping round with false at the end |
| PbEncode.FieldIter.Find | 1. PicksOnMap/Pods/nanopb/pb_common.c:78-97 | Searching round from anywhere finds the field with the tag exactly when there is one |
| PbDecode.PbDecode | 1. PicksOnMap/Pods/nanopb/pb_decode.c:1051-1063 | Setting defaults and reading the fields decodes as the message is defined to |
| PbDecode.PbDecodeNoinit | 1. PicksOnMap/Pods/nanopb/pb_decode.c:901-1048 | Fields in any order go to their places as the message is defined to decode, and success needs a key in the input of every required field with fewer than 64 required ones before it |
| PbKeys.SucceedsIffRequired | 1. PicksOnMap/Pods/nanopb/pb_decode.c:1004-1048 | Decoding a message, at any depth, succeeds if and only if all its fields can be read and the bytes have a key of every required field with fewer than 64 required ones before it |
| PbKeys.LoopSees | 1. PicksOnMap/Pods/nanopb/pb_decode.c:991-1000 | The required fields seen are those whose keys are in the bytes |
| PbKeys.NothingIsMissing | 1. PicksOnMap/Pods/nanopb/pb_decode.c:1004-1048 | No bytes at all are no message with a required field |
| PbMerge.UnknownIgnored | 1. PicksOnMap/Pods/nanopb/pb_decode.c:936-966 | A message with fields of any wire type that the schema does not have, between any two of its own, decodes to the same |
| PbMerge.PartsMerge | 1. PicksOnMap/Pods/nanopb/pb_decode.c:1463-1488 | A message with a submessage that comes in two parts decodes to the same, if the submessage has no required fields |
| PbMerge.UnpackedReads | 1. PicksOnMap/Pods/nanopb/pb_decode.c:448-458 | An array that could be packed is read as well when each item has a key of its own |
| PbMerge.ChunkReads | 1. PicksOnMap/Pods/nanopb/pb_decode.c:421-446 | A packed array goes behind the items that there are, so that it may come in parts |
| PbBounds.DecodedHasRoom | 1. PicksOnMap/Pods/nanopb/pb_decode.c:1051-1063 | Whatever the bytes, what is decoded stays within its fields: numbers in their width, strings and arrays in their room, and at most one member of each union |
| PbBounds.MessageHasRoom | 1. PicksOnMap/Pods/nanopb/pb_decode.c:901-1048 | And so when decoding over a message within its bounds |
| PbBounds.TooLargeFails | 1. PicksOnMap/Pods/nanopb/pb_decode.c:1289-1460 | A number too large for its field, or a string or bytes longer than its room, is an error |
| PbBounds.TooManyFail | 1. PicksOnMap/Pods/nanopb/pb_decode.c:440-456 | More items than an array has places are an error |
| PbDecode.CheckRequired | 1. PicksOnMap/Pods/nanopb/pb_decode.c:1006-1046 | The test of the bitmap words accepts exactly when all required fields that count were seen |
| PbDecode.WordsDecide | 1. PicksOnMap/Pods/nanopb/pb_decode.c:1028-1045 | Full words and the masked last word are all set if and only if every counted bit is |
| PbDecode.MarkSeen | 1. PicksOnMap/Pods/nanopb/pb_decode.c:988-993 | Seeing a required field sets its bit and no other |
| PbDecode.DecodeStaticField | 1. PicksOnMap/Pods/nanopb/pb_decode.c:401-475 | One occurrence is decoded by wire type, label and room left |
| PbDecode.PbDecodeVarint32 | 1. PicksOnMap/Pods/nanopb/pb_decode.c:182-247 | The loop with its sign-extension check decodes what the recursive definition does |
| PbRoundTrip.Varint32Exactly | 1. PicksOnMap/Pods/nanopb/pb_decode.c:182-247 | A number in at most five bytes is read exactly when it fits 32 bits, and then as the 64-bit reader would |
| PbDecode.PbDecodeVarint | 1. PicksOnMap/Pods/nanopb/pb_decode.c:250-271 | The 64-bit loop decodes a varint of at most ten bytes |
| PbDecode.MakeStringSubstream | 1. PicksOnMap/Pods/nanopb/pb_decode.c:367-380 | A substream has exactly the bytes its length says, and they are taken from the parent |
| PbDecode.PbSkipField | 1. PicksOnMap/Pods/nanopb/pb_decode.c:316-326 | Unknown fields are passed over according to their wire type |
| PbDecode.EncodeAndDecode | 1. PicksOnMap/Pods/nanopb/pb_encode.c:494-516 | A message written into a buffer with room for it is decoded from there to the same message |
| PbExamples.KeyNumbers | 1. PicksOnMap/Pods/nanopb/pb.h:313-318 | Keys carry wire type 0 for varints, 1 for eight bytes, 2 for strings and messages, 5 for four bytes |
| PbExamples.NumberBytes | 1. PicksOnMap/Pods/nanopb/pb_encode.c:574-594 | The number 150 in field 1 is 08 96 01 |
| PbExamples.StringBytes | 1. PicksOnMap/Pods/nanopb/pb_encode.c:635-672 | The string "testing" in field 2 |
| PbExamples.SubmessageBytes | 1. PicksOnMap/Pods/nanopb/pb_encode.c:682-730 | A message with 150 in its field 1, in field 3 |
| PbExamples.PackedBytes | 1. PicksOnMap/Pods/nanopb/pb_encode.c:126-178 | The numbers 3, 270 and 86942, packed, in field 4 |
| PbExamples.FixedBytes | 1. PicksOnMap/Pods/nanopb/pb_encode.c:607-633 | The number 1 in four and in eight bytes |
| PbExamples.NegativeBytes | 1. PicksOnMap/Pods/nanopb/pb_encode.c:734-771 | A negative number takes ten bytes |
| PbExamples.ZigZagNumbers | 1. PicksOnMap/Pods/nanopb/pb_encode.c:596-605 | Zigzag numbers of 0, -1, 1, -2 and the ends of the 32-bit range |

## Left out

- VersionHistory.RunsKeep: assumes of each move or compaction below level 0 that its inputs leave nothing older in their levels, because outputs may be cut between two entries of one key and inputs below level 0 are not widened for it; also takes every flush, move and compaction as one atomic step, so a memtable flush in the middle of a compaction (db/db_impl.cc:917-927) is not modelled
- VersionHistory.StepKeeps: takes the same steps
- Background.VersionSet.BackgroundCompaction: the file picked is a parameter; manual compactions of a range, errors and the manifest's writing are not modelled
- Compactions.KeepsReads: assumes that the keys parse and that nothing older is left; Compactions.ReadsKeptExactly states when reads are kept without that
- Compactions.DoCompactionWork: the size of a table with given entries is a parameter, so that the result holds for every way to encode them; errors, and flushing a memtable in between, are not modelled
- Which compaction is due: scores, seek statistics, compaction pointers, manual ranges; a run may choose any inputs that the setup allows
- SkipListRuns.RunsKeep: stores and loads of single words are sequentially consistent; memory barriers and the atomic pointer wrapper are not modelled
- SkipLists.SkipList.Insert: nodes are indices into an arena, and the height drawn at random is a parameter
- Log.Reader.ReadRecord: reads from offset 0; the initial offset, resynchronising and the offset of the last record are not modelled
- LogRoundTrip.PrefixRoundTrip: the checksum is a parameter of log and tables alike; Crc32c proves the function itself, and LogChecksum is about the log with it
- Recovery.RecoverLogFile: without paranoid checks, which is the default, and into one memtable; flushing to level 0 during recovery and reusing the last log are not modelled
- WriteRuns.RunsKeep: making room (waiting, switching memtable and log) shows only in whether the head may lead or fails; the slowdown, the waiting and the switch to a new log file, also the one that a writer without a batch asks for, are not modelled
- Merger.MergingIterator.Next: children are cursors over sorted runs with pairwise distinct keys; the caching wrapper around each child and the errors of children are not modelled
- TwoLevel.TwoLevelIterator.Seek: blocks are sorted runs that a function gives for a handle; errors in opening a block are not modelled
- DbIter.DBIter.Next: the sampling of reads, and the freeing of a large saved value, are not modelled
- VersionGet.Get: a table is its sorted entries; that an encoded table answers alike is TableReaders.InternalGet; the charging of seeks is not modelled
- TableBuilders.TableBuilder.Add: without compression, with one comparator, and while blocks stay below 2^32 bytes; the filter is joined to it in FilteredTables
- BlockIters.Iter.Seek: blocks as the builder makes them; the error paths for corrupt blocks cannot be reached there
- Comparators.FindShortestSeparator: states the value of a function whose properties are Comparators.BytewiseSeparates
- Blooms.NoFalseNegative: the hash of a key is a parameter; the rate of false positives is not stated
- Caches.LRUCache.Insert: lists and hash chains are sequences and handles are addresses into a map, so the relinking of list nodes is not modelled; sharding is left out
- HandleTables.HandleTable.Resize: the hash of a key is a function of it, given as a parameter
- MemTables.MemTable.Add: the arena's memory and its accounting are not modelled
- Snapshots.SnapshotList.New: takes sequence numbers that never fall, as the store's do
- VersionEdits.RecoverManifest: the numbers of the next file, log and last sequence, and rewriting or reusing the manifest, are not modelled
- PbRoundTrip.RoundTrip: static fields without callbacks, extensions, pointers or fixed counts; defaults are zero; strings have no zero byte inside and fit
- PbMerge.PartsMerge: submessages without required fields, since each part is checked for its own; not for members of a union, of which a later part replaces an earlier one
- PbDecode.PbDecodeVarint32: the bit position is not truncated to 8 bits, which matters only for varints longer than any number needs
- PbDecode.PbDecodeNoinit: a key with tag 0 in a message without fields, which the code would take for the terminator of the field list, counts as a failure
- Recovery.SyncedSurvives: one way only: a record that follows one after which the writer was out of step may still survive; the exact condition is stated for what is added next, LogFaults.GoesOnIffInStep, because later faults may happen to bring the writer back in step
- LogFaults.GoesOnIffInStep: for a checksum that is a parameter the half that loses a record supposes a byte whose middle fragment shows no record type outside its header; LogChecksum.ZerosShowNoType proves that of CRC32C
- Log.Writer.AddRecord: a failing call keeps some of its own bytes; bytes of earlier successful calls are not lost by it, nor does a call keep bytes and report success without keeping all
- Log.Reader.ReadPhysicalRecord: reads from offset 0, as ReadRecord, and a file that does not fail to be read
- Background.LogAndApply: only the building of the version; the manifest record, the log numbers and the error paths are not modelled
- TableBuilders.TableBuilder.Flush: the call on the filter block builder is in FilteredTables
- TableBuilders.TableBuilder.Finish: the filter block and its metaindex entry are not written into the file; FilteredTables keeps the filter block beside it
- TableBuilders.TableBuilder.WriteBlock: without compression
- TableReaders.Open: reading the metaindex and the filter from the file is not modelled
- FilteredTables.FilteredTableBuilder.Finish: supposes that the filters take less than 2^32 bytes
- StoreIterators.NewDBIterator: children are cursors over the runs; that the iterators of the memtable, of a block and of a level move as cursors do is proved for each of them apart, because a class can be the child of another only under its own type here
- Environment, files, locks, background threads, options, repair, the C interface, statistics, debug output, Snappy, the accelerated checksum, and the application's user interface
