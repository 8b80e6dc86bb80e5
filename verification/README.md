# LevelDB and nanopb: a verified model

This project models two engines the application carries: the storage engine in `SkillTalk/Pods/leveldb-library` and
the message codec in `SkillTalk/Pods/nanopb`. It proves that they keep their promises. For LevelDB: whatever the
engine does in the background, and wherever a crash cuts its log, a read at a snapshot returns the newest value
written at or before that snapshot and not lost. For nanopb: a message decodes to what was encoded.

The promise of LevelDB is stated once, over sets of entries (`Reads.Read`), and the other files connect to it:

- **State machine.** `DatabaseModel` has one step for each thing the engine does (write, memtable switch, flush,
  trivial move, compaction, snapshot, release). Every run keeps the order of the files (`RunKeepsStructure`), and
  every live snapshot keeps reading what the history of writes says (`RunKeepsReads`, `SnapshotReadsStay`).
- **Meaning.** `StoreMeaning` says the same in terms of operations alone: in every run a key reads as the last put or
  deletion of it says.
- **Compaction.** `CompactionMeaning` says which entries the drop rules remove and gives the exact condition under
  which no read changes. `CompactionInputs`, `CompactionSetup` and `CompactionWork` are the code that picks the
  inputs, widens them and runs the merge loop. `BoundaryCounterexample` is a run from the empty database in which
  the code's own choice of inputs brings a deleted key back; see "The boundary hypothesis" below.
- **The code that reads and writes.** `Database`, `VersionGet`, `VersionBuilder` and `Memtable` carry the
  algorithms as methods over classes and loops, each proved against the specification above.
- **Crashes.** `Durability` adds crashes to the runs. `WriteBatches`, `LogFormat`, `Log`, `Recovery` and
  `DatabaseRecovery` go from operations to bytes and back to the memtable: a log cut off anywhere replays exactly
  the batches that are wholly there, and what comes out is a crash step of the model. `LogSoundness` is about any
  file, damaged or not: what the reader may deliver, drop and report, said of the bytes. `VersionEdits`, `EditFields`,
  `Manifest`, `ManifestRecords` and `VersionSets` do the same for versions: the bytes of edits, the snapshot record,
  installing and recovering, from any prefix of the manifest.
- **Tables.** `Separators`, `Bloom`, `FilterBlock`, `FilterPolicies`, `BlockFormat`, `Block`, `BlockIterator`,
  `TableFormat`, `TableLayout`, `TableStates`, `TableBuilding` and `Table` are the bytes of a table file, how they are
  built, and exact lookups in them. `TableFiles` closes the circle: what a built file answers is what a file of a
  version answers in the state machine.
- **Iterators.** `DBIterator` refines a cursor over the simple map of visible keys (`UserView`), over
  `MergingIterator` (a cursor on the sorted union) and `TwoLevelIterator` (a cursor on a concatenation).
  `DatabaseIterator` shows that the sources of a database have such a union, and that it shows the history.
- **The cache.** `HandleTables`, `LruLists`, `CacheStates` and `LruCaches` are the hash table, the two circular lists
  and the reference counts of the LRU cache.
- **Concurrency.** `SkipListModel` interleaves one writer's single pointer stores with any number of readers;
  `GroupCommit` interleaves any number of writers on the write queue.
- **Bytes.** `Coding`, `Varints` (what the bytes of a varint mean, for all decoders), `Bits`, `CrcAlgebra` and `Crc`; the
  four-lane CRC32C equals the byte-at-a-time definition.

The nanopb files are `PbMessage` (schemas, messages and their bytes), `PbVarint`, `PbDecoding` and `PbRoundTrip` (the
decoder as a function and the round trip), `PbRecords` (which byte streams decode, as lists of records), `PbFits`
(what is decoded fits its schema), `PbEncoder` and `PbDecodeLoop` (the two-pass encoder over streams and the
decoding loop as they run), and `PbCodec`, which joins them. The bytes follow the Protocol Buffers encoding guide,
sections "Base 128 Varints", "Length-Delimited Records" and "Packed Repeated Fields".

## Reading the model

- User keys of the state machine are real numbers. The code only uses the user comparator as a total order; keys are
  byte strings, so there are countably many, and every countable total order embeds in the reals. `Keys.RankOrder`
  gives the embedding for the default comparator, and `Separators.StoredOrderIsRanked` carries it to internal keys.
  Modules below the comparator (tables, batches, the log, the manifest) use real bytes.
- A file of a version is the sequence of its entries plus its metadata; a version is seven levels. Reading a table file
  is "first entry at or after the lookup key", which `TableFiles` proves of the bytes.
- Each step of the state machine is atomic; a compaction is one step.
- `tableSize` stands for the file size the table builder reports. It only decides where output files end.
- `Write` requires the last sequence number to stay below `MAX_SEQUENCE_NUMBER`, one less than what the packed
  field allows, because the compaction loop also uses that number to mean "no entry of this key yet".
- A crash loses every operation after some point, and nothing that had been flushed. The manifest may know of a
  higher sequence number than the rest of the log; numbering goes on from there.
- `VersionSets` assumes that a file number stands for one file, that an edit adds no number a level already has, and
  that keys of files are not empty; the database never does otherwise (file numbers are handed out once).
- Decoding an edit into an object that was used before keeps its compaction pointers, since
  `VersionEdit::Clear` (db/version_edit.cc:26-39) does not clear them; recovery uses a new object for each record.
- The comment in the class DBIter (db/db_iter.cc:43-48) says that a reversed iterator rests just before all entries of
  the current
  key. After scanning past entries newer than the snapshot it can rest further back; the model follows the code.
- The log reader uses the types 5 and 6 for the end of the file and a bad record (db/log_reader.h:65-73). A fragment
  stored under one of them is taken for that: reading stops, or the fragment is dropped without a report.
- In `CrcAlgebra` a word is anything with an exclusive-or and a linear map; in `Crc` it is 32 bits, lowest first.
- The Bloom filter and its hash, and the checksum of table blocks, are parameters where nothing depends on which they are.
- In nanopb, a message type without fields finds the terminator of its field array under field number 0 and reads it
  like a bool (pb_common.c:87-104, pb_decode.c:416-417); `PbDecoding.DecodeLoop` does so too.
- The proofs about classes are contracts on their methods: a `Valid` or `Ok` predicate ties the fields to a ghost
  value, and the `ensures` clauses give the new ghost value.
- Some predicates come in two forms, the second of which says "the first holds of every value equal to this one". The
  second form keeps proofs quick: the verifier looks inside only where a proof mentions the first.

## The boundary hypothesis

`SetupOtherInputs` adds boundary files to the inputs at the compacted level, but takes the files of the next level
straight from `GetOverlappingInputs` (db/version_set.cc:1384-1387), and `IsBaseLevelForKey` looks only at deeper
levels (db/version_set.cc:1513). If two neighbouring files of the next level share a user key and only the first is
an input, a tombstone in it can be dropped while the second still holds the older value. The model keeps the code
as it is. `VersionSteps.CompactionPreservesReads` assumes `NextLevelBoundary` (no such pair of files), which can be
checked before the compaction; `VersionSteps.CompactionPreservesReadsIff` gives the condition that is both
necessary and sufficient, and `BoundaryCounterexample.DeletedKeyComesBack` is a run from the empty database whose
last step loses a deletion.

## Model

| member | source | states |
|---|---|---|
| `Keys.RankOrder` | SkillTalk/Pods/leveldb-library/util/comparator.cc:27-29 | The bytewise order on byte strings, proper prefixes first, embeds in the reals: ranks compare as the strings do, and only equal strings share a rank. |
| `Keys.LookupKeyBound` | SkillTalk/Pods/leveldb-library/db/dbformat.cc:117-135 | Seeking with the lookup key of (user, s) skips exactly the entries of that user key newer than s. |
| `Keys.LowerBound` | SkillTalk/Pods/leveldb-library/db/dbformat.cc:47-63 | Everything before the result is below the target, the result itself is not: what Seek means for a sorted source. |
| `Separators.FindShortestSeparator` | SkillTalk/Pods/leveldb-library/util/comparator.cc:31-52 | The loop computes the separator that the next row describes. |
| `Separators.SeparatorLies` | SkillTalk/Pods/leveldb-library/util/comparator.cc:31-52 | The separator is the start itself, or no longer than it and strictly between start and limit. |
| `Separators.SeparatorAt` | SkillTalk/Pods/leveldb-library/util/comparator.cc:31-52 | Where the two strings first differ, the byte of the start is raised by one and the rest cut off, if that stays below the limit; otherwise the start is left as it is. |
| `Separators.FindShortSuccessor` | SkillTalk/Pods/leveldb-library/util/comparator.cc:54-66 | The loop computes the successor that the next row describes. |
| `Separators.SuccessorIsShortest` | SkillTalk/Pods/leveldb-library/util/comparator.cc:54-66 | The successor is above the key and a shortest such string, unless every byte is 0xFF; then it is the key. |
| `Separators.FindInternalSeparator` | SkillTalk/Pods/leveldb-library/db/dbformat.cc:64-82 | The user key is shortened, and takes the earliest tag, exactly when that makes it shorter and larger. |
| `Separators.InternalIsLawful` | SkillTalk/Pods/leveldb-library/db/dbformat.cc:47-97 | The internal key comparator is a strict order whose separators and successors keep their places, and a lookup key in the gap before a block has a user key that the block does not begin with. |
| `Separators.StoredOrderIsRanked` | SkillTalk/Pods/leveldb-library/db/dbformat.cc:47-63 | Comparing internal keys as bytes is comparing them in the model: user keys by rank, then tags downwards. |
| `Reads.NewestExists` | SkillTalk/Pods/leveldb-library/db/db_impl.cc:1110-1155 | If any entry of a key is at or below a snapshot, one of them is the newest there. |
| `Reads.ReadOfNewest` | SkillTalk/Pods/leveldb-library/db/db_impl.cc:1110-1155 | A read is decided by the newest candidate alone: its value, or nothing if it is a tombstone. |
| `Reads.ReadIgnoresLater` | SkillTalk/Pods/leveldb-library/db/db_impl.cc:1110-1155 | Entries newer than the snapshot do not change what it reads. |
| `CompactionMeaning.CompactionExact` | SkillTalk/Pods/leveldb-library/db/db_impl.cc:945-984 | Applying the drop rules preserves every read at or above the smallest snapshot if and only if no dropped tombstone shields a value outside the inputs. |
| `CompactionMeaning.ResurrectionShows` | SkillTalk/Pods/leveldb-library/db/db_impl.cc:955-969 | When a dropped tombstone does shield such a value, the key reads as deleted before and as a value after. |
| `CompactionMeaning.NoOlderRest` | SkillTalk/Pods/leveldb-library/db/db_impl.cc:955-969 | If nothing outside the inputs is older than an input entry of the same base-level key, compaction preserves reads. |
| `CompactionMeaning.KeptIsLean` | SkillTalk/Pods/leveldb-library/db/db_impl.cc:945-969 | What the drop rules leave has of each user key at most one entry at or below the smallest snapshot, and no tombstone there whose key is at its base level. |
| `VersionModel.FileHitIsNewest` | SkillTalk/Pods/leveldb-library/db/version_set.cc:262-275 | The first entry at or after the lookup key in a table is the newest entry of that key at or below the snapshot in the file. |
| `VersionGet.FindFile` | SkillTalk/Pods/leveldb-library/db/version_set.cc:87-105 | The binary search returns the first file whose largest key is at or after the target, over sorted files. |
| `VersionGet.SomeFileOverlapsRange` | SkillTalk/Pods/leveldb-library/db/version_set.cc:121-153 | True exactly when some file meets the user-key range, by full scan at level 0 and by one binary search elsewhere; null bounds are infinite. |
| `VersionGet.SortNewestFirst` | SkillTalk/Pods/leveldb-library/db/version_set.cc:277-279 | The sort keeps exactly the files, each as often as before, and puts larger file numbers first. |
| `VersionGet.GetFromLevelZero` | SkillTalk/Pods/leveldb-library/db/version_set.cc:281-307 | Searching overlapping level-0 files newest first and stopping at the first hit finds the newest entry of the level. |
| `VersionGet.GetFromLevel` | SkillTalk/Pods/leveldb-library/db/version_set.cc:309-322 | In a sorted level the one binary-searched file holds the newest entry of the key at or below the snapshot, if the level has one. |
| `VersionGet.NewestInVersion` | SkillTalk/Pods/leveldb-library/db/version_set.cc:281-322 | A hit at a level after misses above it is the newest in the whole version. |
| `VersionGet.Get` | SkillTalk/Pods/leveldb-library/db/version_set.cc:324-400 | Under the level invariant, searching level by level returns the newest entry over all stored entries, or reports that there is none. |
| `VersionBuilder.UpperBound` | SkillTalk/Pods/leveldb-library/db/version_set.cc:695-707 | The number of base files that sort before an added file. |
| `VersionBuilder.SaveTo` | SkillTalk/Pods/leveldb-library/db/version_set.cc:672-715 | The per-level loop is the merge of base and added files in file order, a base file before a tied added one, without the deleted files. |
| `VersionBuilder.MergeSurvives` | SkillTalk/Pods/leveldb-library/db/version_set.cc:672-734 | What the merge leaves is exactly the files of both sides whose number is not deleted, whatever numbers they share. |
| `VersionBuilder.MergeInOrder` | SkillTalk/Pods/leveldb-library/db/version_set.cc:672-734 | The merged list is strictly in file order if and only if no base file that stays has the smallest key and the number of an added file. |
| `VersionBuilder.ReplayStep` | SkillTalk/Pods/leveldb-library/db/version_set.cc:629-669 | When a number stands for one file, one more edit applied to a builder has the effect of that edit on the files that survive so far. |
| `VersionBuilder.FileOrderUnique` | SkillTalk/Pods/leveldb-library/db/version_set.cc:569-600 | A set of files has only one arrangement in file order, so equal sets give equal levels. |
| `CompactionInputs.GetOverlappingInputs` | SkillTalk/Pods/leveldb-library/db/version_set.cc:498-538 | At level 0 the restart loop terminates with the least range that contains the given one and is closed under overlap, and returns the files that meet it; elsewhere exactly the files that meet the given range. |
| `CompactionInputs.SelectIsSlice` | SkillTalk/Pods/leveldb-library/db/version_set.cc:498-538 | In a sorted level the files that meet a range are a run of neighbours. |
| `CompactionInputs.GetRange` | SkillTalk/Pods/leveldb-library/db/version_set.cc:1182-1204 | The smallest and largest key of a set of files. |
| `CompactionInputs.FindSmallestBoundaryFile` | SkillTalk/Pods/leveldb-library/db/version_set.cc:1321-1338 | Returns the boundary file with the smallest start, and none exactly when there is none. |
| `CompactionInputs.AddBoundaryInputs` | SkillTalk/Pods/leveldb-library/db/version_set.cc:1355-1378 | Terminates, adds only smallest boundary files, each above the largest key so far, and leaves no file that continues the last user key. |
| `CompactionInputs.BoundaryIsNeighbour` | SkillTalk/Pods/leveldb-library/db/version_set.cc:1321-1338 | In a sorted level the smallest boundary file of a run of neighbours is the next file. |
| `CompactionInputs.ChainOfSlice` | SkillTalk/Pods/leveldb-library/db/version_set.cc:1355-1378 | In a sorted level, adding boundary files to a run of neighbours extends the run. |
| `CompactionSetup.PickIsDetached` | SkillTalk/Pods/leveldb-library/db/version_set.cc:1380-1384 | Any legal pick, once boundary files are added, shares no user key with a newer file left behind. |
| `CompactionSetup.SetupOtherInputs` | SkillTalk/Pods/leveldb-library/db/version_set.cc:1380-1439 | Inputs are detached from their level and next-level inputs are exactly the files meeting their range; the wider choice is taken exactly when it has more files, stays below the limit and meets the same next-level files; the grandparents are exactly the files meeting the whole range. |
| `CompactionSetup.PickFile` | SkillTalk/Pods/leveldb-library/db/version_set.cc:1260-1273 | The seek-charged file; else the first file past the compaction pointer, and the first of the level if none is past it or there is no pointer. |
| `CompactionSetup.PickCompaction` | SkillTalk/Pods/leveldb-library/db/version_set.cc:1247-1301 | The inputs come from that file alone, and at level 0 from everything in the least closed range around it; they meet what a compaction step needs. |
| `CompactionSetup.CompactRange` | SkillTalk/Pods/leveldb-library/db/version_set.cc:1441-1472 | The inputs come from the files that meet the range, above level 0 only so many of them as it takes to reach the size limit; or there are none because no file meets the range. |
| `CompactionWork.Compaction.IsBaseLevelForKey` | SkillTalk/Pods/leveldb-library/db/version_set.cc:1510-1529 | With keys asked in ascending order, the cursors that only move forward answer exactly whether no deeper level covers the key. |
| `CompactionWork.Compaction.ShouldStopBefore` | SkillTalk/Pods/leveldb-library/db/version_set.cc:1531-1553 | True exactly when the grandparent files that the keys have passed since the output was begun come to more than the limit; the cursor stops at the first file that the key has not passed. |
| `CompactionWork.DropIsHiddenOrObsolete` | SkillTalk/Pods/leveldb-library/db/db_impl.cc:945-969 | Looking one entry back decides whether some newer entry at or below the smallest snapshot hides this one. |
| `CompactionWork.KeptFirstIsLean` | SkillTalk/Pods/leveldb-library/db/db_impl.cc:926-1009 | For any ascending input, the entries the loop keeps have nothing left that could be dropped. |
| `CompactionWork.KeptIsKept` | SkillTalk/Pods/leveldb-library/db/db_impl.cc:926-1009 | The entries the loop keeps are the entries the set-level rules keep. |
| `CompactionWork.OutputsSorted` | SkillTalk/Pods/leveldb-library/db/db_impl.cc:820-867 | Output files cut from an ascending run are well formed, sorted and disjoint. |
| `CompactionWork.FinishOutput` | SkillTalk/Pods/leveldb-library/db/db_impl.cc:820-867 | Closing a file moves the open entries into it with its key range and number, and loses none. |
| `CompactionWork.DecideDrop` | SkillTalk/Pods/leveldb-library/db/db_impl.cc:945-969 | The drop decision for one entry, given the last sequence number of its key. |
| `CompactionWork.DoCompactionWork` | SkillTalk/Pods/leveldb-library/db/db_impl.cc:899-1021 | The outputs hold exactly the kept entries of the input, in order, in new sorted disjoint files; nothing droppable is left, and each file ends as soon as it is big enough. |
| `VersionSteps.FlushKeepsInv` | SkillTalk/Pods/leveldb-library/db/db_impl.cc:526-535 | Installing a memtable at a level it does not overlap above keeps every clause of the level invariant. |
| `VersionSteps.ReplaceKeepsInv` | SkillTalk/Pods/leveldb-library/db/db_impl.cc:869-885 | Replacing the inputs by outputs one level down keeps levels sorted and disjoint, level 0 ordered by age, and shallower entries newer. |
| `VersionSteps.OneSide` | SkillTalk/Pods/leveldb-library/db/version_set.cc:1380-1387 | A file left out of the next-level inputs lies wholly on one side of everything that is compacted. |
| `VersionSteps.UntouchedIsNewer` | SkillTalk/Pods/leveldb-library/db/version_set.cc:1510-1529 | Given the boundary hypothesis, an entry outside a compaction is newer than any input entry of the same base-level key, wherever it is stored. |
| `VersionSteps.CompactionPreservesReads` | SkillTalk/Pods/leveldb-library/db/db_impl.cc:899-1009 | Given the boundary hypothesis, every read at or above the smallest snapshot is the same before and after an installed compaction. |
| `VersionSteps.CompactionPreservesReadsIff` | SkillTalk/Pods/leveldb-library/db/db_impl.cc:899-1009 | Without it: reads are preserved if and only if no dropped tombstone shields a value among the entries that were not inputs. |
| `DatabaseModel.NextKeepsStructure` | SkillTalk/Pods/leveldb-library/db/db_impl.cc:697-776 | Each step keeps sources sorted, newer sources above older ones, file numbers distinct and the level invariant. |
| `DatabaseModel.NextKeepsReads` | SkillTalk/Pods/leveldb-library/db/db_impl.cc:697-776 | Each step keeps every read of a live snapshot equal to the full history, given the boundary hypothesis at compactions. |
| `DatabaseModel.RunKeepsStructure` | SkillTalk/Pods/leveldb-library/db/db_impl.cc:697-776 | Every state of every run has the structure. |
| `DatabaseModel.RunKeepsReads` | SkillTalk/Pods/leveldb-library/db/db_impl.cc:1110-1155 | In every run whose compactions meet the boundary hypothesis, each live snapshot always reads what the history of writes says. |
| `DatabaseModel.SnapshotReadsStay` | SkillTalk/Pods/leveldb-library/db/db_impl.cc:1176-1179 | In every run whose compactions meet the hypothesis, a live snapshot reads the same value at any two points of its life. |
| `DatabaseModel.CompactKeepsReadsIff` | SkillTalk/Pods/leveldb-library/db/db_impl.cc:887-1048 | A compaction step keeps the reads if and only if it resurrects nothing. |
| `StoreMeaning.WriteShows` | SkillTalk/Pods/leveldb-library/db/write_batch.cc:116-137 | After a write, a key reads as the last operation of the batch on it leaves it: the value of a put, nothing after a deletion. |
| `StoreMeaning.WriteLeavesOthers` | SkillTalk/Pods/leveldb-library/db/write_batch.cc:116-137 | A key that no operation of the batch is on reads as before the write. |
| `StoreMeaning.RunMeans` | SkillTalk/Pods/leveldb-library/include/leveldb/db.h:66-88 | In every run, a key reads at the last sequence number as the last of all operations written on it says, and as absent if there is none: flushes, moves, compactions and snapshots change nothing. |
| `StoreMeaning.StoredMeans` | SkillTalk/Pods/leveldb-library/include/leveldb/db.h:66-88 | The same of what memtables and files hold, when the compactions meet the boundary hypothesis. |
| `Durability.CrashKeepsStructure` | SkillTalk/Pods/leveldb-library/db/db_impl.cc:289-378 | After a crash that loses the end of the log, the version from the manifest and the memtable from the rest of the log are in good order. |
| `Durability.NextKeepsDurable` | SkillTalk/Pods/leveldb-library/db/db_impl.cc:697-776 | Every step keeps the tables able to answer alone for all that has been flushed. |
| `Durability.CrashingRunKeepsReads` | SkillTalk/Pods/leveldb-library/db/db_impl.cc:289-378 | In every run with any number of crashes, cutting the log anywhere behind what was flushed, each live snapshot reads exactly what was written and not lost. |
| `Memtable.InsertKeepsOrder` | SkillTalk/Pods/leveldb-library/db/memtable.cc:76-99 | Adding an entry with a new sequence number keeps the table sorted. |
| `Memtable.GetIsNewest` | SkillTalk/Pods/leveldb-library/db/memtable.cc:101-135 | The first entry at or after the lookup key, if it has the key, is the newest one at or below the snapshot, and there is none otherwise. |
| `Memtable.MergeIsSortedUnion` | SkillTalk/Pods/leveldb-library/db/version_set.cc:1214-1245 | Merging two sorted runs without shared sequence numbers gives a sorted run of exactly their entries. |
| `Database.PickLevelForMemTableOutput` | SkillTalk/Pods/leveldb-library/db/version_set.cc:470-496 | Level 0 when something overlaps there; else the deepest level, at most 2, such that down to it no level overlaps and none lies above too many overlapping bytes; it stops only where the next level is blocked. |
| `Database.InsertInto` | SkillTalk/Pods/leveldb-library/db/write_batch.cc:116-137 | The memtable gains one entry per operation, with consecutive sequence numbers, and stays sorted. |
| `Database.DBImpl.Get` | SkillTalk/Pods/leveldb-library/db/db_impl.cc:1110-1155 | Memtable, immutable memtable, then the version: returns what the history of writes says at the snapshot. |
| `Database.DBImpl.Write` | SkillTalk/Pods/leveldb-library/db/db_impl.cc:1211-1246 | A batch becomes a write step of the database and keeps its invariants; then each key of the batch reads as its last operation says, and every other key as before. |
| `Database.WriteThenGet` | SkillTalk/Pods/leveldb-library/include/leveldb/db.h:78-88 | What a client sees: Get after Write returns the value of the last put of the batch on the key, nothing after a deletion, and what it returned before if the batch has no operation on the key. |
| `Database.DBImpl.SwitchMemtable` | SkillTalk/Pods/leveldb-library/db/db_impl.cc:1362-1376 | The memtable switch is a step and keeps the invariants. |
| `Database.DBImpl.CompactMemTable` | SkillTalk/Pods/leveldb-library/db/db_impl.cc:544-575 | Flushing the immutable memtable is a flush step to the level that PickLevelForMemTableOutput describes; it changes no read and keeps the invariants. |
| `Database.DBImpl.AutomaticCompaction` | SkillTalk/Pods/leveldb-library/db/db_impl.cc:720-758 | Picks by pointer or seeks, then moves the file exactly when it is the only input and its grandparents are small enough, and otherwise merges the chosen inputs; keeps the structure, and the reads under the boundary hypothesis. |
| `Database.DBImpl.ManualCompaction` | SkillTalk/Pods/leveldb-library/db/db_impl.cc:707-720 | A manual compaction merges the files it finds, cut short above level 0 at the size limit, and says where to go on; or it is done exactly when it finds none, and then no file of the level overlaps the range. |
| `Database.DBImpl.BackgroundCompaction` | SkillTalk/Pods/leveldb-library/db/db_impl.cc:697-776 | A pending flush goes first; otherwise the manual or the automatic compaction is a step of the database, or nothing happens. |
| `Database.DBImpl.MoveFile` | SkillTalk/Pods/leveldb-library/db/db_impl.cc:720-736 | A trivial move is a move step and keeps all invariants without any hypothesis. |
| `Database.DBImpl.Compact` | SkillTalk/Pods/leveldb-library/db/db_impl.cc:887-1048 | Running the merge loop on chosen inputs and installing the result is a compaction step. |
| `Database.DBImpl.RunCompaction` | SkillTalk/Pods/leveldb-library/db/db_impl.cc:887-1021 | The outputs are exactly the inputs minus what the drop rules remove at the smallest live snapshot, and nothing that could be dropped is left in them. |
| `Database.DBImpl.InstallResults` | SkillTalk/Pods/leveldb-library/db/db_impl.cc:869-885 | Inputs leave their two levels, outputs enter the lower one, nothing else changes. |
| `Database.DBImpl.GetSnapshot` | SkillTalk/Pods/leveldb-library/db/db_impl.cc:1176-1179 | A snapshot is the last sequence number, and becomes live. |
| `Database.DBImpl.ReleaseSnapshot` | SkillTalk/Pods/leveldb-library/db/snapshot.h:79-88 | Releasing one snapshot leaves the others, oldest first, and keeps the invariants. |
| `Database.FirstAnswer` | SkillTalk/Pods/leveldb-library/db/db_impl.cc:1129-1141 | The first source that has a candidate has the newest one of all sources. |
| `BoundaryCounterexample.DeletedKeyComesBack` | SkillTalk/Pods/leveldb-library/db/version_set.cc:1384-1387 | A run of eleven steps from the empty database, every one a step the code can take: reads are right in all states but the last, where a deleted key reads as its old value. |
| `UserView.ViewIsSimpleMap` | SkillTalk/Pods/leveldb-library/db/db_iter.cc:177-207 | The view at a snapshot is exactly the map of user keys to the values a read returns. |
| `UserView.ViewAscends` | SkillTalk/Pods/leveldb-library/db/db_iter.cc:177-207 | The view is strictly ascending by user key. |
| `DBIterator.DBIter.SeekToFirst` | SkillTalk/Pods/leveldb-library/db/db_iter.cc:292-301 | The iterator stands at the first pair of the view, or past its end. |
| `DBIterator.DBIter.Seek` | SkillTalk/Pods/leveldb-library/db/db_iter.cc:278-290 | The iterator stands at the first pair of the view at or after the target. |
| `DBIterator.DBIter.SeekToLast` | SkillTalk/Pods/leveldb-library/db/db_iter.cc:303-308 | The iterator stands at the last pair of the view. |
| `DBIterator.DBIter.Next` | SkillTalk/Pods/leveldb-library/db/db_iter.cc:141-175 | From either direction, the cursor on the view moves one forward. |
| `DBIterator.DBIter.Prev` | SkillTalk/Pods/leveldb-library/db/db_iter.cc:209-234 | From either direction, the cursor on the view moves one back. |
| `DBIterator.DBIter.ShowsPair` | SkillTalk/Pods/leveldb-library/db/db_iter.cc:64-71 | A valid iterator shows the key and value of its place in the view. |
| `Merger.MergingIterator.Seek` | SkillTalk/Pods/leveldb-library/table/merger.cc:47-53 | The cursor on the sorted union stands at the least key at or after the target. |
| `Merger.MergingIterator.Next` | SkillTalk/Pods/leveldb-library/table/merger.cc:55-79 | The cursor on the sorted union moves one forward, after a direction change too. |
| `Merger.MergingIterator.Prev` | SkillTalk/Pods/leveldb-library/table/merger.cc:81-108 | The cursor on the sorted union moves one back, after a direction change too. |
| `Merger.MergingIterator.FindSmallest` | SkillTalk/Pods/leveldb-library/table/merger.cc:148-161 | The chosen child stands at the next element of the union. |
| `Merger.MergingIterator.FindLargest` | SkillTalk/Pods/leveldb-library/table/merger.cc:163-176 | The chosen child stands at the previous element of the union. |
| `TwoLevel.TwoLevelIterator.Seek` | SkillTalk/Pods/leveldb-library/table/two_level_iterator.cc:82-87 | With separating index keys, the cursor on the concatenation stands at the least key at or after the target. |
| `TwoLevel.TwoLevelIterator.Next` | SkillTalk/Pods/leveldb-library/table/two_level_iterator.cc:103-107 | The cursor on the concatenation moves one forward, over any number of empty blocks. |
| `TwoLevel.TwoLevelIterator.Prev` | SkillTalk/Pods/leveldb-library/table/two_level_iterator.cc:109-113 | The cursor on the concatenation moves one back, over any number of empty blocks. |
| `TwoLevel.TwoLevelIterator.SkipEmptyDataBlocksForward` | SkillTalk/Pods/leveldb-library/table/two_level_iterator.cc:115-126 | The skip loop terminates at the first entry at or after the point reached. |
| `TwoLevel.TwoLevelIterator.InitDataBlock` | SkillTalk/Pods/leveldb-library/table/two_level_iterator.cc:146-161 | The open block is the one the index names; it is not reopened if it already is. |
| `DatabaseIterator.LevelSeparates` | SkillTalk/Pods/leveldb-library/db/version_set.cc:163-227 | A level above 0, indexed by largest keys, is a concatenation that a two-level iterator can walk. |
| `DatabaseIterator.SourcesSound` | SkillTalk/Pods/leveldb-library/db/db_impl.cc:1072-1097 | The iterators of memtables, level-0 files and deeper levels are sorted, share no entry, and hold together exactly what the database holds. |
| `DatabaseIterator.IteratorShowsHistory` | SkillTalk/Pods/leveldb-library/db/db_impl.cc:1157-1167 | At a live snapshot, going through the merged iterators shows exactly the keys and values of the history at that snapshot, in ascending order. |
| `DatabaseIterator.NewInternalIterator` | SkillTalk/Pods/leveldb-library/db/db_impl.cc:1072-1097 | Builds the merging iterator over all entries of the database. |
| `SkipListModel.PublishLinks` | SkillTalk/Pods/leveldb-library/db/skiplist.h:358-364 | One pointer store turns the linked list of a level into the same list with the key in place. |
| `SkipListModel.NextKeepsInv` | SkillTalk/Pods/leveldb-library/db/skiplist.h:262-281 | Every step of writer or reader keeps all levels ascending and nested and all running searches on course. |
| `SkipListModel.RunKeepsInv` | SkillTalk/Pods/leveldb-library/db/skiplist.h:337-368 | So does every run. |
| `SkipListModel.ReadsAreExact` | SkillTalk/Pods/leveldb-library/db/skiplist.h:262-281 | A search running during any inserts returns the least key at or after the target as of its last load, and misses no key present when it began. |
| `SkipListModel.SkipList.FindGreaterOrEqual` | SkillTalk/Pods/leveldb-library/db/skiplist.h:262-281 | Returns the least key at or after the target and the predecessors on every level. |
| `SkipListModel.SkipList.FindLessThan` | SkillTalk/Pods/leveldb-library/db/skiplist.h:285-301 | Returns the greatest key below the target, or the head. |
| `SkipListModel.SkipList.FindLast` | SkillTalk/Pods/leveldb-library/db/skiplist.h:305-322 | Returns the last key, or the head of an empty list. |
| `SkipListModel.SkipList.Insert` | SkillTalk/Pods/leveldb-library/db/skiplist.h:337-368 | For any height, exactly the new key joins the bottom list, in order, and all levels stay nested. |
| `SkipListModel.SkipList.Contains` | SkillTalk/Pods/leveldb-library/db/skiplist.h:371-378 | True exactly when the key is in the list. |
| `Coding.Fixed32RoundTrip` | SkillTalk/Pods/leveldb-library/util/coding.cc:9-13 | Fixed 32-bit values decode to what was encoded. |
| `Coding.Fixed64RoundTrip` | SkillTalk/Pods/leveldb-library/util/coding.cc:15-19 | So do 64-bit values. |
| `Coding.LittleEndian` | SkillTalk/Pods/leveldb-library/util/coding.h:54-62 | The four bytes of a fixed 32-bit value are its bits from 0, 8, 16 and 24 on. |
| `Coding.UnrolledVarint` | SkillTalk/Pods/leveldb-library/util/coding.cc:21-47 | The unrolled five-branch encoder is the seven-bits-at-a-time encoding. |
| `Coding.GetVarint32` | SkillTalk/Pods/leveldb-library/util/coding.cc:86-114 | The byte loop with its one-byte fast path computes the shift-accumulate definition and fails when it does. |
| `Coding.Varint32RoundTrip` | SkillTalk/Pods/leveldb-library/util/coding.cc:49-53 | Every 32-bit value decodes from its varint, leaving the rest of the input. |
| `Coding.Varint64RoundTrip` | SkillTalk/Pods/leveldb-library/util/coding.cc:66-75 | Every 64-bit value decodes from its varint, leaving the rest of the input. |
| `Coding.GetVarint64` | SkillTalk/Pods/leveldb-library/util/coding.cc:116-131 | The byte loop computes the shift-accumulate definition and fails when it does. |
| `Coding.LengthPrefixedRoundTrip` | SkillTalk/Pods/leveldb-library/util/coding.cc:155-164 | A length-prefixed string decodes to what was encoded, leaving the rest. |
| `Varints.EncodedIsVarint` | SkillTalk/Pods/leveldb-library/util/coding.cc:55-64 | What is written is a varint of the value, the shortest one: seven bits to a byte, lowest first, ending at the first byte below 128. |
| `Varints.Varint32Means` | SkillTalk/Pods/leveldb-library/util/coding.cc:86-114 | The 32-bit decoder takes exactly the varints of at most five bytes, gives their value modulo 2^32 and leaves what follows. |
| `Varints.Varint64Means` | SkillTalk/Pods/leveldb-library/util/coding.cc:116-131 | The 64-bit decoder takes exactly the varints of at most ten bytes, gives their value modulo 2^64 and leaves what follows. |
| `WriteBatches.OpRoundTrip` | SkillTalk/Pods/leveldb-library/db/write_batch.cc:98-109 | A record of a batch parses back to its operation. |
| `WriteBatches.Iterate` | SkillTalk/Pods/leveldb-library/db/write_batch.cc:42-80 | Hands on the operations at the front of the bytes, in order, and accepts the batch exactly when nothing is left and their number is the count in the header; short input is refused. |
| `WriteBatches.IterateBack` | SkillTalk/Pods/leveldb-library/db/write_batch.cc:42-80 | A batch that was built yields exactly its operations. |
| `WriteBatches.IterateMeans` | SkillTalk/Pods/leveldb-library/db/write_batch.cc:42-80 | Any bytes are accepted exactly when they are put and delete records with length-prefixed strings, one after the other, as many as the count says. |
| `WriteBatches.WriteBatch.Put` | SkillTalk/Pods/leveldb-library/db/write_batch.cc:98-103 | Appends one put and counts it. |
| `WriteBatches.WriteBatch.Delete` | SkillTalk/Pods/leveldb-library/db/write_batch.cc:105-109 | Appends one deletion and counts it. |
| `WriteBatches.WriteBatch.SetSequence` | SkillTalk/Pods/leveldb-library/db/write_batch.cc:94-96 | Patches the sequence number and nothing else. |
| `WriteBatches.WriteBatch.Append` | SkillTalk/Pods/leveldb-library/db/write_batch.cc:144-148 | The operations of the source follow ours, and the counts add up. |
| `CrcAlgebra.LaneStep` | SkillTalk/Pods/leveldb-library/util/crc32c.cc:304-361 | Feeding a word to the first lane sixteen bytes on, and rotating, equals taking the word in after everything the lanes stand for. |
| `CrcAlgebra.WordAtOnce` | SkillTalk/Pods/leveldb-library/util/crc32c.cc:313-320 | Four bytes one at a time equal one 32-bit word. |
| `CrcAlgebra.StrideAtOnce` | SkillTalk/Pods/leveldb-library/util/crc32c.cc:295-300 | The four stride tables together append sixteen zero bytes to a word. |
| `Crc.Step1IsZero` | SkillTalk/Pods/leveldb-library/util/crc32c.cc:287-291 | The table step for one byte is the bit-level definition. |
| `Crc.Step4IsStride` | SkillTalk/Pods/leveldb-library/util/crc32c.cc:294-300 | The lane step is a word added to the lane carried sixteen bytes on. |
| `Crc.Extend` | SkillTalk/Pods/leveldb-library/util/crc32c.cc:276-377 | For every buffer, alignment and start value, the prologue, lanes, rotation and fold equal the byte-at-a-time CRC. |
| `Crc.ExtendComposes` | SkillTalk/Pods/leveldb-library/util/crc32c.h:14-17 | Extending over a concatenation is extending twice. |
| `Crc.MaskRotates` | SkillTalk/Pods/leveldb-library/util/crc32c.h:22-32 | Mask puts the low 15 bits above the high 17 and adds 0xa282ead8. |
| `Crc.UnmaskInvertsMask` | SkillTalk/Pods/leveldb-library/util/crc32c.h:29-38 | Unmask undoes Mask. |
| `Crc.MaskInvertsUnmask` | SkillTalk/Pods/leveldb-library/util/crc32c.h:29-38 | And Mask undoes Unmask, so both are bijections. |
| `LogFormat.ReadHere` | SkillTalk/Pods/leveldb-library/db/log_reader.cc:189-271 | A physical record that fits its block reads back if the file holds all of it, and reads as end of file if the file ends inside it. |
| `LogFormat.ReadRecordBack` | SkillTalk/Pods/leveldb-library/db/log_reader.cc:56-174 | A logical record, however fragmented, reads back whole, or as end of file without a report if it is cut off. |
| `LogFormat.CrashRecovery` | SkillTalk/Pods/leveldb-library/db/log_reader.cc:56-271 | Reading any prefix of a log returns exactly the records wholly contained in it, in order, and reports no corruption. |
| `LogFormat.WholeIsLongest` | SkillTalk/Pods/leveldb-library/db/log_reader.cc:144-151 | That is the longest run of records whose bytes fit the prefix. |
| `LogFormat.LogRoundTrip` | SkillTalk/Pods/leveldb-library/db/log_writer.cc:34-80 | An untruncated log reads back completely. |
| `LogFormat.LogGrows` | SkillTalk/Pods/leveldb-library/db/log_writer.cc:34-80 | Repeated AddRecord calls write the log of their records. |
| `LogSoundness.PhysicalMeans` | SkillTalk/Pods/leveldb-library/db/log_reader.cc:189-271 | At any place of any file, exactly one thing is read, told by the bytes at the next header: a fragment in its block whose stored bytes are the checksum of type and payload; damage (a wrong checksum, or a payload that leaves its block), which is reported and the block skipped; a blank header, skipped without a report; or the end of the file. |
| `LogSoundness.DamageIsReported` | SkillTalk/Pods/leveldb-library/db/log_reader.cc:216-257 | A complete header whose payload leaves its block or whose checksum differs is reported, and the rest of its block is skipped. |
| `LogSoundness.RecordIsThere` | SkillTalk/Pods/leveldb-library/db/log_reader.cc:56-174 | In any file, a returned record is one full fragment, or a first one, middle ones and a last one, with matching checksums, that follow each other with nothing dropped between; its bytes are theirs joined. |
| `LogSoundness.NothingLost` | SkillTalk/Pods/leveldb-library/db/log_reader.cc:56-174 | When a record is returned without a report, it holds all the payload that was read since the last one, fragments of the reserved type 6 aside; and there is no further record only where the file is cut short or at a fragment of the reserved type 5. |
| `LogSoundness.EmptyFirstIsIgnored` | SkillTalk/Pods/leveldb-library/db/log_reader.cc:92-106 | An empty first fragment before a full one is dropped without a report. |
| `LogSoundness.RecordIsLaidOut` | SkillTalk/Pods/leveldb-library/db/log_writer.cc:34-108 | What the writer appends is the record as such a chain of fragments. |
| `Log.ChecksumAgrees` | SkillTalk/Pods/leveldb-library/db/log_reader.cc:243-257 | Comparing unmasked checksums is the same as comparing the stored bytes. |
| `Log.Writer.AddRecord` | SkillTalk/Pods/leveldb-library/db/log_writer.cc:34-80 | Appends exactly the fragments of the record at the current file length, trailer padding included, so that the record lies there as a chain of checksummed fragments. |
| `Log.Writer.EmitPhysicalRecord` | SkillTalk/Pods/leveldb-library/db/log_writer.cc:82-108 | Appends one header with the masked CRC of type and payload, and the payload. |
| `Log.Reader.ReadPhysicalRecord` | SkillTalk/Pods/leveldb-library/db/log_reader.cc:189-271 | The buffered reader delivers, drops and reports what lies at the next header of the file, by the four rules of LogSoundness.PhysicalMeans, damaged or not. |
| `Log.Reader.ReadRecord` | SkillTalk/Pods/leveldb-library/db/log_reader.cc:56-174 | Returns the next record and reports the drops on the way; in any file the record is a chain of matching fragments, and holds everything read if nothing was reported. |
| `Recovery.RecoverLogFile` | SkillTalk/Pods/leveldb-library/db/db_impl.cc:427-461 | On any file: the entries of all records that can be read are inserted, numbered from their batches, and the highest number is found; under paranoid checks it succeeds exactly when nothing was dropped and every record is a well formed batch. |
| `Recovery.CutLogReplays` | SkillTalk/Pods/leveldb-library/db/db_impl.cc:427-461 | For the log of any batches cut off anywhere that is exactly the operations of the batches wholly contained, with their original sequence numbers, and it never fails. |
| `VersionEdits.EditRoundTrip` | SkillTalk/Pods/leveldb-library/db/version_edit.cc:41-203 | Decoding an encoded edit gives it back: comparator, numbers, pointers, deleted and new files, each list in its order. Only the pointers of an edit object that is used again stay in front. |
| `EditFields.DecodeMeans` | SkillTalk/Pods/leveldb-library/db/version_edit.cc:105-203 | Any bytes are an edit exactly when they are fields one after the other: a known tag, real levels, numbers, and keys that are not empty; the edit is what the fields say, later single values replacing earlier ones. |
| `EditFields.InsertDeletedMeans` | SkillTalk/Pods/leveldb-library/db/version_edit.cc:169-175 | The deleted files are kept as a sorted set. |
| `VersionEdits.VersionEdit.EncodeTo` | SkillTalk/Pods/leveldb-library/db/version_edit.cc:41-84 | Appends exactly the encoding of the edit. |
| `VersionEdits.VersionEdit.DecodeFrom` | SkillTalk/Pods/leveldb-library/db/version_edit.cc:105-203 | The tag loop accepts exactly the records the definition accepts, and reads the same edit from them. |
| `Manifest.AppliedIs` | SkillTalk/Pods/leveldb-library/db/version_set.cc:629-669 | Applying an edit to the sorted set of a level has the set effect of the edit and keeps the set in file order. |
| `Manifest.SaysNext` | SkillTalk/Pods/leveldb-library/db/version_set.cc:777-797 | Recording an edit keeps up with installing it: a builder started from nothing and given all records saves the same list of files on each of the seven levels as the new version has. |
| `Manifest.SnapshotSays` | SkillTalk/Pods/leveldb-library/db/version_set.cc:1064-1092 | The snapshot record alone makes such a builder save the version it was taken of, list by list. |
| `ManifestRecords.RecordedNext` | SkillTalk/Pods/leveldb-library/db/version_set.cc:777-860 | One more installed edit keeps the whole record of versions, pointers and numbers true. |
| `ManifestRecords.CrashedManifest` | SkillTalk/Pods/leveldb-library/db/version_set.cc:862-986 | Of a manifest cut off anywhere, recovery succeeds exactly if an edit after the snapshot is whole; the replayed records say the version after the last whole one, and its numbers are the latest. |
| `ManifestRecords.DecodedLevelsExist` | SkillTalk/Pods/leveldb-library/db/version_edit.cc:95-103 | A decoded edit speaks of real levels only. |
| `VersionSets.Builder.Apply` | SkillTalk/Pods/leveldb-library/db/version_set.cc:629-669 | The two loops have, on every level, the effect of the edit on the state of that level. |
| `VersionSets.Builder.SaveTo` | SkillTalk/Pods/leveldb-library/db/version_set.cc:672-715 | Every level is the merge of its base files and its state. |
| `VersionSets.VersionSet.LogAndApply` | SkillTalk/Pods/leveldb-library/db/version_set.cc:777-860 | Fills in the numbers, installs the version after the edit, starts a manifest with a snapshot if there is none, appends the record, and keeps the manifest able to tell every version since the snapshot. |
| `VersionSets.VersionSet.WriteSnapshot` | SkillTalk/Pods/leveldb-library/db/version_set.cc:1064-1092 | The first record of a manifest is the snapshot edit of the current version and the compaction pointers. |
| `VersionSets.VersionSet.Recover` | SkillTalk/Pods/leveldb-library/db/version_set.cc:862-986 | Succeeds exactly for a file that reads without a report, whose records all decode under this comparator, and that has a next file, log and last sequence number; then version, pointers and numbers are what the records say. |
| `VersionSets.Reopen` | SkillTalk/Pods/leveldb-library/db/version_set.cc:862-986 | A new set recovers, from any prefix of the file a running set wrote, the version after the last whole record, and from the whole file the current version, compaction pointers and log numbers; it can go on from there. |
| `DatabaseRecovery.KeptByNumber` | SkillTalk/Pods/leveldb-library/db/db_impl.cc:427-461 | Cutting the operations off behind a batch is cutting them off at a sequence number. |
| `DatabaseRecovery.MemtableShows` | SkillTalk/Pods/leveldb-library/db/db_impl.cc:427-461 | The memtable filled from replayed operations reads, for each key of bytes, as the last operation on it says. |
| `DatabaseRecovery.RecoverMemtable` | SkillTalk/Pods/leveldb-library/db/db_impl.cc:380-461 | Replaying any prefix of the log rebuilds the memtable that a crash step leaves: the recovered database is in good order and reads agree with the history up to the last whole batch. |
| `GroupCommit.NextKeepsInv` | SkillTalk/Pods/leveldb-library/db/db_impl.cc:1195-1266 | Each mutex-held stretch keeps the queue order, the groups, the numbering and the wake-ups. |
| `GroupCommit.RunKeepsInv` | SkillTalk/Pods/leveldb-library/db/db_impl.cc:1195-1266 | So does every interleaving of any number of writers; in particular a writer at the front is never left waiting unsignalled, and the temporary batch is empty between groups. |
| `GroupCommit.EachLeavesOnce` | SkillTalk/Pods/leveldb-library/db/db_impl.cc:1249-1258 | The writers that left are the first to arrive, each in exactly one group or alone, in order. |
| `GroupCommit.NumbersNeverReused` | SkillTalk/Pods/leveldb-library/db/db_impl.cc:1212-1246 | Groups take disjoint ascending ranges of sequence numbers, even when logging fails. |
| `GroupCommit.MemberNumbers` | SkillTalk/Pods/leveldb-library/db/write_batch.cc:132-148 | Inside its group a writer's batch takes consecutive numbers, behind those of the writers before it. |
| `GroupCommit.NoSyncRides` | SkillTalk/Pods/leveldb-library/db/db_impl.cc:1292-1295 | No sync write joins a group led by a write that does not sync. |
| `GroupCommit.GroupIsLongest` | SkillTalk/Pods/leveldb-library/db/db_impl.cc:1270-1316 | A group is as long as the rules allow: behind the leader, each request that is in may join, and the one where the group stops may not, because it syncs and the leader does not or because its batch makes the whole too large. |
| `GroupCommit.GroupWithinLimit` | SkillTalk/Pods/leveldb-library/db/db_impl.cc:1281-1287 | The bytes of a group are within the limit (128 KB more than a small first batch, else 1 MB) if and only if the first batch is within 1 MB; a larger first batch takes no other batch along. |
| `GroupCommit.BuildBatchGroup` | SkillTalk/Pods/leveldb-library/db/db_impl.cc:1270-1316 | Builds the longest group that the size and sync rules allow; its batch holds the members' operations in order, and no caller's batch is changed. |
| `GroupCommit.LeaveQueue` | SkillTalk/Pods/leveldb-library/db/db_impl.cc:1249-1263 | Exactly the group leaves, its followers are told they are done and how it went, and the new head is woken. |
| `BlockFormat.EntryRoundTrip` | SkillTalk/Pods/leveldb-library/table/block.cc:55-75 | An entry decodes to its three lengths and key delta, by the fast path or the slow one. |
| `BlockFormat.DecodeEntryMeans` | SkillTalk/Pods/leveldb-library/table/block.cc:55-75 | Any bytes are an entry exactly when they begin with three lengths and have the bytes that the last two announce, counted in 32 bits. |
| `BlockFormat.DecodeAt` | SkillTalk/Pods/leveldb-library/table/block.cc:225-252 | At the offset of an entry the decoder finds the entry, and previous key plus delta is its key. |
| `Block.BlockBuilder.Add` | SkillTalk/Pods/leveldb-library/table/block_builder.cc:71-105 | Adds one entry; a restart point comes after every `interval` entries, and every other entry drops all that its key shares with the key before it. |
| `Block.BlockBuilder.SharedLength` | SkillTalk/Pods/leveldb-library/table/block_builder.cc:77-83 | The longest common prefix of the last key and the new one. |
| `Block.BlockBuilder.Finish` | SkillTalk/Pods/leveldb-library/table/block_builder.cc:61-69 | The finished bytes are a block whose entries and restart points are those added. |
| `Block.FixedAt` | SkillTalk/Pods/leveldb-library/table/block.cc:100-103 | A restart point is found at its place in the restart array. |
| `BlockIterator.FinishedOpens` | SkillTalk/Pods/leveldb-library/table/block.cc:25-40 | Opening a finished block finds its restart array. |
| `BlockIterator.Iter.ParseNextKey` | SkillTalk/Pods/leveldb-library/table/block.cc:225-252 | Parsing yields the next pair that was added, or the end. |
| `BlockIterator.Iter.Next` | SkillTalk/Pods/leveldb-library/table/block.cc:138-141 | Moves to the next pair that was added. |
| `BlockIterator.Iter.Prev` | SkillTalk/Pods/leveldb-library/table/block.cc:143-162 | Moves to the previous pair, rescanning from a restart point, or becomes invalid at the first. |
| `BlockIterator.Iter.SeekToFirst` | SkillTalk/Pods/leveldb-library/table/block.cc:204-207 | Moves to the first pair, if there is one. |
| `BlockIterator.Iter.SeekToLast` | SkillTalk/Pods/leveldb-library/table/block.cc:209-214 | Moves to the last pair, if there is one. |
| `BlockIterator.Iter.FindRestart` | SkillTalk/Pods/leveldb-library/table/block.cc:167-190 | The binary search ends at a restart point below which every key is below the target. |
| `BlockIterator.Iter.Seek` | SkillTalk/Pods/leveldb-library/table/block.cc:164-202 | Lands on the first pair whose key is at or after the target. |
| `TableFormat.HandleRoundTrip` | SkillTalk/Pods/leveldb-library/table/format.cc:15-29 | A block handle decodes from its two varints, leaving the rest. |
| `TableFormat.FooterRoundTrip` | SkillTalk/Pods/leveldb-library/table/format.cc:31-62 | The footer decodes to its two handles, padding and magic number included. |
| `TableFormat.ReadsStored` | SkillTalk/Pods/leveldb-library/table/format.cc:64-138 | Reading a block that was written gives its contents, with or without checking the checksum. |
| `TableFormat.ReadBlockMeans` | SkillTalk/Pods/leveldb-library/table/format.cc:64-138 | Of any file, ReadBlock gives the bytes of a block exactly when they are all there, stored uncompressed and, if asked for, under a matching checksum. |
| `TableFormat.FooterMeans` | SkillTalk/Pods/leveldb-library/table/format.cc:42-62 | Any 48 bytes are a footer exactly when they begin with two handles and end with the magic number. |
| `FilterBlock.FilterBlockBuilder.StartBlock` | SkillTalk/Pods/leveldb-library/table/filter_block.cc:21-27 | Makes filters up to the one for this offset and moves no key to another filter. |
| `FilterBlock.FilterBlockBuilder.Finish` | SkillTalk/Pods/leveldb-library/table/filter_block.cc:35-49 | The finished bytes are the filters, their offsets, the array offset and the base. |
| `FilterBlock.ReadsItsFilter` | SkillTalk/Pods/leveldb-library/table/filter_block.cc:79-104 | Through the finished bytes, a lookup for a block offset consults exactly the filter of the keys added for that offset. |
| `FilterBlock.OnlyFiltersTurnAway` | SkillTalk/Pods/leveldb-library/table/filter_block.cc:79-104 | Whatever the contents, a lookup is turned away only by an empty filter or by one that does not match; anything that makes no sense lets it through. |
| `Bloom.New` | SkillTalk/Pods/leveldb-library/util/bloom.cc:20-26 | The number of probes is 0.69 times the bits per key, rounded down, as far as that is between 1 and 30. |
| `Bloom.Policy.CreateFilter` | SkillTalk/Pods/leveldb-library/util/bloom.cc:28-54 | The loops append the bit array of all probes of all keys, and the number of probes. |
| `Bloom.Policy.KeyMayMatch` | SkillTalk/Pods/leveldb-library/util/bloom.cc:56-80 | The probe loop decides whether every probe of the key finds its bit set. |
| `Bloom.Policy.MatchesExactly` | SkillTalk/Pods/leveldb-library/util/bloom.cc:28-81 | A key passes a filter if and only if each of its probes is a probe of some key of the filter. |
| `Bloom.Policy.EveryKeyMatches` | SkillTalk/Pods/leveldb-library/util/bloom.cc:28-81 | No key of a filter is ever turned away. |
| `FilterPolicies.InternalNeverHides` | SkillTalk/Pods/leveldb-library/db/dbformat.cc:101-115 | The filter on user keys lets every lookup pass whose user key it was made with, also for a reader whose policy has other parameters and the same hash. |
| `TableBuilding.TableBuilder.Add` | SkillTalk/Pods/leveldb-library/table/table_builder.cc:94-123 | The entry joins the table; the data block goes to the file exactly when it has reached the block size; all promises on data blocks, index, filter and sizes are kept. |
| `TableBuilding.TableBuilder.Flush` | SkillTalk/Pods/leveldb-library/table/table_builder.cc:125-139 | The pending data block goes to the file and awaits its index entry. |
| `TableBuilding.TableBuilder.Finish` | SkillTalk/Pods/leveldb-library/table/table_builder.cc:198-253 | The finished file is a table of exactly the added entries: data blocks, filter, metaindex, index and footer in place. |
| `TableLayout.IndexLeadsToBlock` | SkillTalk/Pods/leveldb-library/table/table_builder.cc:94-123 | The index entry that a lookup finds belongs to the block of the first entry at or after the key, or to the block before if that entry has another user key. |
| `TableLayout.BeyondTheIndex` | SkillTalk/Pods/leveldb-library/table/table_builder.cc:207-253 | A key beyond every index key is beyond every entry. |
| `Table.Open` | SkillTalk/Pods/leveldb-library/table/table.cc:38-80 | A finished table opens, with its index block, and its filter if reader and writer name the same policy. |
| `Table.ReadMeta` | SkillTalk/Pods/leveldb-library/table/table.cc:82-132 | The filter is found through the metaindex exactly when the policy names agree. |
| `Table.InternalGet` | SkillTalk/Pods/leveldb-library/table/table.cc:214-242 | Hands on the first entry at or after the key, and misses it only when it has another user key. |
| `Table.ApproximateOffsetOf` | SkillTalk/Pods/leveldb-library/table/table.cc:244-270 | Where the block with the first entry at or after the key begins, or the block that ends just before it; past the last entry the end of the data. |
| `TableFiles.SeeksAlike` | SkillTalk/Pods/leveldb-library/db/dbformat.cc:47-63 | Seeking among stored keys leads to the same entry as seeking in the model. |
| `TableFiles.HitsAlike` | SkillTalk/Pods/leveldb-library/db/version_set.cc:262-275 | What a table answers for a user key and snapshot is what its file answers in the model of the database. |
| `TableFiles.BuildTable` | SkillTalk/Pods/leveldb-library/db/builder.cc:17-77 | All entries go, in order, into a finished table; smallest and largest key are those of the first and last entry. |
| `TableFiles.Get` | SkillTalk/Pods/leveldb-library/db/table_cache.cc:100-112 | A lookup in a table of the database returns the first entry of the user key at or below the sequence number whenever there is one, with the Bloom filter in use or not. |
| `TableFiles.BuildAndGet` | SkillTalk/Pods/leveldb-library/db/builder.cc:17-77 | From the entries through building, opening and looking up to the answer of the model. |
| `HandleTables.HandleTable.Lookup` | SkillTalk/Pods/leveldb-library/util/cache.cc:75-77 | Finds the handle with the key and hash, and none exactly when there is none. |
| `HandleTables.HandleTable.Insert` | SkillTalk/Pods/leveldb-library/util/cache.cc:79-93 | The handle joins; the one with the same key and hash, if any, is replaced and returned. |
| `HandleTables.HandleTable.Remove` | SkillTalk/Pods/leveldb-library/util/cache.cc:95-103 | The handle with the key and hash leaves, and there is none exactly when none is returned. |
| `HandleTables.HandleTable.Resize` | SkillTalk/Pods/leveldb-library/util/cache.cc:123-147 | Relinking all chains into a table of enough buckets loses no handle. |
| `LruLists.UnlinkRing` | SkillTalk/Pods/leveldb-library/util/cache.cc:240-243 | Two stores take a handle out of a circular list and keep the order of the others. |
| `LruLists.AppendRing` | SkillTalk/Pods/leveldb-library/util/cache.cc:245-251 | Four stores put a handle at the newest end of a circular list. |
| `CacheStates.RefKeeps` | SkillTalk/Pods/leveldb-library/util/cache.cc:218-224 | Taking a reference keeps counts, lists and usage right; the first client moves the handle from the LRU list, whose order stays, to the in-use list. |
| `CacheStates.UnrefKeeps` | SkillTalk/Pods/leveldb-library/util/cache.cc:226-238 | So does giving one back; the last client moves it to the newest end of the LRU list, the last reference deletes it once. |
| `LruCaches.LRUCache.Insert` | SkillTalk/Pods/leveldb-library/util/cache.cc:267-304 | The new handle is held by its caller and, with capacity, cached in place of the old one; then unused handles leave, no more than the capacity asks for, and each of them was last released before every handle that stays. |
| `LruCaches.LRUCache.Lookup` | SkillTalk/Pods/leveldb-library/util/cache.cc:253-260 | Returns the cached handle of the key with one more client, or nothing exactly when there is none; the order of the other unused handles stays. |
| `LruCaches.LRUCache.Release` | SkillTalk/Pods/leveldb-library/util/cache.cc:262-265 | One client fewer; the last one puts a cached handle at the newest end of the unused ones, which stay in the order of their last releases; the value is deleted exactly when no client is left and the handle is not cached. |
| `LruCaches.LRUCache.Erase` | SkillTalk/Pods/leveldb-library/util/cache.cc:319-322 | The handle of the key leaves the cache, and is deleted now or when its last client lets go. |
| `LruCaches.LRUCache.Prune` | SkillTalk/Pods/leveldb-library/util/cache.cc:324-333 | Every handle without a client leaves, oldest first, and is deleted once. |
| `LruCaches.LRUCache.HeldIsAlive` | SkillTalk/Pods/leveldb-library/util/cache.cc:226-238 | A handle with a client has not been deleted. |
| `PbVarint.WriteVarint` | SkillTalk/Pods/nanopb/pb_encode.c:608-628 | The buffer loop writes the seven-bits-at-a-time encoding. |
| `PbVarint.PbVarint32RoundTrip` | SkillTalk/Pods/nanopb/pb_decode.c:187-252 | Every 32-bit value decodes from its varint, leaving the rest. |
| `PbVarint.PbVarint32Means` | SkillTalk/Pods/nanopb/pb_decode.c:187-252 | The 32-bit decoder leaves what follows the varint and gives its value modulo 2^32; it takes every varint whose value fits, of any length, and nothing that does not end. |
| `PbVarint.ZigZagRoundTrip` | SkillTalk/Pods/nanopb/pb_encode.c:630-639 | Zigzag encoding is undone by its decoding, for every signed value, in 64 bits. |
| `PbRoundTrip.ValueRoundTrip` | SkillTalk/Pods/nanopb/pb_decode.c:1334-1571 | A field value of any type, nested messages included, decodes to what was encoded, leaving the rest. |
| `PbRoundTrip.MessageRoundTrip` | SkillTalk/Pods/nanopb/pb_decode.c:934-1082 | A message decodes to itself from its fields in order, with every required field marked as seen. |
| `PbRoundTrip.EncodeDecode` | SkillTalk/Pods/nanopb/pb_decode.c:1084-1096 | For every schema and every message that fits it, decoding the encoding gives the message, as long as nested lengths fit 32 bits. |
| `PbRecords.SkipMeans` | SkillTalk/Pods/nanopb/pb_decode.c:290-331 | Skipping a payload takes exactly 8 bytes, 4 bytes, a varint, or a length and that many bytes away, by its wire type. |
| `PbRecords.SkipTakes` | SkillTalk/Pods/nanopb/pb_decode.c:290-331 | And it fails when there is no such payload. |
| `PbRecords.SkipsWhatItDecodes` | SkillTalk/Pods/nanopb/pb_encode.c:675-706 | The wire type a field is written with says how far its value goes: skipping it leaves what decoding the value leaves. |
| `PbRecords.DecodeMeans` | SkillTalk/Pods/nanopb/pb_decode.c:934-1082 | Decoding gives a message exactly when the stream is a list of records (tag, wire type, payload) each of which decodes by itself, with one for each of the first 64 required fields; the message is what the records make of it, in order. |
| `PbRecords.RecordsUnique` | SkillTalk/Pods/nanopb/pb_decode.c:934-1037 | A stream is a list of records in at most one way. |
| `PbRecords.EffectsLeave` | SkillTalk/Pods/nanopb/pb_decode.c:966-1030 | A slot changes only through records of its own field or its oneof; a record with an unknown tag changes nothing. |
| `PbRecords.UnsignedMeans` | SkillTalk/Pods/nanopb/pb_decode.c:1382-1404 | An unsigned field takes the low 64 bits of the varint, and refuses what its type cannot hold. |
| `PbRecords.SignedMeans` | SkillTalk/Pods/nanopb/pb_decode.c:1345-1380 | An integer field takes the number that the low 64 bits of the varint stand for, the low 32 for the narrower types, and refuses what its type cannot hold. |
| `PbFits.DecodedFits` | SkillTalk/Pods/nanopb/pb_decode.c:1084-1096 | Whatever the bytes, a decoded message fits its schema, nested messages included: numbers in range, lengths and counts within bounds, at most one member of a oneof. |
| `PbFits.NoinitFits` | SkillTalk/Pods/nanopb/pb_decode.c:934-1082 | Decoding into a message that fits its schema leaves one that fits. |
| `PbEncoder.EncodePackedArray` | SkillTalk/Pods/nanopb/pb_encode.c:147-235 | A packed array is its tag, the length of its items, and the items; on a sizing stream only counted. |
| `PbEncoder.EncodeTaggedArray` | SkillTalk/Pods/nanopb/pb_encode.c:147-235 | An array that is not packed is each item with its tag, and fails exactly if an item does not fit or the room ends. |
| `PbEncoder.EncodeSubmessage` | SkillTalk/Pods/nanopb/pb_encode.c:717-765 | The sizing pass and the writing pass agree: length and message are written whole, or the call fails for a message that does not fit or a stream without the room. |
| `PbEncoder.PbEncode` | SkillTalk/Pods/nanopb/pb_encode.c:528-550 | The stream gets exactly the encoding of the message if there is room for it, a part of it and a failure otherwise, and a failure for a message that does not fit its types. |
| `PbEncoder.GetEncodedSize` | SkillTalk/Pods/nanopb/pb_encode.c:567-578 | The size of exactly the bytes a writing stream gets. |
| `PbDecodeLoop.FieldIter.FindTag` | SkillTalk/Pods/nanopb/pb_common.c:87-104 | One round from any position finds the field with the tag, or none exactly when there is none; an empty array finds its terminator under tag 0. |
| `PbDecodeLoop.CheckRequired` | SkillTalk/Pods/nanopb/pb_decode.c:1039-1079 | Whole words and remaining bits together test that each of the first 64 required fields was seen. |
| `PbDecodeLoop.PbDecodeNoinit` | SkillTalk/Pods/nanopb/pb_decode.c:934-1082 | The loop with cyclic field search and bit mask decides every input as PbRecords.DecodeMeans says: the message that the records of the stream make, if each decodes and the required fields are there, and otherwise an error. |
| `PbCodec.EncodeAndDecode` | SkillTalk/Pods/nanopb/pb_decode.c:1084-1096 | A message goes into a buffer exactly if it fits its types and the buffer, and what is decoded from the buffer is the message. |

## Left out

- The Swift application, its networking and image stubs: user interface and service plumbing.
- The POSIX environment, loggers, file naming, the C bindings, options and status text: I/O and wrappers.
- Snappy and the hardware CRC: foreign code; blocks are uncompressed and the portable path is used.
- I/O errors, shutdown and corrupt keys: a step either happens or it does not (a failed log write of a group is
  modelled, because its sequence numbers are used up).
- Flushing a memtable in the middle of a compaction (db/db_impl.cc:918-928): a compaction is one atomic step.
- Compaction scoring, seek statistics, read sampling and write throttling: they choose when and where to compact,
  and the model allows any choice.
- Forced writes without a batch: they queue and leave like any writer, but nothing is claimed about the compaction
  they ask for.
- C++ weak memory ordering: each pointer load and store is one atomic step.
- A crash that loses the end of an older log but not of a newer one, which only unsynced writes can suffer: a crash
  cuts one point in the order of writes.
- db/repair.cc: it makes no clean guarantee.
- Corrupt table files, the block cache in table reads, and table iterators over files: lookups are proved on files
  that the table builder finished. Of other files only footers and `ReadBlock` are decided.
- The sharding of the cache by the upper bits of the hash (util/cache.cc:339-400): one shard is modelled.
- nanopb callback, pointer and extension fields, fixed-count arrays and the implicit presence of proto3: the fields are
  the static ones. What a failed decode leaves behind, the contents of absent fields, the wrap-around of the shift in
  overlong varints and sizes beyond 32 bits in memory are not described; a string is its bytes before the terminator.
- Database.DBImpl.Write: one batch at a time. Queueing and grouping (db/db_impl.cc:1195-1268) are `GroupCommit`, which
  shows that a group is one batch with the members' operations in order and consecutive numbers.
- Database.DBImpl.ReleaseSnapshot: the circular links of the snapshot list are not modelled; it is a sequence, oldest
  first, and the caller names the place.
- CompactionWork.DoCompactionWork: which files `ShouldStopBefore` cut short is not told by the outputs.
- Log.Reader.ReadRecord: reading from an initial offset above zero, with its resynchronisation, is not modelled;
  recovery always reads from zero. The sizes passed to the corruption reporter are not modelled, only the reports.
- Log.Reader.ReadPhysicalRecord: skipping records before an initial offset is not modelled, for the same reason.
- Recovery.RecoverLogFile: writing level-0 tables in the middle of the replay and reusing the last log are not
  modelled; the operations are returned as one list, which `DatabaseRecovery` puts into one memtable.
- Recovery.CutLogReplays: the batches have fewer than 2^31 operations, the range of their count.
- DatabaseRecovery.RecoverMemtable: one log file. With an immutable memtable the code replays two, one after the other.
- VersionSets.VersionSet.LogAndApply: every write of the manifest succeeds; the choice of the next compaction
  (`Finalize`) is left out.
- VersionSets.VersionSet.Recover: the CURRENT file and reusing an old manifest are left out; the caller passes the bytes of
  the manifest.
- VersionEdits.EditRoundTrip: levels are real ones and keys of files and pointers are not empty, which decoding demands.
- MergingIterator: assumes that the children share no key, since equal keys are skipped on a change of direction
  (table/merger.cc:63-75); `DatabaseIterator.SourcesSound` proves it of the sources of a database.
- BlockIterator.Iter.Seek: only blocks produced by the builder are considered, not corrupt ones.
- Block.BlockBuilder.Add: requires the block to stay below 4 GB, the width of its offsets.
- TableFiles.BuildTable: requires the keys and values of one table, with their overhead, to stay below 1 GB, so that every
  32-bit offset in it fits.
