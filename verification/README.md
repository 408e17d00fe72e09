# A verified model of a LevelDB 1.18 fork

The repository's storage engine (`LevelDBLib/jni/leveldb`) keeps multi-version entries in a log, a
memtable and sorted table files. This project models its algorithms in Dafny and proves that they
mean what the engine is for. `dafny verify dfyconfig.toml` checks it.

Everything is tied to one definition. `Entries` says what an entry `(user key, sequence, type,
value)` is, how entries are ordered, and what a read of a key at a snapshot yields: the newest
entry at or below the snapshot, with deletions erased. The components follow.

| modules | part of the engine | main result |
|---|---|---|
| `Entries`, `Compaction`, `Snapshots` | the drop loop of a compaction, its base-level cursors, the snapshot list | `CompactionPreservesReads`: no read at a live snapshot can tell; `KeptExactly`: nothing is kept in vain |
| `Cursors`, `DBIterator`, `Merger`, `TwoLevel`, `BlockIterator` | the iterators | each is one cursor over one sequence, under every mix of moves and direction switches |
| `SkipLists`, `ConcurrentSkipList`, `MemTables` | the skip list on the heap, the same as loads and stores of one inserter and any readers, and the memtable over it | `SearchesAreLinearizable`, `ScansAreComplete`, `MemTable.Get` |
| `GroupCommit`, `WriteOutcomes`, `WriterQueue` | the writer queue of `Write` as a state machine, and its sleeping and waking as another that refines it | `AcknowledgedBatch`, `ToldExactly`, `SnapshotsAreAtomic`, `NoNumberIsReused`, `NoLostWakeup` in every interleaving |
| `Coding`, `Crc32c`, `Log`, `LogFailures`, `LogReports`, `WriteBatches`, `Recovery`, `Durability` | the write-ahead log, failed appends to it, and its replay | `CrashPrefix`, `CorruptionIsReported`, `AppendingIsSafe`, `RecoveryReplaysTheRun`, `SyncedWriteSurvives` with `LosingRun` |
| `ByteStrings`, `InternalKeys`, `Blocks`, `Filters`, `Blooms`, `Tables`, `TableReading`, `TableBuilding` | table files | `BuildThenLookup`: a table reads as the entries written, over the bytes of the file |
| `HandleTables`, `Caches` | the LRU cache | reference counts, charges and the deleter over all operations |
| `Overlaps`, `VersionEdits`, `Versions`, `LevelSearch`, `FileReuse`, `Manifest` | level-0 overlap, the edit codec, the version builder and the search of its levels, manifest replay | `ClosureIsChains`, `ManifestReplays`, `ManifestNumbers`, `ReplayAgreesExactly` |

Code that changes things step by step is modelled by classes, arrays and loops, and each method is
proved against a function of its inputs or of the old state; the theorems are about those
functions. The concurrent parts are state machines whose theorems hold for every run. Where the
source parses bytes (log reader, write batch, version edit, varints, filter block), the
method is proved equal to a total parsing function on all inputs, errors included, and the round
trips are about that function.

The theorems compose: recovery uses the group-commit runs, the log and the batch codec; table
lookup uses block layout, separators, filters and the entry order; manifest replay uses the log,
the edit codec and the builder; the memtable uses the skip list on the heap.

Notes on the code itself:

- `FilterBlockReader::KeyMayMatch` says that empty filters match no key, but an empty range inside
  the filter data goes to the policy first (line 101); the model does what the code does. The
  Bloom policy answers no for it.
- `VersionEdit::Clear` does not clear `compact_pointers_`, so decoding into a used edit adds to
  them; the model keeps this.
- A file number deleted by one edit and added again by a later one revives the older file in a
  builder fed both (`Versions.NumbersMustBeFresh`). Deleted and added again in one edit, the
  number is not marked deleted at all; if the smallest key is the same too, the builder keeps the
  older file and drops the newer one (`FileReuse.RewrittenFileIsLost`). This fork gives every table
  the number `FILENUMBER_LDB` (`db/db_impl.cpp:541`, `db/db_impl.cpp:843`), so both can happen.
  `ManifestReplays` has fresh numbers as a hypothesis; `FileReuse.ReplayAgreesExactly` has none.
- `EmitPhysicalRecord` advances `block_offset_` also when an append fails, `AddRecord` does not
  look at the status of the trailer it writes, and `Write` goes on using the log file after a
  failed append. A later record can then lie where the reader takes it for the rest of the
  failed one. An acknowledged, synced batch can be lost so (`Durability.LosingRun`);
  `LogFailures.AppendingIsSafe` says just when a log file may be appended to.
- After a failed append `Write` still advances `LastSequence`, so numbers can have gaps;
  `RunContiguous` is therefore about runs without failures, `NoNumberIsReused` about all runs.

## Model

A method row states what its postconditions promise. Paths are relative to the repository.

| member | source | states |
|---|---|---|
| `Entries.NewestExists` | LevelDBLib/jni/leveldb/db/db_iter.cpp:34-40 | a set of entries with any version of a key at or below a snapshot has a newest one; a read yields it unless it is a deletion |
| `Entries.VersionOrder` | LevelDBLib/jni/leveldb/db/dbformat.cpp:50-66 | in internal-key order the versions of one user key come newest first, and only then |
| `Compaction.CompactionPreservesReads` | LevelDBLib/jni/leveldb/db/db_impl.cpp:946-1055 | for every sorted input, every deeper set of entries whose keys lie in deeper file ranges, every key and every snapshot not below the smallest live one: a read over the kept entries and the deeper ones yields a value iff a read over all entries and the deeper ones does |
| `Compaction.DroppedNewest` | LevelDBLib/jni/leveldb/db/db_impl.cpp:1002-1016 | if the newest visible entry is dropped it is a deletion, and after the compaction no visible entry of the key is left at any level |
| `Compaction.KeptSorted` | LevelDBLib/jni/leveldb/db/db_impl.cpp:1030-1052 | the output stream is again strictly sorted |
| `Compaction.KeptMembers` | LevelDBLib/jni/leveldb/db/db_impl.cpp:1002-1016 | exactly the input entries that the two dropping rules spare are kept |
| `Compaction.KeptExactly` | LevelDBLib/jni/leveldb/db/db_impl.cpp:1002-1016 | an entry is kept if and only if some snapshot from the smallest live one on has it as the newest of its key, and it is not a deletion all of them see with no deeper file on its key: nothing more is kept and nothing less |
| `Compaction.DoCompactionWork` | LevelDBLib/jni/leveldb/db/db_impl.cpp:933-1092 | the loop with its current_user_key and last_sequence_for_key state writes exactly the entries that the declarative rules keep, in order, whatever cuts end the output files; each file has its first and last entry as bounds; a smallest snapshot of 2^56 - 1, the sentinel of the loop, keeps nothing |
| `Compaction.HiddenByPredecessor` | LevelDBLib/jni/leveldb/db/db_impl.cpp:992-1018 | an entry is shadowed by some newer version old enough for every snapshot iff its immediate predecessor is such a version: the one-variable state of the loop suffices |
| `Compaction.Compaction.IsBaseLevelForKey` | LevelDBLib/jni/leveldb/db/version_set.cpp:1465-1484 | asked with non-decreasing keys, the monotone per-level cursors answer true iff no file of any deeper level covers the key |
| `Compaction.Compaction.SearchLevel` | LevelDBLib/jni/leveldb/db/version_set.cpp:1468-1481 | one level: the answer is whether any file of it covers the key, and the cursor stays valid for every later key |
| `Compaction.PtrDecides` | LevelDBLib/jni/leveldb/db/version_set.cpp:1470-1480 | the one file the cursor stops at decides for the whole level |
| `Snapshots.SnapshotList.New` | LevelDBLib/jni/leveldb/db/snapshot.h:42-51 | the relinking appends the new snapshot to the list of live ones; links in both directions and order by number are kept |
| `Snapshots.SnapshotList.Delete` | LevelDBLib/jni/leveldb/db/snapshot.h:53-58 | the relinking removes just that snapshot, whatever its place |
| `Snapshots.SnapshotList.Oldest` | LevelDBLib/jni/leveldb/db/snapshot.h:39-39 | the head's successor is a live snapshot with the least number |
| `Snapshots.SnapshotList.SmallestSnapshot` | LevelDBLib/jni/leveldb/db/db_impl.cpp:946-950 | the bound given to the compaction is at most every live snapshot and the current sequence number, and is one of them |
| `DBIterator.ViewIsReads` | LevelDBLib/jni/leveldb/db/db_iter.cpp:34-40 | the cursor's sequence, the newest visible non-deleted entry of each key in key order, holds exactly what reads at the snapshot yield |
| `DBIterator.DBIter.Next` | LevelDBLib/jni/leveldb/db/db_iter.cpp:146-171 | moves the position in the view by one, in either direction mode; past the end it is invalid |
| `DBIterator.DBIter.Prev` | LevelDBLib/jni/leveldb/db/db_iter.cpp:205-230 | moves the position in the view back by one, so Prev after a Next that stays valid returns to the same key |
| `DBIterator.DBIter.FindNextUserEntry` | LevelDBLib/jni/leveldb/db/db_iter.cpp:173-203 | finds the first yielding entry from the internal position on, beyond a key that is to be skipped |
| `DBIterator.DBIter.FindPrevUserEntry` | LevelDBLib/jni/leveldb/db/db_iter.cpp:232-272 | finds the last yielding entry at or before the internal position, with its key and value saved, or turns invalid |
| `DBIterator.DBIter.Seek` | LevelDBLib/jni/leveldb/db/db_iter.cpp:274-286 | lands at the first view key not below the target |
| `DBIterator.DBIter.SeekToFirst` | LevelDBLib/jni/leveldb/db/db_iter.cpp:288-297 | lands at position 0 of the view |
| `DBIterator.DBIter.SeekToLast` | LevelDBLib/jni/leveldb/db/db_iter.cpp:299-304 | lands at the last position of the view |
| `DBIterator.ScanTakes` | LevelDBLib/jni/leveldb/db/db_iter.cpp:239-262 | one backward step of the scan keeps: only the last visible entry met can be the one the view shows |
| `Merger.MergeAllIsUnion` | LevelDBLib/jni/leveldb/table/merger.cpp:16-25 | sorted lists with pairwise distinct keys have a sorted union that contains each item and nothing else |
| `Merger.SmallestIsNext` | LevelDBLib/jni/leveldb/table/merger.cpp:155-168 | children that all stand at their first item from all[q] on: the least of them is all[q], and none is left iff q is the end |
| `Merger.LargestIsPrev` | LevelDBLib/jni/leveldb/table/merger.cpp:170-183 | the mirror image for backward moves |
| `Merger.MergingIterator.constructor` | LevelDBLib/jni/leveldb/table/merger.cpp:16-25 | over any sorted children with pairwise distinct keys the iterator starts invalid, standing for one cursor over their union |
| `Merger.MergingIterator.Next` | LevelDBLib/jni/leveldb/table/merger.cpp:59-83 | one position forward in the union, after re-seeking every other child past the current key when the direction was reverse |
| `Merger.MergingIterator.Prev` | LevelDBLib/jni/leveldb/table/merger.cpp:85-112 | one position back in the union, after re-seeking every other child before the current key when the direction was forward |
| `Merger.MergingIterator.FaceForward` | LevelDBLib/jni/leveldb/table/merger.cpp:66-79 | after the direction switch every other child stands just past the current key |
| `Merger.MergingIterator.FaceReverse` | LevelDBLib/jni/leveldb/table/merger.cpp:92-108 | after the direction switch every other child stands just before the current key |
| `Merger.MergingIterator.Seek` | LevelDBLib/jni/leveldb/table/merger.cpp:51-57 | lands at the first item of the union not below the target |
| `Merger.MergingIterator.SeekToFirst` | LevelDBLib/jni/leveldb/table/merger.cpp:35-41 | lands at position 0 of the union |
| `Merger.MergingIterator.SeekToLast` | LevelDBLib/jni/leveldb/table/merger.cpp:43-49 | lands at the last position of the union |
| `Merger.MergingIterator.FindSmallest` | LevelDBLib/jni/leveldb/table/merger.cpp:155-168 | current_ is a valid child with the least key, NULL iff no child is valid |
| `Merger.MergingIterator.FindLargest` | LevelDBLib/jni/leveldb/table/merger.cpp:170-183 | current_ is a valid child with the greatest key, NULL iff no child is valid |
| `ConcurrentSkipList.SearchesAreLinearizable` | LevelDBLib/jni/leveldb/db/skiplist.h:261-281 | in every interleaving of one inserter's stores with any readers' loads, a finished search (first not below a key, last before a key, or last) answers for exactly the level-0 list at its last load, which holds every node of the list at the step the search began with |
| `ConcurrentSkipList.ScansAreComplete` | LevelDBLib/jni/leveldb/db/skiplist.h:207-232 | in every interleaving, a scan with Next from the first node or from one sought yields, in key order and each once, only nodes of the list at its last load, and every node from its first key on that was in the list at the step it began with |
| `ConcurrentSkipList.PublishedIsFound` | LevelDBLib/jni/leveldb/db/skiplist.h:364-380 | once a node is linked at level 0, every search for its key that begins later finds that node |
| `ConcurrentSkipList.ReaderMoves` | LevelDBLib/jni/leveldb/db/skiplist.h:261-322 | a reader that is not done can always take its next load, whatever the inserter does |
| `ConcurrentSkipList.WriterMoves` | LevelDBLib/jni/leveldb/db/skiplist.h:336-370 | the inserter can always take its next load or store, whatever the readers do |
| `ConcurrentSkipList.StepKeeps` | LevelDBLib/jni/leveldb/db/skiplist.h:336-370 | every single load or store keeps the invariant of all levels, the inserter and all readers; the level-0 list only grows |
| `ConcurrentSkipList.RunInv` | LevelDBLib/jni/leveldb/db/skiplist.h:336-370 | so every reachable state has the invariant |
| `ConcurrentSkipList.LoadsAreOfStoredLinks` | LevelDBLib/jni/leveldb/db/skiplist.h:22-26 | no search, no scan and not the inserter ever loads a link that was not stored |
| `ConcurrentSkipList.LevelsNest` | LevelDBLib/jni/leveldb/db/skiplist.h:352-369 | at every moment each level is a sublist of the one below, linked in key order |
| `SkipLists.SkipList.Insert` | LevelDBLib/jni/leveldb/db/skiplist.h:336-370 | on the heap, for any height 1 to 12: the key set gains the key, every level links each node to its nearest later node of that level |
| `SkipLists.SkipList.FindGreaterOrEqual` | LevelDBLib/jni/leveldb/db/skiplist.h:261-281 | returns the earliest node not before the key, and its predecessor on every level in use |
| `SkipLists.SkipList.FindLessThan` | LevelDBLib/jni/leveldb/db/skiplist.h:283-302 | returns the latest node before the key, the head if there is none |
| `SkipLists.SkipList.FindLast` | LevelDBLib/jni/leveldb/db/skiplist.h:304-322 | returns the last node, the head of an empty list |
| `SkipLists.SkipList.Contains` | LevelDBLib/jni/leveldb/db/skiplist.h:372-380 | true iff the key is in the list |
| `SkipLists.SkipList.Splice` | LevelDBLib/jni/leveldb/db/skiplist.h:364-369 | splicing a node behind its predecessor keeps nearest-neighbour links on that level for every node |
| `SkipLists.Iterator.Next` | LevelDBLib/jni/leveldb/db/skiplist.h:207-211 | moves to the nearest later node |
| `SkipLists.Iterator.Prev` | LevelDBLib/jni/leveldb/db/skiplist.h:213-222 | moves to the nearest earlier node by searching again |
| `SkipLists.Iterator.Seek` | LevelDBLib/jni/leveldb/db/skiplist.h:224-227 | lands at the earliest node not before the key |
| `GroupCommit.StepKeeps` | LevelDBLib/jni/leveldb/db/db_impl.cpp:1245-1322 | every step of every thread keeps the invariant of queue, log, memtable, sequence numbers, acknowledgements and snapshots |
| `GroupCommit.RunInv` | LevelDBLib/jni/leveldb/db/db_impl.cpp:1245-1322 | so every reachable state has it |
| `GroupCommit.OnlyTheFrontWorks` | LevelDBLib/jni/leveldb/db/db_impl.cpp:1257-1276 | in every reachable state of the group machine a writer past its wait loop and not yet back is the front of the queue; how sleeping and waking bring this about is the subject of WriterQueue |
| `GroupCommit.AcknowledgedBatch` | LevelDBLib/jni/leveldb/db/db_impl.cpp:1268-1321 | a batch acknowledged OK is in exactly one log record, inserted in the memtable under consecutive numbers at its place in the group, and covered by a successful sync after its record if it asked for one |
| `GroupCommit.LoggedInQueueOrder` | LevelDBLib/jni/leveldb/db/db_impl.cpp:1269-1289 | records hold whole runs of queued batches, in queue order, no batch twice; the memtable is the log's operations in order, the last record's perhaps only in part |
| `GroupCommit.NoNumberIsReused` | LevelDBLib/jni/leveldb/db/db_impl.cpp:1266-1301 | sequence numbers in the memtable strictly ascend, record ranges never overlap, also after failed appends and syncs |
| `GroupCommit.SnapshotsAreAtomic` | LevelDBLib/jni/leveldb/db/db_impl.cpp:1290-1302 | a reader at any LastSequence ever observed sees all or none of the operations of each record, hence of each batch |
| `GroupCommit.RunContiguous` | LevelDBLib/jni/leveldb/db/db_impl.cpp:1266-1301 | when no append or sync fails, record by record the numbers run on from 1 without a gap and LastSequence is the last one published |
| `GroupCommit.BuildBatchGroup` | LevelDBLib/jni/leveldb/db/db_impl.cpp:1326-1371 | the loop computes the longest joinable run of writers under the size and sync rules, and the concatenation of their batches |
| `GroupCommit.BatchInGroup` | LevelDBLib/jni/leveldb/db/db_impl.cpp:1349-1369 | each batch sits in its group right after the batches before it |
| `WriteOutcomes.ToldExactly` | LevelDBLib/jni/leveldb/db/db_impl.cpp:1260-1321 | in every run a writer that has returned was told of a failure if and only if making room, the append or the sync failed for its group |
| `WriteOutcomes.AllOk` | LevelDBLib/jni/leveldb/db/db_impl.cpp:1304-1321 | in a run without such failures every writer is told OK |
| `WriteOutcomes.NothingAfterFailedSync` | LevelDBLib/jni/leveldb/db/db_impl.cpp:1281-1296 | once a sync has failed nothing is logged any more, and neither its group nor any later writer is told OK |
| `WriteOutcomes.NumbersHandedOnce` | LevelDBLib/jni/leveldb/db/db_impl.cpp:1266-1301 | numbers handed to one group are never handed to a later one, also when its append or sync failed |
| `WriteOutcomes.ReadersSeeWholeRecords` | LevelDBLib/jni/leveldb/db/db_impl.cpp:1290-1302 | whatever sequence number a reader takes shows it, then and ever after, all or none of the operations of each record |
| `WriteOutcomes.FrontMayGoOn` | LevelDBLib/jni/leveldb/db/db_impl.cpp:1257-1314 | in every reachable state the front writer can go on without a failure, unless it makes room under a background error |
| `WriteOutcomes.FrontMayFail` | LevelDBLib/jni/leveldb/db/db_impl.cpp:1265-1286 | in every reachable state making room, the append and the sync may each fail |
| `WriteOutcomes.GroupIsSmall` | LevelDBLib/jni/leveldb/db/db_impl.cpp:1332-1352 | followers add at most 131072 bytes to a first batch of at most that size; behind a larger one a batch joins only up to 1048576 bytes in all |
| `WriteOutcomes.WholeQueueJoins` | LevelDBLib/jni/leveldb/db/db_impl.cpp:1343-1369 | a queue within those bounds, with no sync writer behind an unsynced first one, is taken whole |
| `WriteOutcomes.StopsOnlyThen` | LevelDBLib/jni/leveldb/db/db_impl.cpp:1343-1356 | a group ends early only before a sync writer it cannot speak for or before a batch that would break the bounds |
| `WriterQueue.StepKeeps` | LevelDBLib/jni/leveldb/db/db_impl.cpp:1255-1319 | with every writer at its own place in the code and wakeups that may be spurious, each arrival, wakeup and hand-over keeps the invariant of queue, done flags and signals |
| `WriterQueue.OneWorker` | LevelDBLib/jni/leveldb/db/db_impl.cpp:1257-1259 | in every run at most one writer is past the wait loop, and it is the front of the queue |
| `WriterQueue.NoLostWakeup` | LevelDBLib/jni/leveldb/db/db_impl.cpp:1304-1319 | as long as a writer has not returned, it or one before it is working, or is asleep with a signal that will get it on |
| `WriterQueue.CanMove` | LevelDBLib/jni/leveldb/db/db_impl.cpp:1257-1319 | a sleeper can always wake and test again, and whoever works can hand the queue on |
| `WriterQueue.StepsGetOn` | LevelDBLib/jni/leveldb/db/db_impl.cpp:1304-1319 | every signalled wakeup and every hand-over brings some writer nearer to its return, so between arrivals there are boundedly many of them |
| `WriterQueue.ReturnedIsGone` | LevelDBLib/jni/leveldb/db/db_impl.cpp:1304-1314 | a writer that has returned is no longer in the queue, so nobody touches its frame |
| `WriterQueue.ArriveRefines` | LevelDBLib/jni/leveldb/db/db_impl.cpp:1255-1259 | an arrival is the group machine's enqueuing, followed by its leading step when the queue was empty |
| `WriterQueue.WakeRefines` | LevelDBLib/jni/leveldb/db/db_impl.cpp:1257-1262 | a wakeup of the front is the leading step of the group machine; any other changes nothing there |
| `WriterQueue.FinishRefines` | LevelDBLib/jni/leveldb/db/db_impl.cpp:1304-1319 | the loop that pops and signals is the step of the group machine that acknowledges the group |
| `Coding.FixedRoundTrip` | LevelDBLib/jni/leveldb/util/coding.cpp:9-45 | fixed-width little-endian integers decode to what was encoded, at every width |
| `Coding.FixedAt` | LevelDBLib/jni/leveldb/util/coding.cpp:9-33 | byte k is digit k to base 256: least significant first |
| `Coding.VarintAt` | LevelDBLib/jni/leveldb/util/coding.cpp:47-90 | byte k is digit k to base 128, with the top bit set on all but the last |
| `Coding.CutVarint` | LevelDBLib/jni/leveldb/util/coding.cpp:112-170 | a varint cut off anywhere is rejected |
| `Coding.CutLengthPrefixed` | LevelDBLib/jni/leveldb/util/coding.cpp:172-194 | a length-prefixed string cut off anywhere is rejected |
| `Coding.Varint32RoundTrip` | LevelDBLib/jni/leveldb/util/coding.cpp:47-79 | every 32-bit value, followed by anything, is read back with exactly the rest left |
| `Coding.Varint64RoundTrip` | LevelDBLib/jni/leveldb/util/coding.cpp:81-96 | the same for 64 bits in at most ten bytes |
| `Coding.EncodeVarint32` | LevelDBLib/jni/leveldb/util/coding.cpp:47-73 | the five-way branch by length equals the byte-at-a-time encoding |
| `Coding.EncodeVarint64` | LevelDBLib/jni/leveldb/util/coding.cpp:81-90 | the loop equals the recursive encoding |
| `Coding.VarintLength` | LevelDBLib/jni/leveldb/util/coding.cpp:103-110 | is the length of the encoding |
| `Coding.GetVarintPtr` | LevelDBLib/jni/leveldb/util/coding.cpp:112-170 | the shift loop of both decoders, with bits lost beyond the width, equals the recursive parse; NULL iff it fails |
| `Coding.LengthPrefixedRoundTrip` | LevelDBLib/jni/leveldb/util/coding.cpp:98-101 | a length-prefixed string, followed by anything, is read back with exactly the rest left |
| `Coding.MaskRoundTrip` | LevelDBLib/jni/leveldb/util/crc32c.h:31-41 | unmasking inverts masking on all 32-bit values |
| `Coding.MaskValues` | LevelDBLib/jni/leveldb/util/crc32c.h:28-34 | three values fix the constant added and the direction of the rotation |
| `Crc32c.Extend` | LevelDBLib/jni/leveldb/util/crc32c.cpp:286-329 | for every buffer, length and alignment the four loops over four tables give the bytewise CRC-32C |
| `Crc32c.CheckValue` | LevelDBLib/jni/leveldb/util/crc32c.cpp:286-329 | the checksum of the digits 1 to 9 is 0xe3069283, the check value of CRC-32C |
| `Crc32c.ZerosValue` | LevelDBLib/jni/leveldb/util/crc32c.cpp:286-329 | the checksum of 32 zero bytes is 0x8a9136aa |
| `Crc32c.Table0Is` | LevelDBLib/jni/leveldb/util/crc32c.cpp:16-80 | entry c of the first table is the exclusive or, over the bits of c, of its literal entries at the powers of two |
| `Crc32c.Table1Is` | LevelDBLib/jni/leveldb/util/crc32c.cpp:82-146 | entry c of the second table is the exclusive or, over the bits of c, of its literal entries at the powers of two |
| `Crc32c.Table2Is` | LevelDBLib/jni/leveldb/util/crc32c.cpp:148-212 | entry c of the third table is the exclusive or, over the bits of c, of its literal entries at the powers of two |
| `Crc32c.Table3Is` | LevelDBLib/jni/leveldb/util/crc32c.cpp:214-278 | entry c of the fourth table is the exclusive or, over the bits of c, of its literal entries at the powers of two |
| `Crc32c.Step4` | LevelDBLib/jni/leveldb/util/crc32c.cpp:296-303 | four table lookups equal four bytewise steps |
| `Crc32c.Step1` | LevelDBLib/jni/leveldb/util/crc32c.cpp:292-295 | one table lookup equals eight bit steps of polynomial division |
| `Crc32c.ExtendComposes` | LevelDBLib/jni/leveldb/util/crc32c.cpp:286-329 | extending by two pieces in turn is extending by their concatenation |
| `Crc32c.Step8Xor` | LevelDBLib/jni/leveldb/util/crc32c.cpp:292-303 | a byte of division is linear over exclusive or, which is what lets four tables be combined |
| `Crc32c.Carry` | LevelDBLib/jni/leveldb/util/crc32c.cpp:296-303 | the recurrence that links the tables carries an earlier lookup through later bytes |
| `Log.CrashPrefix` | LevelDBLib/jni/leveldb/db/log_reader.cpp:59-280 | for any records, also empty ones and over sessions resumed at the file length, reading any byte prefix of the log returns exactly the records wholly inside it, in order, and reports no corruption |
| `Log.CutSomewhere` | LevelDBLib/jni/leveldb/db/log_reader.cpp:59-181 | every cut falls after some number of whole records, so the previous statement covers every prefix |
| `Log.ReadEmitted` | LevelDBLib/jni/leveldb/db/log_reader.cpp:74-180 | the fragments of one record, written at any file offset, are put together again; if the file is cut in them the read ends silently |
| `Log.WholeRecordsInside` | LevelDBLib/jni/leveldb/db/log_writer.cpp:36-82 | a record that lies inside the prefix is among those read back |
| `Log.Writer.AddRecord` | LevelDBLib/jni/leveldb/db/log_writer.cpp:36-82 | whatever appends fail: the bytes added are an attempt at the fragmentation of the record for the current offset, that is, whole fragments up to one that is there in part, and the block offset moves as if that one were whole |
| `Log.Writer.EmitPhysicalRecord` | LevelDBLib/jni/leveldb/db/log_writer.cpp:84-109 | appends header with masked checksum, length and type, then the payload, or on failure any part of them; the block offset advances in either case |
| `Log.AttemptBounds` | LevelDBLib/jni/leveldb/db/log_writer.cpp:36-82 | an attempt adds no more than the record's bytes and never takes the file to end before where it does; one that succeeds and loses nothing added just the fragmentation |
| `Log.Writer.constructor` | LevelDBLib/jni/leveldb/db/log_writer.cpp:28-31 | a writer resumed by destination length stands at the block offset the bytes so far end at |
| `Log.Reader.ReadPhysicalRecord` | LevelDBLib/jni/leveldb/db/log_reader.cpp:198-280 | the buffered loop equals the declarative reading of one physical record: block refill, end of file, bad length, zero records, checksum failure, with its reports |
| `Log.Reader.ReadRecord` | LevelDBLib/jni/leveldb/db/log_reader.cpp:59-181 | the reassembly loop equals the declarative reading of one logical record for every file, corrupt ones included, with its reports |
| `Log.ShortRecord` | LevelDBLib/jni/leveldb/db/log_writer.cpp:84-109 | a record that fits is masked checksum, two length bytes, type 1 and the data |
| `Log.LongRecord` | LevelDBLib/jni/leveldb/db/log_writer.cpp:36-82 | one that does not fit fills the block with a record of type 2, or 3 further on, and goes on in the next block |
| `Log.LastRecord` | LevelDBLib/jni/leveldb/db/log_writer.cpp:36-82 | the last part of a longer record is a record of type 4 |
| `Log.TrailerFirst` | LevelDBLib/jni/leveldb/db/log_writer.cpp:44-54 | less than seven bytes at the end of a block are zeros |
| `LogReports.CorruptionIsReported` | LevelDBLib/jni/leveldb/db/log_reader.cpp:74-280 | whatever the reader gets to and cannot use makes it report: a length past the block, a wrong checksum, zeros in the middle of a record, a fragment out of place, a type there is not |
| `LogReports.ZerosAreSilent` | LevelDBLib/jni/leveldb/db/log_reader.cpp:243-252 | any number of zeros behind the records are passed over: the records are read and nothing is reported |
| `LogFailures.AppendingIsSafe` | LevelDBLib/jni/leveldb/db/log_writer.cpp:28-109 | for any file and any block offset: every sequence of records appended there is read back, whole, in order and at its place, if and only if the offset is that of the file's length and the reader gets to the end of the file; if only the latter fails, no sequence is |
| `LogFailures.AfterAttempt` | LevelDBLib/jni/leveldb/db/log_writer.cpp:84-109 | after an attempt, failed or not, the writer may go on if no byte was lost, and may not if the bytes lost do not make up whole blocks |
| `LogFailures.TornTail` | LevelDBLib/jni/leveldb/db/db_impl.cpp:502-510 | a file cut off inside a record may be appended to, as a reused log is, just when the cut is within the last six bytes of a block |
| `LogFailures.ReadBackWithin` | LevelDBLib/jni/leveldb/db/log_reader.cpp:59-181 | a record appended to a file where that is safe is read back whatever follows it |
| `LogFailures.Misaligned` | LevelDBLib/jni/leveldb/db/log_writer.cpp:36-82 | out of step with the file's blocks, a record of three blocks is lost |
| `LogFailures.Unreached` | LevelDBLib/jni/leveldb/db/log_reader.cpp:198-280 | when the reader does not get to the end, the first record appended is not read back |
| `LogFailures.ScanIsReadAll` | LevelDBLib/jni/leveldb/db/log_reader.cpp:59-181 | reading by position, with the offset of each record, gives what the buffered reader gives for any file |
| `WriteBatches.ContentsRoundTrip` | LevelDBLib/jni/leveldb/db/write_batch.cpp:42-110 | a batch of any operations hands over exactly them, in order, and keeps its sequence number and count |
| `WriteBatches.CutBatchIsCorrupt` | LevelDBLib/jni/leveldb/db/write_batch.cpp:42-80 | a batch cut off at any byte is found to be corrupt |
| `WriteBatches.Layout` | LevelDBLib/jni/leveldb/db/write_batch.cpp:5-14 | a batch is eight bytes of sequence number, four of count, and the operations |
| `WriteBatches.OpLayout` | LevelDBLib/jni/leveldb/db/write_batch.cpp:98-109 | an operation is tag 1 with key and value or tag 0 with the key |
| `WriteBatches.WriteBatch.Put` | LevelDBLib/jni/leveldb/db/write_batch.cpp:98-103 | appends the operation and counts it in the header |
| `WriteBatches.WriteBatch.Delete` | LevelDBLib/jni/leveldb/db/write_batch.cpp:105-109 | appends the operation and counts it in the header |
| `WriteBatches.WriteBatch.Append` | LevelDBLib/jni/leveldb/db/write_batch.cpp:141-145 | the operations of the source follow those of the destination; the header sums the counts |
| `WriteBatches.WriteBatch.SetSequence` | LevelDBLib/jni/leveldb/db/write_batch.cpp:94-96 | changes the sequence number and nothing else |
| `WriteBatches.WriteBatch.Clear` | LevelDBLib/jni/leveldb/db/write_batch.cpp:37-40 | leaves an empty batch with sequence number 0 |
| `WriteBatches.WriteBatch.Iterate` | LevelDBLib/jni/leveldb/db/write_batch.cpp:42-80 | the parsing loop equals the declarative parse of any bytes, with its four corruption errors |
| `WriteBatches.ParseOpsInverts` | LevelDBLib/jni/leveldb/db/write_batch.cpp:46-75 | parsing the encoding of any operations gives them back |
| `Recovery.RecoverLogFile` | LevelDBLib/jni/leveldb/db/db_impl.cpp:457-500 | the replay loop equals the declarative replay of any file, with and without paranoid checks |
| `Recovery.FailsExactly` | LevelDBLib/jni/leveldb/db/db_impl.cpp:425-500 | replay fails if and only if it is paranoid and the reader has something to report or some record is no good batch |
| `Recovery.InsertInto` | LevelDBLib/jni/leveldb/db/write_batch.cpp:112-134 | the operations of a batch are inserted under consecutive numbers from the batch's own |
| `Recovery.CutLogReplays` | LevelDBLib/jni/leveldb/db/db_impl.cpp:457-483 | a log cut off at any byte replays as the whole groups inside it: same operations, order and numbers, the greatest number, no error |
| `Recovery.RecoveryReplaysTheRun` | LevelDBLib/jni/leveldb/db/db_impl.cpp:457-483 | for every run of the write protocol without failed appends or syncs, between groups: replaying the current log file reproduces exactly the memtable insertions since that file was started, and the last published sequence number |
| `Durability.SyncedWriteSurvives` | LevelDBLib/jni/leveldb/db/db_impl.cpp:1279-1302 | for every run, with failed appends leaving any part of their bytes and failed syncs: if when its record was appended the file was as long as the writer took it to be, a batch acknowledged after a sync is wholly replayed, under its numbers, from any file that begins with what each sync found there; only a paranoid opener may refuse the file instead |
| `Durability.LosingRun` | LevelDBLib/jni/leveldb/db/db_impl.cpp:1279-1322 | without that condition it fails: an append that fails after its header, then a batch synced and acknowledged, and the replay of the intact file gives back nothing and reports nothing |
| `Durability.NoByteLost` | LevelDBLib/jni/leveldb/db/log_writer.cpp:84-109 | in every run the file is at most as long as its writer takes it to be, and while it is just as long it may be appended to |
| `Durability.WholeFile` | LevelDBLib/jni/leveldb/db/log_writer.cpp:36-109 | with no failed append and no byte lost, the file is the log of the records since it was started |
| `Durability.ReplayFinds` | LevelDBLib/jni/leveldb/db/db_impl.cpp:457-500 | whatever else a file holds, a batch among its logical records is inserted by the replay, unless that stops with an error |
| `ByteStrings.BytewiseIsTotal` | LevelDBLib/jni/leveldb/util/comparator.cpp:25-27 | byte order is a total order whose zero is equality |
| `ByteStrings.ShortestSeparates` | LevelDBLib/jni/leveldb/util/comparator.cpp:29-51 | the separator of two strings is in [start, limit) whenever start < limit |
| `ByteStrings.ShortSuccessorFollows` | LevelDBLib/jni/leveldb/util/comparator.cpp:53-65 | the successor is not below the key |
| `ByteStrings.SeparatorIsShortest` | LevelDBLib/jni/leveldb/util/comparator.cpp:29-51 | when the first differing bytes leave room, the separator ends there and no string in the range is shorter; otherwise start stays |
| `ByteStrings.SuccessorIsShortest` | LevelDBLib/jni/leveldb/util/comparator.cpp:53-65 | the successor ends one past the first byte that is not 0xff, and no string at or after the key is shorter; a key of 0xff alone stays |
| `ByteStrings.FindShortestSeparator` | LevelDBLib/jni/leveldb/util/comparator.cpp:29-51 | the scan and in-place rewrite computes that separator |
| `ByteStrings.FindShortSuccessor` | LevelDBLib/jni/leveldb/util/comparator.cpp:53-65 | the scan and in-place rewrite computes that successor |
| `InternalKeys.InternalIsTotal` | LevelDBLib/jni/leveldb/db/dbformat.cpp:50-66 | over any total user order, user key ascending then tag descending is a total order on internal keys |
| `InternalKeys.EncodeOrders` | LevelDBLib/jni/leveldb/db/dbformat.cpp:12-66 | encoded keys with packed tags compare exactly as (user key ascending, sequence descending) |
| `InternalKeys.TagBytes` | LevelDBLib/jni/leveldb/db/dbformat.cpp:12-24 | after the user key come a type byte, 1 or 0, and seven bytes of sequence number, least significant first |
| `InternalKeys.LookupSplits` | LevelDBLib/jni/leveldb/db/dbformat.cpp:121-138 | exactly the entries of smaller user keys, and those of the same key above the snapshot, are below the lookup key |
| `InternalKeys.LookupFindsNewest` | LevelDBLib/jni/leveldb/db/dbformat.cpp:121-138 | where the lookup key falls in sorted entries stands the newest visible version, or there is none |
| `InternalKeys.FindShortestSeparator` | LevelDBLib/jni/leveldb/db/dbformat.cpp:68-85 | when the user comparator shortens and advances the user key, the result is that key before all its entries, strictly between start and limit; otherwise start itself |
| `InternalKeys.FindShortSuccessor` | LevelDBLib/jni/leveldb/db/dbformat.cpp:87-99 | when the user comparator shortens and advances the user key, the result is that key before all its entries; otherwise the key itself |
| `InternalKeys.IndexKeySeparates` | LevelDBLib/jni/leveldb/db/dbformat.cpp:68-85 | an index key bounds its block from above and the next from below, and a lookup key left between them is of an older user key than the next block's first |
| `InternalKeys.BytewiseShortens` | LevelDBLib/jni/leveldb/util/comparator.cpp:29-65 | the bytewise comparator meets what tables demand of a comparator |
| `Blocks.EntryReads` | LevelDBLib/jni/leveldb/table/block.cpp:53-76 | entry i of a finished block decodes to its shared length, key delta and value, and ends where entry i + 1 begins |
| `Blocks.RestartReads` | LevelDBLib/jni/leveldb/table/block.cpp:99-102 | restart k points at the offset of the k-th restart entry |
| `Blocks.BlockOpens` | LevelDBLib/jni/leveldb/table/block.cpp:18-38 | a finished block is recognized, with its restart array found |
| `Blocks.DecodeInverts` | LevelDBLib/jni/leveldb/table/block.cpp:53-76 | both the one-byte fast path and the varint path return the three lengths written |
| `Blocks.EntryLayout` | LevelDBLib/jni/leveldb/table/block_builder.cpp:91-102 | an entry is the lengths of shared prefix, rest and value, then the rest and the value |
| `Blocks.ShareIsLongest` | LevelDBLib/jni/leveldb/table/block_builder.cpp:78-84 | an entry that is no restart shares the longest prefix there is with the key before |
| `Blocks.BlockBuilder.Add` | LevelDBLib/jni/leveldb/table/block_builder.cpp:73-107 | for every restart interval: the pair joins the block, prefix-compressed or as a restart |
| `Blocks.BlockBuilder.Finish` | LevelDBLib/jni/leveldb/table/block_builder.cpp:63-71 | the bytes are the layout of all pairs added, and as many as were estimated; every interval-th entry, and no other, is a restart |
| `Blocks.BlockBuilder.Reset` | LevelDBLib/jni/leveldb/table/block_builder.cpp:48-55 | an empty block under construction again |
| `BlockIterator.Iter.Next` | LevelDBLib/jni/leveldb/table/block.cpp:139-142 | one pair forward; the key is rebuilt from its prefix |
| `BlockIterator.Iter.Prev` | LevelDBLib/jni/leveldb/table/block.cpp:144-163 | one pair back, by rescanning from a restart: the exact inverse of Next |
| `BlockIterator.Iter.Seek` | LevelDBLib/jni/leveldb/table/block.cpp:165-203 | binary search over restarts plus scan lands at the first pair not below the target, as a linear search would |
| `BlockIterator.Iter.FindRestart` | LevelDBLib/jni/leveldb/table/block.cpp:166-193 | every pair before the restart found is below the target |
| `BlockIterator.Iter.SeekToFirst` | LevelDBLib/jni/leveldb/table/block.cpp:205-208 | lands at pair 0 |
| `BlockIterator.Iter.SeekToLast` | LevelDBLib/jni/leveldb/table/block.cpp:210-215 | lands at the last pair |
| `BlockIterator.Iter.ParseNextKey` | LevelDBLib/jni/leveldb/table/block.cpp:226-253 | restores the whole key and the value of the next pair, or leaves the iterator invalid at the end |
| `Filters.NoFalseNegatives` | LevelDBLib/jni/leveldb/table/filter_block.cpp:95-109 | for any blocks at increasing offsets and any keys, a finished filter block turns a key away from a block only if a filter that all of the block's keys went into does; with a sound policy it never turns away a key of the block |
| `Filters.WindowAnswers` | LevelDBLib/jni/leveldb/table/filter_block.cpp:78-109 | every block offset is answered by the filter of its own 2 KB window, past the last one by yes: the exact answer, both ways |
| `Filters.EmptyBlock` | LevelDBLib/jni/leveldb/table/filter_block.cpp:36-50 | without keys the block is the offset 0 and the base 11, for windows of 2048 bytes |
| `Filters.MalformedMatches` | LevelDBLib/jni/leveldb/table/filter_block.cpp:78-109 | bytes that are no filter block turn no key away |
| `Filters.BadBoundsMatch` | LevelDBLib/jni/leveldb/table/filter_block.cpp:95-109 | a filter whose bounds are out of order or out of range turns no key away, unless they are equal |
| `Filters.FilterBlockBuilder.StartBlock` | LevelDBLib/jni/leveldb/table/filter_block.cpp:22-28 | windows up to the block's own are closed; nothing added is lost |
| `Filters.FilterBlockBuilder.AddKey` | LevelDBLib/jni/leveldb/table/filter_block.cpp:30-34 | records the key for the block being filled |
| `Filters.FilterBlockBuilder.GenerateFilter` | LevelDBLib/jni/leveldb/table/filter_block.cpp:52-76 | the flattened keys become the next filter, empty if there are none |
| `Filters.FilterBlockBuilder.Finish` | LevelDBLib/jni/leveldb/table/filter_block.cpp:36-50 | the bytes are all filters, their offsets, the array offset and the base |
| `Filters.FilterBlockReader.constructor` | LevelDBLib/jni/leveldb/table/filter_block.cpp:78-93 | parses any bytes; malformed ones have no filters |
| `Filters.FilterBlockReader.MayMatch` | LevelDBLib/jni/leveldb/table/filter_block.cpp:95-109 | equals the declarative answer on any bytes |
| `Filters.VersionsNotDenied` | LevelDBLib/jni/leveldb/db/dbformat.cpp:105-119 | through the internal-key wrapper, a key is never denied by a sound filter that any version of its user key went into |
| `Blooms.BloomIsSound` | LevelDBLib/jni/leveldb/util/bloom.cpp:35-86 | a Bloom filter matches every key it was made from, for any hash, bits per key and probe count, with 32-bit wrap-around |
| `Blooms.BloomMatchesExactly` | LevelDBLib/jni/leveldb/util/bloom.cpp:35-86 | it matches a key iff every probe of it is a probe of some key added: no bit is lost and none is set besides |
| `Blooms.ProbeIs` | LevelDBLib/jni/leveldb/util/bloom.cpp:48-59 | probe j is the hash plus j times its rotation, in 32 bits |
| `Blooms.DeltaRotates` | LevelDBLib/jni/leveldb/util/bloom.cpp:52-52 | the rotation is by 17 bits to the right |
| `Blooms.FilterSize` | LevelDBLib/jni/leveldb/util/bloom.cpp:36-47 | a filter has the given bits for each key, at least 64, rounded up to bytes, then the number of probes; bits are counted from the least significant |
| `Blooms.TooShort` | LevelDBLib/jni/leveldb/util/bloom.cpp:63-66 | a filter of fewer than two bytes matches nothing |
| `Blooms.BloomFilterPolicy.CreateFilter` | LevelDBLib/jni/leveldb/util/bloom.cpp:35-61 | the in-place bit array of the nested loops, with the probe count, is that filter, appended to dst |
| `Blooms.BloomFilterPolicy.KeyMayMatch` | LevelDBLib/jni/leveldb/util/bloom.cpp:63-86 | the probing loop decides exactly whether all bits are set; too short filters never match, reserved ones always |
| `Tables.OneBlockSuffices` | LevelDBLib/jni/leveldb/table/table.cpp:226-255 | for any ascending keys, block cuts and shortened index keys: the one block the index points to decides the lookup; either it holds the least pair not below the sought key, or no pair of that user key at or after it exists |
| `Tables.FilterSuffices` | LevelDBLib/jni/leveldb/table/table.cpp:232-239 | a filter that knows the user key is not in that one block may end the lookup |
| `Tables.AnswerIsNewest` | LevelDBLib/jni/leveldb/table/table.cpp:226-255 | the pair delivered is the newest version of the user key the snapshot sees, or there is none |
| `Tables.SavedIsRead` | LevelDBLib/jni/leveldb/db/version_set.cpp:253-266 | what SaveValue records is a value, a deletion or nothing exactly as the versions read |
| `Tables.ReadBlockInverts` | LevelDBLib/jni/leveldb/table/format.cpp:65-142 | a block written raw is read back, with and without checksum verification |
| `Tables.ReadBlockExactly` | LevelDBLib/jni/leveldb/table/format.cpp:65-142 | with verification a block is read if and only if the bytes there are exactly those of a raw block of these contents; without, if and only if type and contents are there |
| `Tables.FooterMagic` | LevelDBLib/jni/leveldb/table/format.cpp:32-63 | what is opened as a table ends in the eight bytes of the magic number, as every footer does |
| `Tables.HandleRoundTrip` | LevelDBLib/jni/leveldb/table/format.cpp:15-30 | a block handle, followed by anything, is read back with exactly the rest left |
| `Tables.FooterInverts` | LevelDBLib/jni/leveldb/table/format.cpp:32-63 | after any bytes, the padded footer gives back both handles |
| `Tables.IndexSorted` | LevelDBLib/jni/leveldb/table/table_builder.cpp:100-107 | shortened index keys strictly ascend |
| `TableReading.Table.Open` | LevelDBLib/jni/leveldb/table/table.cpp:38-89 | fails iff the footer or the index block cannot be read; else serves the file's index block, with its filter iff the metaindex can be read and names one |
| `TableReading.Table.ReadMeta` | LevelDBLib/jni/leveldb/table/table.cpp:91-118 | the seek in the metaindex finds the filter block of the reader's policy, if there is one |
| `TableReading.Table.ReadFilter` | LevelDBLib/jni/leveldb/table/table.cpp:120-141 | a bad handle or unreadable block leaves the table without filter |
| `TableReading.Table.InternalGet` | LevelDBLib/jni/leveldb/table/table.cpp:226-255 | over the bytes of a file, through index, filter and one block: the answer of OneBlockSuffices |
| `TableReading.OpensWhatWasWritten` | LevelDBLib/jni/leveldb/table/table.cpp:38-141 | a complete file is opened to its own index, and to its own filter just when the reader's policy has the name of the writer's |
| `TableReading.FilterKeyText` | LevelDBLib/jni/leveldb/table/table.cpp:110-111 | the key of a filter in the metaindex is the text "filter." and the policy's name |
| `TableReading.FilterNeverLies` | LevelDBLib/jni/leveldb/table/table.cpp:232-239 | with a sound user policy, the filter of a complete file never hides a user key from its block |
| `TableReading.Lookup` | LevelDBLib/jni/leveldb/db/table_cache.cpp:107-121 | opening any complete file, with the writer's filter policy, another or none, and getting any key at any snapshot gives exactly what the versions in it read as |
| `TableBuilding.TableBuilder.Add` | LevelDBLib/jni/leveldb/table/table_builder.cpp:92-121 | what the builder holds grows by the pair, whatever flushes happen; afterwards the block being filled is below the block size, and a block written reached it |
| `TableBuilding.TableBuilder.AddPendingEntry` | LevelDBLib/jni/leveldb/table/table_builder.cpp:100-107 | the deferred entry separates the block written last from the key to come |
| `TableBuilding.TableBuilder.Flush` | LevelDBLib/jni/leveldb/table/table_builder.cpp:123-137 | the filled block is in the file, pending its index entry; the filter moves to the next block's offset |
| `TableBuilding.TableBuilder.WriteBlock` | LevelDBLib/jni/leveldb/table/table_builder.cpp:139-173 | the block is in the file at its handle; earlier bytes are unchanged |
| `TableBuilding.TableBuilder.WriteRawBlock` | LevelDBLib/jni/leveldb/table/table_builder.cpp:175-193 | contents, type and masked checksum are appended at the handle |
| `TableBuilding.TableBuilder.WriteMeta` | LevelDBLib/jni/leveldb/table/table_builder.cpp:207-230 | filter block and metaindex; the filter can answer for every data block |
| `TableBuilding.TableBuilder.WriteIndex` | LevelDBLib/jni/leveldb/table/table_builder.cpp:232-241 | the index gets its last entry: one for each data block, pointing to it |
| `TableBuilding.TableBuilder.Finish` | LevelDBLib/jni/leveldb/table/table_builder.cpp:199-254 | the file is a complete table, footer included, whose data blocks hold exactly the pairs added, in order |
| `TableBuilding.BuiltRepresents` | LevelDBLib/jni/leveldb/table/table_builder.cpp:92-121 | a table the encoded entries were added to holds exactly them |
| `TableBuilding.BuildTable` | LevelDBLib/jni/leveldb/db/builder.cpp:17-87 | from any iterator over sorted entries: a complete table of exactly them with first and last key, no file if there are none |
| `TableBuilding.BuildThenLookup` | LevelDBLib/jni/leveldb/db/table_cache.cpp:107-121 | a table built from sorted entries and then asked for a key at a snapshot answers as the entries read, for every block size, restart interval and pair of filter policies, when the file is below 4 GB |
| `TwoLevel.SeekLands` | LevelDBLib/jni/leveldb/table/two_level_iterator.cpp:91-96 | an index seek and a block seek land at the first item of the concatenation not below the target, empty blocks included |
| `TwoLevel.TwoLevelIterator.Next` | LevelDBLib/jni/leveldb/table/two_level_iterator.cpp:112-116 | one position forward in the concatenation |
| `TwoLevel.TwoLevelIterator.Prev` | LevelDBLib/jni/leveldb/table/two_level_iterator.cpp:118-122 | one position back in the concatenation |
| `TwoLevel.TwoLevelIterator.Seek` | LevelDBLib/jni/leveldb/table/two_level_iterator.cpp:91-96 | lands at the first item not below the target |
| `TwoLevel.TwoLevelIterator.SeekToFirst` | LevelDBLib/jni/leveldb/table/two_level_iterator.cpp:98-103 | lands at position 0 |
| `TwoLevel.TwoLevelIterator.SeekToLast` | LevelDBLib/jni/leveldb/table/two_level_iterator.cpp:105-110 | lands at the last position |
| `TwoLevel.TwoLevelIterator.SkipEmptyDataBlocksForward` | LevelDBLib/jni/leveldb/table/two_level_iterator.cpp:125-136 | terminates at the first item of a later non-empty block, or past the end |
| `TwoLevel.TwoLevelIterator.SkipEmptyDataBlocksBackward` | LevelDBLib/jni/leveldb/table/two_level_iterator.cpp:138-149 | terminates at the last item of an earlier non-empty block, or before the start |
| `TwoLevel.TwoLevelIterator.InitDataBlock` | LevelDBLib/jni/leveldb/table/two_level_iterator.cpp:156-170 | the data iterator is over the block the index stands at; one already open is kept |
| `HandleTables.HandleTable.FindPointer` | LevelDBLib/jni/leveldb/util/cache.cpp:95-105 | the slot found points to the entry with that key and hash, iff there is one |
| `HandleTables.HandleTable.Lookup` | LevelDBLib/jni/leveldb/util/cache.cpp:58-60 | the entry for the key, null iff there is none |
| `HandleTables.HandleTable.Insert` | LevelDBLib/jni/leveldb/util/cache.cpp:62-76 | the entries lose the one replaced, which is returned, and gain the new one; chains, count and unique keys are kept |
| `HandleTables.HandleTable.Remove` | LevelDBLib/jni/leveldb/util/cache.cpp:78-86 | the entries lose the one returned, and nothing else |
| `HandleTables.HandleTable.Resize` | LevelDBLib/jni/leveldb/util/cache.cpp:107-131 | the new table holds the same entries in the right buckets: the key mapping is unchanged |
| `Caches.LRUCache.Insert` | LevelDBLib/jni/leveldb/util/cache.cpp:230-261 | the new entry is most recent; the replaced one leaves, then the least recently used in order, no more than needed; afterwards usage fits the capacity or nothing is cached; the deleter runs for exactly those that left and are not held |
| `Caches.LRUCache.Lookup` | LevelDBLib/jni/leveldb/util/cache.cpp:214-223 | a hit becomes the most recent and gains a handle |
| `Caches.LRUCache.Release` | LevelDBLib/jni/leveldb/util/cache.cpp:225-228 | gives one handle back; the deleter runs iff it was the last reference |
| `Caches.LRUCache.Erase` | LevelDBLib/jni/leveldb/util/cache.cpp:263-270 | the entry leaves table and list; its deleter runs now iff no handle is out |
| `Caches.LRUCache.Prune` | LevelDBLib/jni/leveldb/util/cache.cpp:272-283 | exactly the cached entries without handles are freed, oldest first; the others keep their order |
| `Caches.HavingIs` | LevelDBLib/jni/leveldb/util/cache.cpp:272-283 | the entries freed are those of the list without handles, the ones kept those with; together they are all |
| `Caches.LRUCache.Unref` | LevelDBLib/jni/leveldb/util/cache.cpp:191-199 | usage stays the charge total of live entries; the deleter runs once, at zero references |
| `Caches.LRUCache.Evict` | LevelDBLib/jni/leveldb/util/cache.cpp:253-258 | an evicted entry leaves table and list together |
| `Overlaps.GetOverlappingInputs` | LevelDBLib/jni/leveldb/db/version_set.cpp:517-557 | for level 0 terminates despite its restarts with the least range that contains the request and every file overlapping it transitively, and returns exactly the files overlapping it; for other levels the files overlapping the request |
| `Overlaps.OverlappingMembers` | LevelDBLib/jni/leveldb/db/version_set.cpp:517-557 | a file is returned iff it overlaps the range reached: every file left out is disjoint from it |
| `Overlaps.ClosureIsChains` | LevelDBLib/jni/leveldb/db/version_set.cpp:517-557 | at level 0 the files returned are just those that a chain of overlapping files leads to from one that overlaps the request |
| `Overlaps.OverlapIsCommonKey` | LevelDBLib/jni/leveldb/db/version_set.cpp:97-107 | a file and a range overlap just when some key lies in both |
| `Overlaps.FindFile` | LevelDBLib/jni/leveldb/db/version_set.cpp:77-95 | binary search finds the first file whose largest key is not below the target |
| `Overlaps.SomeFileOverlapsRange` | LevelDBLib/jni/leveldb/db/version_set.cpp:97-150 | scan and binary search both answer whether any file overlaps the user-key range |
| `VersionEdits.EditRoundTrip` | LevelDBLib/jni/leveldb/db/version_edit.cpp:40-209 | an edit read back is the edit written, whatever order its deleted files were visited in |
| `VersionEdits.CutEditIsCorrupt` | LevelDBLib/jni/leveldb/db/version_edit.cpp:108-209 | an edit cut off inside a field is corrupt |
| `VersionEdits.UnknownIsCorrupt` | LevelDBLib/jni/leveldb/db/version_edit.cpp:194-201 | a tag there is not makes it corrupt |
| `VersionEdits.NoSuchLevel` | LevelDBLib/jni/leveldb/db/version_edit.cpp:97-106 | a level from 7 on makes it corrupt |
| `VersionEdits.NumberLayout` | LevelDBLib/jni/leveldb/db/version_edit.cpp:40-72 | the numbers and deleted files are written under tags 2, 9, 3, 4 and 6 |
| `VersionEdits.KeyLayout` | LevelDBLib/jni/leveldb/db/version_edit.cpp:40-66 | comparator name and compaction pointers under tags 1 and 5 |
| `VersionEdits.FileLayout` | LevelDBLib/jni/leveldb/db/version_edit.cpp:74-84 | new files under tag 7 with level, number, size and both keys |
| `VersionEdits.VersionEdit.EncodeTo` | LevelDBLib/jni/leveldb/db/version_edit.cpp:40-85 | the loops write the tagged fields of the edit |
| `VersionEdits.VersionEdit.DecodeFrom` | LevelDBLib/jni/leveldb/db/version_edit.cpp:108-209 | the tag loop equals the declarative decoding of any bytes, errors included |
| `VersionEdits.VersionEdit.Clear` | LevelDBLib/jni/leveldb/db/version_edit.cpp:25-38 | resets all but the compaction pointers, which the source leaves |
| `VersionEdits.DecodeInverts` | LevelDBLib/jni/leveldb/db/version_edit.cpp:108-209 | any sequence of fields is read back in order |
| `Versions.Builder.Apply` | LevelDBLib/jni/leveldb/db/version_set.cpp:649-692 | each level's deleted and added files, and the compaction pointers, take on the edit |
| `Versions.Builder.SaveTo` | LevelDBLib/jni/leveldb/db/version_set.cpp:694-744 | every level of the new version is in file order and has exactly the base and added files not marked deleted, each as often as it comes |
| `Versions.Builder.SaveLevel` | LevelDBLib/jni/leveldb/db/version_set.cpp:699-724 | the merge of base and added files by upper bound is in file order and loses and adds none, also when a base file and an added one cannot be told apart |
| `Versions.SavedAscends` | LevelDBLib/jni/leveldb/db/version_set.cpp:592-603 | a saved level ascends by smallest key, and by number where those are equal |
| `Versions.PointerIsLast` | LevelDBLib/jni/leveldb/db/version_set.cpp:651-655 | after Apply the compaction pointer of a level is the last one the edit lists for it |
| `Versions.PointerStays` | LevelDBLib/jni/leveldb/db/version_set.cpp:651-655 | after Apply the compaction pointer of a level the edit lists none for is what it was |
| `LevelSearch.SavedLevelIsSearchable` | LevelDBLib/jni/leveldb/db/version_set.cpp:77-95 | a level saved from disjoint files is in the order that FindFile and SomeFileOverlapsRange ask for |
| `LevelSearch.FileFor` | LevelDBLib/jni/leveldb/db/version_set.cpp:298-318 | over a saved level of disjoint files: the file searched ends at or after the key sought, and every other key of the level at or after it comes later; when none is searched no such key is of the user key |
| `Versions.ApplyCommutes` | LevelDBLib/jni/leveldb/db/version_set.cpp:648-692 | applying an edit to a builder, or to the version built from it, comes to the same files |
| `Versions.BatchEqualsHistory` | LevelDBLib/jni/leveldb/db/version_set.cpp:648-744 | when no number is added to a level twice, one builder fed all edits makes the same file list as installing a version for each, and its added files are sorted and apart from the base |
| `Versions.SortedUnique` | LevelDBLib/jni/leveldb/db/version_set.cpp:591-605 | two lists in file order with the same members are the same list |
| `Versions.FreshApart` | LevelDBLib/jni/leveldb/db/version_set.cpp:591-605 | numbers of their own keep added files apart from the base in file order |
| `Versions.NumbersMustBeFresh` | LevelDBLib/jni/leveldb/db/version_set.cpp:657-691 | without fresh numbers it fails: a number deleted and added again revives the first file in the batch but not in the history |
| `FileReuse.ReplayAgreesExactly` | LevelDBLib/jni/leveldb/db/version_set.cpp:648-744 | for all edits: one builder fed all of them comes to the files of the history if and only if none is lost and none is revived in these two ways; it has at least those of the history if and only if none is lost |
| `FileReuse.LostExactly` | LevelDBLib/jni/leveldb/db/version_set.cpp:648-744 | the replay loses just the files that survive in the history but came after another file of the same smallest key and number, which the builder's set keeps instead |
| `FileReuse.GainedExactly` | LevelDBLib/jni/leveldb/db/version_set.cpp:648-744 | the replay adds just the files that were deleted while there and never came again, whose number an edit then added for another file and none deleted after that |
| `FileReuse.RewrittenFileIsLost` | LevelDBLib/jni/leveldb/db/version_set.cpp:648-744 | the smallest losing manifest: a file is added, then deleted and in the same edit added again, changed but with its number and smallest key; the history has both, the replay the old one |
| `FileReuse.DeletedIs` | LevelDBLib/jni/leveldb/db/version_set.cpp:657-691 | a number is marked deleted in the builder iff some edit deleted it without adding it, and no later edit adds it |
| `FileReuse.HistoryIs` | LevelDBLib/jni/leveldb/db/version_set.cpp:648-744 | a file is in the installed version iff it came with the base or an edit and no edit since deleted its number without adding it |
| `Manifest.Recover` | LevelDBLib/jni/leveldb/db/version_set.cpp:888-1010 | the replay loop over the manifest equals the declarative replay, and succeeds iff nothing was corrupt and all three numbers were met; the version returned is what SaveTo makes of base and files gathered, and the version set takes the log number, the file number as manifest number, one more as next file number, the last sequence, and a previous log number that is 0 if there was none |
| `Manifest.ReplayIsBatch` | LevelDBLib/jni/leveldb/db/version_set.cpp:934-970 | replaying encoded edits gathers what one builder fed the edits holds |
| `Manifest.ManifestReplays` | LevelDBLib/jni/leveldb/db/version_set.cpp:888-1010 | a manifest written through the log and read to its end under fresh numbers gathers levels that are sorted and apart from the base, and any list saved for one is the very list the run installed last |
| `Manifest.ManifestNumbers` | LevelDBLib/jni/leveldb/db/version_set.cpp:951-990 | of each number the replay of the encoded edits holds the value of the last edit that has one, none if no edit has; it is complete iff some edit has a next file number, some a log number and some a last sequence |
| `Manifest.LatestReplayed` | LevelDBLib/jni/leveldb/db/version_set.cpp:951-969 | edit by edit, the later value of a number wins |
| `Manifest.OtherComparatorFails` | LevelDBLib/jni/leveldb/db/version_set.cpp:937-946 | an edit under another comparator name, wherever it stands, makes the replay fail |
| `MemTables.MemTable.Get` | LevelDBLib/jni/leveldb/db/memtable.cpp:108-143 | after any adds with distinct (key, sequence): the value of the newest version the snapshot sees, deleted, or not found, exactly as the entries read, through byte encoding, packed tags and skip-list seek |
| `MemTables.MemTable.Add` | LevelDBLib/jni/leveldb/db/memtable.cpp:82-106 | the encoded entry joins the skip list; the table's entries grow by it |
| `MemTables.MemTable.Judge` | LevelDBLib/jni/leveldb/db/memtable.cpp:112-140 | the bytes of an entry say whether it is of the user key, and its value or deletion |
| `MemTables.SoughtIsNewest` | LevelDBLib/jni/leveldb/db/memtable.cpp:108-124 | the list's first key not below the lookup key is the newest visible version, or there is none |
| `MemTables.EntryOrderIsTotal` | LevelDBLib/jni/leveldb/db/memtable.cpp:33-39 | the comparator over encoded entries is a total order |

## Left out

- Files, mmap, threads, `Env`, loggers, the JNI and Java layers and the C bindings: a file is a byte sequence; read and append errors of the file system are not modelled, except failing appends in `Log.Writer`, failing appends and syncs in `GroupCommit` and failing file operations in `DoCompactionWork`.
- Whole-database statements over several tables: the fork gives all tables one file name, so table theorems are about one file and compaction is about entry streams; that newer entries stay in shallower levels is not claimed.
- The store in `read_only` mode, `MakeRoomForWrite`'s slowdown and waiting: a writer in it waits, fails, or gets a fresh log file and memtable.
- Hardware memory ordering: each load and each store in `ConcurrentSkipList` is one atomic step.
- The arena and the random height: a node is a fresh object and its height any value from 1 to 12.
- Where a compaction ends its output files (`ShouldStopBefore`, file size), when it is scheduled, and its statistics: cuts are nondeterministic.
- Compaction.DoCompactionWork: input keys that do not parse, which the source copies to the output and forgets the current key for, are not modelled; entries have sequence numbers of at most 56 bits.
- TableReading.Table.Open: a metaindex block that can be read is supposed to be a well-formed sorted block, as for every block iterated over.
- TableReading.Table.ReadMeta: the same supposition.
- TableReading.Lookup: a filter policy is supposed to be what its name says: two of one name are the same.
- Corrupt internal keys in iterators, and corrupt blocks in `BlockIterator`, `TwoLevel` and `Table.InternalGet`: the iterators are over well-formed blocks; status and error iterators are left out.
- `MergingIterator` over children that share a key: excluded, as the engine never has equal internal keys in two children.
- `initial_offset` of the log reader: reading starts at the beginning of the file.
- Crc: in `Log` and `Tables` the checksum is any function of the bytes into 32 bits; `Crc32c` is about the real one. The 1024 table entries of `util/crc32c.cpp` are computed in the model; `Table0Is` to `Table3Is` give them from the 32 literal ones at the powers of two.
- HashOf: in `Blooms` the hash is any function of the bytes into 32 bits; false-positive rates are left out, and the probe count is any number clamped to 1 to 30 instead of a product of doubles.
- Snappy, and block caches in `Table::BlockReader`: blocks are stored uncompressed and read from the file each time.
- 32-bit offsets within a block, 64-bit ones within a file, 2^31 operations in a batch and 2^32 bytes in a key or value: overflow of these is excluded by hypotheses such as `FileInRange` and `Storable`.
- A shift by 64 or more in `FilterBlockReader::KeyMayMatch`, undefined in the source, gives 0 here.
- HandleTables.Bucket: the bucket is `hash` modulo the table length, which is what `hash & (length - 1)` is for the powers of two the table has.
- The order in which `std::set` visits deleted files in `VersionEdit::EncodeTo`: any order.
- InternalKeys.InternalCompare: strings shorter than eight bytes, which the engine asserts it never compares, are put first to make the order total; `MemTables.EntryCompare` breaks ties, which the list never has, by bytes.
- User comparators: `ShorteningOk` is what they owe a table; only the bytewise one is proved to meet it.
- The mutex, the shards, the destructor and `NewId` of the cache.
- Compaction scoring, seek sampling, `VersionSet::LogAndApply`'s file handling, reference counts of versions and files: plain bookkeeping.
- FileReuse.ReplayAgreesExactly: is about the sets of files of a level, not about how often one is listed.
- Durability.SyncedWriteSurvives: a file that lost bytes making up whole blocks may still be safe to append to; the condition does not ask for that case. Before the first step the log file may be one that recovery reuses, but sequence numbers start at 0.
- The consistency checks of `MaybeAddFile` that abort on overlapping files in levels above 0.
- `leveldb_navi::Record`, the virtual file system and the KvDB reader: the record decoder follows an older length form by design, the rest are wrappers.
