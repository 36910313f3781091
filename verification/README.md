# A model of LevelDB and nanopb, as vendored by DailyDiary

DailyDiary's own Swift code is user interface and calls into Firebase. What there is to prove is in the
two libraries under `DailyDiary/Pods`: LevelDB, an ordered key-value store, and nanopb, a codec for
Protocol Buffers messages. This project models their logic in Dafny 4.11 and proves what they are for.
`dafny verify dfyconfig.toml` checks all of it.

Code that changes things step by step is modelled by classes whose methods do the same steps: the
iterators, the builders, the log reader and writer, the codec streams, the skip list, the cache. Each
method is proved against a function or predicate on values, and the theorems are about those.

## What is modelled

- **The tree of tables** (`Keys`, `Files`, `Versions`, `Builder`, `Compaction`, `Lsm`, `Store`,
  `VersionSet`). A version is seven lists of table files, a file a sorted list of entries (user key,
  sequence number, type, value). Its meaning is the newest entry at or below a sequence number. Flushes,
  trivial moves and compactions are the steps of a run; each keeps what readers see exactly when it is
  harmless, a condition on the state before it.
- **The database** (`DbImpl`). A memtable, perhaps one being saved, and the versions: writes, the switch
  to a new memtable, saving the old one, reads through all three and the iterator that merges them.
- **Iterators** (`Cursor`, `DbIter`, `Merger`, `TwoLevel`, `Block`, `Moves`). Under any mix of moves each is
  a cursor over one list: of keys shown at a sequence number, of merged entries, of a table, of a block.
- **Bytes** (`Coding`, `Log`, `LogDamage`, `WriteBatch`, `Recovery`, `Block`, `Comparators`, `Filter`, `Table`,
  `VersionEdit`, `Manifest`). Printers and parsers undo each other; a log, and a manifest, may be cut off
  at any byte; a log may be damaged.
- **Group commit** (`GroupCommit`). Writers queue, lead, log, apply and leave, one step at a time, with
  errors and a crash at any point.
- **Reference counts** (`FileRefs`) of versions and file records, and the removal of obsolete files.
- **Structures in memory** (`SkipList`, `HandleTable`, `LruCache`): invariants that hold after every
  single link write.
- **nanopb** (`Proto`, `ProtoEncode`, `ProtoDecode`, `Bits`). A message is a value shaped by its
  descriptor; the wire format is a function, and both directions are proved against it.

## Conventions

- A user key of the tree, the iterators and the memtable is a real number: its rank in the order of the
  comparator. Every total order on countably many keys embeds in the reals, and `Keys.BytewiseRankEmbeds`
  and `Comparators.InternalRankEmbeds` show this for the comparators that the store has.
- A file is a byte string whose reads are full until its end. Checksums, hashes and the size a table has on
  disk so far are arbitrary functions; a skip list node's height is a parameter.
- Ghost parameters of the decoding methods name what the input begins with. A method without such
  knowledge still promises to stay within its stream.
- File records, versions and their links (`FileRefs`) are kept in maps by identity; the levels of a version
  are flattened, each record carrying its level, since their order is the builder's (`Builder`).
- Words wrap where the source's do: varints, checksums, block offsets, bloom hashes, sequence tags, the
  integers of messages. Table files are below 2^64 bytes, and their blocks and filters, within which
  positions are 32-bit words, below 2^32.

## What does not hold as written

Each is stated by a member, with an exact condition where the code can go wrong.

1. A compaction moves or merges whole files, and a user key may continue from one file of a level to the
   next (db_impl.cc:998-1004 cuts outputs anywhere). Nothing from level 1 on looks for a file that is left
   behind and continues the last user key of an input (version_set.cc:1305-1317). `Store.ShiftIsSafeIff`:
   lookups stay right if and only if no entry is carried past an older one of its user key left behind;
   for a trivial move, if and only if there is no such file (`Store.MoveIsSafeIff`).
   `Store.MoveCanMislead` is a case.
2. The same cut at either level can bring a deleted value back. `Lsm.CompactionIsSafeIff`: a read changes
   if and only if the deletion that answers it is dropped and the newest entry it hid that is in no input
   is a value. `Store.DeletionCanResurface` is a case. Over runs, `Store.RunIsOkIff`: all states are
   right if and only if no step does 1 or 2.
3. `VersionEdit::Clear` does not clear the compaction pointers, so decoding into an edit that has some puts
   the decoded ones behind them (`VersionEdits.EditRoundTrip`). An edit with a level that the store does not
   have is written but not read; the round trip is exact in this.
4. A string that fills its array, with no terminator, is encoded by nanopb but refused by its decoder
   (`ProtoDecode.DecodeString`). `GoodMessage` asks for the terminator.
5. `DeleteObsoleteFiles` is safe because one background thread both logs edits and removes files: a new
   table is taken off the pending outputs before its edit is logged (db_impl.cc:511).
   `FileRefs.CollectWhileLogging` shows the loss that a removal in between would cause, and
   `DeleteObsoleteFiles` states exactly when there is none.
6. Two comments say more than the code does. db_iter.cc:41-44 puts the underlying iterator just before all
   entries of the current key when going back; entries too new to be visible may lie between. block.cc:85
   has the restart index name the block of the current entry; at an entry that begins a block and is
   reached by Next it still names the one before (`BlockIter.RestartNear`).
7. A log file that ends inside a record is written on behind the torn bytes when logs are reused
   (db_impl.cc:455-463). `LogDamage.TornBetween` and `LogDamage.TornWithin` say which later records are
   lost: those that start in the block of a torn fragment, unless what stands at the tear passes for a
   fragment (see 8). `LogDamage.LostInSilence`: with the torn header there, all are lost and nothing is
   reported until the file has grown by the torn fragment's length.
8. The reader's numbers for the end of the file and for nothing usable, 5 and 6, are returned in place of a
   type (log_reader.h:79-90), and so is the type byte of a checked fragment as it stands (log_reader.cc:280).
   One of type 5 ends the reading: `LogDamage.WholeBlockEndsReading`. So the reader finds its way back behind
   damage if and only if it meets no such fragment (`LogDamage.Resynchronizes`), and a tear in front of a
   type byte can hide all that is written behind it (`LogDamage.TearCanEndReading`).
9. An addition to the log that fails may leave bytes there, and db_impl.cc:1236-1241 goes on writing unless
   it was the sync that failed. `LogDamage.FailedAddition`: a later record, synced or not, can be lost.
   `GroupCommit.SyncedSurvives` and `GroupCommit.RecoverAfterCrash` say what is found all the same: the
   groups added before the first such bytes.
10. The exit of `DBIter::Next` for an iterator that turned around and ran out at once (db_iter.cc:157-161) is
    never taken: the turn finds the current key again.

## Model

| member | source | states |
|---|---|---|
| `Keys.CompareIsTotalOrder` | DailyDiary/Pods/leveldb-library/db/dbformat.cc:50-66 | the internal key order is total and transitive, equal only on equal keys, and puts newer entries of a user key first |
| `Keys.LowerBoundIsNewest` | DailyDiary/Pods/leveldb-library/db/dbformat.cc:121-138 | in a sorted list the entry at the lower bound of a lookup key decides the read: it is the newest entry at or below the sequence number, or there is none |
| `Keys.ReadsIsFunctional` | DailyDiary/Pods/leveldb-library/db/memtable.cc:108-143 | reading a key at a sequence number has exactly one answer in any set of entries |
| `Keys.BytewiseRankEmbeds` | DailyDiary/Pods/leveldb-library/util/comparator.cc:25-27 | byte strings embed in the reals with the order of the bytewise comparator, so that user keys may be ranks |
| `Files.FindFile` | DailyDiary/Pods/leveldb-library/db/version_set.cc:86-105 | the binary search returns the least index whose file ends at or after the key |
| `Files.SomeFileOverlapsRange` | DailyDiary/Pods/leveldb-library/db/version_set.cc:121-155 | says whether any file overlaps the user-key range, both ways, by a scan at level 0 and one search below; unbounded ends included |
| `Files.GetOverlappingInputs` | DailyDiary/Pods/leveldb-library/db/version_set.cc:531-572 | ends despite its restarts and returns exactly the files that overlap a range: the given one below level 0, and at level 0 the least range that contains it and every file it touches |
| `Files.OutsideShrinks` | DailyDiary/Pods/leveldb-library/db/version_set.cc:556-569 | each restart leaves fewer files reaching outside the range |
| `Files.GrowthIsForced` | DailyDiary/Pods/leveldb-library/db/version_set.cc:556-569 | taking in a file that the range touches is forced on every closed range around it |
| `Files.GetRange` | DailyDiary/Pods/leveldb-library/db/version_set.cc:1224-1246 | returns the least smallest and the greatest largest key of the files |
| `Versions.FilesToSearch` | DailyDiary/Pods/leveldb-library/db/version_set.cc:350-390 | the files chosen at a level, newest first at level 0 and one below, hold the newest visible entry of the level if there is one |
| `Versions.SearchLevel` | DailyDiary/Pods/leveldb-library/db/version_set.cc:392-427 | searching the chosen files in order and stopping at the first hit finds the newest visible entry of the level |
| `Versions.Get` | DailyDiary/Pods/leveldb-library/db/version_set.cc:332-429 | the layered lookup stops at the right level, and when shallower entries are newer its answer is that of a flat search of all entries of the version |
| `Versions.LayeredIsFlat` | DailyDiary/Pods/leveldb-library/db/version_set.cc:332-429 | when shallower entries are newer, the first level with a hit holds the newest of all visible entries |
| `Builder.VersionBuilder.Apply` | DailyDiary/Pods/leveldb-library/db/version_set.cc:665-708 | an edit changes the state of every level as specified; an added number is no longer deleted |
| `Builder.UpperBound` | DailyDiary/Pods/leveldb-library/db/version_set.cc:725-727 | the binary search finds the first file from a place on that comes after the added one |
| `Builder.SaveLevel` | DailyDiary/Pods/leveldb-library/db/version_set.cc:711-757 | merging base and added files gives the ordered list of exactly those that are not deleted |
| `Builder.VersionBuilder.SaveTo` | DailyDiary/Pods/leveldb-library/db/version_set.cc:711-757 | every level of the new version is that list for its base level |
| `Builder.OrderedListUnique` | DailyDiary/Pods/leveldb-library/db/version_set.cc:589-600 | an ordered file list is determined by its members |
| `Builder.EditStep` | DailyDiary/Pods/leveldb-library/db/version_set.cc:665-772 | one more edit over an accumulated state saves what the edit alone saves over the result so far |
| `Builder.ReplayIsOneAtATime` | DailyDiary/Pods/leveldb-library/db/version_set.cc:939-1009 | replaying a manifest through one builder gives, level by level, the list that applying and saving the edits one at a time gives, if no file number is added to a level twice |
| `Compaction.SetupOtherInputs` | DailyDiary/Pods/leveldb-library/db/version_set.cc:1345-1411 | the inputs of level + 1 are exactly its files that the final inputs of level overlap; widening keeps the picked files, draws in nothing there and stays under the size limit; the grandparents are what all inputs overlap |
| `Compaction.PickLevelZero` | DailyDiary/Pods/leveldb-library/db/version_set.cc:1329-1338 | a file picked at level 0 draws in every file that overlaps it, directly or through others |
| `Compaction.CompactionJob.IsBaseLevelForKey` | DailyDiary/Pods/leveldb-library/db/version_set.cc:1484-1503 | asked in increasing order of key, the pointers that only move forward agree with a full scan of the deeper levels |
| `Compaction.CompactionJob.ShouldStopBefore` | DailyDiary/Pods/leveldb-library/db/version_set.cc:1505-1526 | the output is closed exactly when the grandparent bytes passed since the last close exceed the limit |
| `Compaction.CompactionJob.DropEntry` | DailyDiary/Pods/leveldb-library/db/db_impl.cc:938-972 | an entry is dropped exactly when it is shadowed at the oldest snapshot, or a deletion at or below it with nothing deeper |
| `Compaction.KeptIs` | DailyDiary/Pods/leveldb-library/db/db_impl.cc:938-972 | the kept entries are exactly those not dropped, still sorted |
| `Compaction.CompactionJob.DoCompactionWork` | DailyDiary/Pods/leveldb-library/db/db_impl.cc:887-1045 | the outputs hold, in order and in valid tables, exactly the kept input entries, wherever the outputs are cut |
| `Lsm.LogAndApply` | DailyDiary/Pods/leveldb-library/db/version_set.cc:820-903 | the new version is the old one with the edit applied, level by level |
| `Lsm.ShiftKeepsLevels` | DailyDiary/Pods/leveldb-library/db/version_set.cc:1466-1482 | replacing inputs by outputs one level down keeps each level from 1 on sorted and disjoint |
| `Lsm.ShiftKeepsAge` | DailyDiary/Pods/leveldb-library/db/db_impl.cc:866-885 | it keeps every entry of a shallower level newer than the deeper ones of its user key, unless one is carried past an older one left behind |
| `Lsm.CleanCutIsEnough` | DailyDiary/Pods/leveldb-library/db/version_set.cc:1305-1317 | inputs of a level that are not cut off within a user key are carried past no older entry of it |
| `Lsm.LevelZeroIsClean` | DailyDiary/Pods/leveldb-library/db/version_set.cc:1329-1338 | the inputs picked at level 0 never are |
| `Lsm.CompactionIsSafeIff` | DailyDiary/Pods/leveldb-library/db/db_impl.cc:911-1008 | replacing the inputs of a compaction by its outputs leaves a read at or above the smallest snapshot alone if and only if the deletion that answers it is not dropped with a value as the newest entry it hid that is in no input |
| `Lsm.ExposedEarlier` | DailyDiary/Pods/leveldb-library/db/db_impl.cc:946-969 | what a compaction exposes to a read it exposes to every earlier read still served, so the smallest sequence number in use decides |
| `Lsm.CompactionKeepsReads` | DailyDiary/Pods/leveldb-library/db/db_impl.cc:911-1008 | so with inputs at both levels cut between user keys no read at or above the smallest snapshot changes |
| `Lsm.ShadowedIsDropped` | DailyDiary/Pods/leveldb-library/db/db_impl.cc:955-957 | an entry after one that is no newer than the oldest snapshot, of the same user key, is dropped |
| `Lsm.NothingResurfaces` | DailyDiary/Pods/leveldb-library/db/db_impl.cc:958-969 | with such inputs nothing older than a dropped deletion is left in a file that is no input |
| `Lsm.InvUnique` | DailyDiary/Pods/leveldb-library/db/version_set.cc:343-352 | in a well-formed version no two entries share user key and sequence number |
| `Store.PickLevelForMemTableOutput` | DailyDiary/Pods/leveldb-library/db/version_set.cc:502-528 | the level is at most 2, nothing down to it overlaps, and it is the deepest the rules allow |
| `Store.FlushKeepsInv` | DailyDiary/Pods/leveldb-library/db/db_impl.cc:534-565 | saving a memtable whose entries are newer than all keeps the whole invariant and adds exactly its entries |
| `Store.MoveKeepsEntries` | DailyDiary/Pods/leveldb-library/db/db_impl.cc:708-727 | a trivial move changes no entry |
| `Store.ShiftIsSafeIff` | DailyDiary/Pods/leveldb-library/db/db_impl.cc:708-727 | after a move or a compaction lookups are right, and the invariant holds, if and only if no entry was carried past an older one of its user key left on its level |
| `Store.OvertakingGoesWrong` | DailyDiary/Pods/leveldb-library/db/version_set.cc:332-429 | a lookup at the number of an entry so carried stops at the older one |
| `Store.MoveIsSafeIff` | DailyDiary/Pods/leveldb-library/db/db_impl.cc:708-727 | after a trivial move this is so if and only if no file left on its level continues the last user key of the moved file |
| `Store.MoveCanMislead` | DailyDiary/Pods/leveldb-library/db/db_impl.cc:708-727 | a version and a file that may be moved for which it is not so |
| `Store.DeletionCanResurface` | DailyDiary/Pods/leveldb-library/db/db_impl.cc:958-969 | a compaction that carries nothing past an older entry and exposes a value: the read that said deleted finds it afterwards |
| `Store.StepIsOkIff` | DailyDiary/Pods/leveldb-library/db/db_impl.cc:534-727 | a flush, trivial move or compaction, as the code does them, leads from a right state to a right one if and only if it is harmless: a condition on the state before it |
| `Store.RunIsOkIff` | DailyDiary/Pods/leveldb-library/db/db_impl.cc:534-1045 | over any run of the code from the empty store all states are right if and only if all events were harmless where they happened |
| `Store.RunKeepsReads` | DailyDiary/Pods/leveldb-library/db/db_impl.cc:534-1045 | after any run of harmless events a layered lookup at or above the oldest snapshot shows what the newest of all entries ever written shows |
| `VersionSets.GoodOutputs` | DailyDiary/Pods/leveldb-library/db/db_impl.cc:813-864 | outputs cut from the kept entries at any places are valid tables apart from each other, with numbers not in use |
| `VersionSets.VersionSet.Get` | DailyDiary/Pods/leveldb-library/db/db_impl.cc:1109-1154 | a read at or above the oldest snapshot shows what was written |
| `VersionSets.VersionSet.CompactMemTable` | DailyDiary/Pods/leveldb-library/db/db_impl.cc:534-565 | an empty memtable changes nothing; any other is one flush step of a run |
| `VersionSets.VersionSet.MoveFile` | DailyDiary/Pods/leveldb-library/db/db_impl.cc:708-727 | is one move step of a run, and leaves the version set right if and only if the move is harmless |
| `VersionSets.VersionSet.CompactFiles` | DailyDiary/Pods/leveldb-library/db/db_impl.cc:887-1045 | doing the work on the chosen inputs and installing the outputs is one compaction step of a run, and leaves the version set right if and only if it is harmless |
| `DbImpl.Database.Write` | DailyDiary/Pods/leveldb-library/db/db_impl.cc:1232-1246 | inserting a group's operations adds exactly their entries under the next sequence numbers to everything written |
| `DbImpl.Database.SwitchMemTable` | DailyDiary/Pods/leveldb-library/db/db_impl.cc:1370-1373 | the memtable becomes the one being saved and an empty one takes its place; nothing written is lost |
| `DbImpl.EntryList` | DailyDiary/Pods/leveldb-library/db/builder.cc:25-45 | walking a memtable yields exactly its entries in order |
| `DbImpl.Database.CompactMemTable` | DailyDiary/Pods/leveldb-library/db/db_impl.cc:534-565 | saving the memtable as a table of the current version loses nothing written |
| `DbImpl.Database.Get` | DailyDiary/Pods/leveldb-library/db/db_impl.cc:1109-1154 | looking in the memtable, the one being saved and the current version, and stopping at the first that has the key, reads what was ever written |
| `DbImpl.LayersRead` | DailyDiary/Pods/leveldb-library/db/db_impl.cc:1131-1142 | the first of three layers, each newer than the next, that has a visible entry of a user key decides the read |
| `DbImpl.AddIterators` | DailyDiary/Pods/leveldb-library/db/version_set.cc:234-251 | each table of level 0 and each level below as one list: sorted lists that hold all entries of the version, none twice |
| `DbImpl.Database.NewInternalIterator` | DailyDiary/Pods/leveldb-library/db/db_impl.cc:1066-1098 | the merging iterator over memtables and version: a client's view of its list has exactly the reads of the whole database, at every sequence number still served |
| `DbIter.ViewIsAllReads` | DailyDiary/Pods/leveldb-library/db/db_iter.cc:173-203 | the list of a view holds a key with a value if and only if reading the key at the sequence number gives that value |
| `DbIter.ViewIsOrdered` | DailyDiary/Pods/leveldb-library/db/db_iter.cc:173-203 | it lists each user key once, in increasing order |
| `DbIter.DBIter.Next` | DailyDiary/Pods/leveldb-library/db/db_iter.cc:146-171 | from any state that any moves lead to, the cursor goes to the next place of that list |
| `DbIter.DBIter.Prev` | DailyDiary/Pods/leveldb-library/db/db_iter.cc:205-230 | and to the place before, or off the list |
| `DbIter.DBIter.Seek` | DailyDiary/Pods/leveldb-library/db/db_iter.cc:274-286 | lands on the first key of the list at or after the target |
| `DbIter.DBIter.SeekToFirst` | DailyDiary/Pods/leveldb-library/db/db_iter.cc:288-297 | lands on the first place |
| `DbIter.DBIter.SeekToLast` | DailyDiary/Pods/leveldb-library/db/db_iter.cc:299-304 | lands on the last place, if there is one |
| `DbIter.DBIter.Key` | DailyDiary/Pods/leveldb-library/db/db_iter.cc:66-69 | the key shown is that of the list at the cursor, in either direction |
| `DbIter.DBIter.Value` | DailyDiary/Pods/leveldb-library/db/db_iter.cc:70-73 | the value shown is that of the list at the cursor, in either direction |
| `DbIter.DBIter.FindNextUserEntry` | DailyDiary/Pods/leveldb-library/db/db_iter.cc:173-203 | going forward stops at the first entry shown, having passed none |
| `DbIter.DBIter.FindPrevUserEntry` | DailyDiary/Pods/leveldb-library/db/db_iter.cc:232-272 | going back stops at the last entry shown, having passed none |
| `DbIter.ScanStep` | DailyDiary/Pods/leveldb-library/db/db_iter.cc:176-199 | passing an entry while going forward misses nothing; a visible deletion becomes the key to skip |
| `DbIter.BackStep` | DailyDiary/Pods/leveldb-library/db/db_iter.cc:236-262 | passing an entry while going back misses nothing |
| `Merger.MergingIterator.Next` | DailyDiary/Pods/leveldb-library/table/merger.cc:59-83 | the cursor goes to the next place of the merged list, whatever the direction before |
| `Merger.MergingIterator.Prev` | DailyDiary/Pods/leveldb-library/table/merger.cc:85-112 | and to the place before, or off the list |
| `Merger.MergingIterator.Seek` | DailyDiary/Pods/leveldb-library/table/merger.cc:51-57 | lands on the lower bound of the target in the merged list |
| `Merger.MergingIterator.SeekToFirst` | DailyDiary/Pods/leveldb-library/table/merger.cc:35-41 | lands on the first place |
| `Merger.MergingIterator.SeekToLast` | DailyDiary/Pods/leveldb-library/table/merger.cc:43-49 | lands on the last place, if there is one |
| `Merger.MergingIterator.Key` | DailyDiary/Pods/leveldb-library/table/merger.cc:114-117 | the key is that of the merged list at the cursor |
| `Merger.MergingIterator.Value` | DailyDiary/Pods/leveldb-library/table/merger.cc:119-122 | and the value |
| `Moves.MoveList` | DailyDiary/Pods/leveldb-library/include/leveldb/iterator.h:22-79 | after any moves an iterator over one list shows what a position in the list shows |
| `Moves.MoveMerged` | DailyDiary/Pods/leveldb-library/table/merger.cc:35-122 | after any moves the merging iterator shows what an iterator over the merged list shows |
| `Moves.MoveTable` | DailyDiary/Pods/leveldb-library/table/two_level_iterator.cc:91-170 | after any moves the iterator of a table shows what a position in the list of the table shows |
| `Moves.MoveDbIter` | DailyDiary/Pods/leveldb-library/db/db_iter.cc:66-304 | after any moves the iterator of the store shows what a position in its list of visible keys shows |
| `Moves.SeesTheSame` | DailyDiary/Pods/leveldb-library/include/leveldb/iterator.h:22-79 | so two iterators over one list cannot be told apart by any moves, and what is built on one may be given the other |
| `Merger.MergingIterator.TurnForward` | DailyDiary/Pods/leveldb-library/table/merger.cc:66-77 | the switch to forward puts every child but the current one at its first entry after the key |
| `Merger.MergingIterator.TurnBack` | DailyDiary/Pods/leveldb-library/table/merger.cc:92-108 | the switch to backward puts every child but the current one at its last entry before the key |
| `Merger.MergingIterator.FindSmallest` | DailyDiary/Pods/leveldb-library/table/merger.cc:155-168 | the current child is a valid one whose key no valid child's key precedes |
| `Merger.MergingIterator.FindLargest` | DailyDiary/Pods/leveldb-library/table/merger.cc:170-183 | the current child is a valid one whose key precedes no valid child's key |
| `Merger.MergingIterator.SmallestIsNext` | DailyDiary/Pods/leveldb-library/table/merger.cc:155-168 | when every child stands at its first entry from a place of the merged list on, the least of them is that place |
| `Merger.MergingIterator.LargestIsPrev` | DailyDiary/Pods/leveldb-library/table/merger.cc:170-183 | when every child stands at its last entry before a place, the greatest of them is the place before |
| `Log.UnmaskUndoesMask` | DailyDiary/Pods/leveldb-library/util/crc32c.h:24-40 | unmasking a masked checksum gives it back |
| `Log.Writer.AddRecord` | DailyDiary/Pods/leveldb-library/db/log_writer.cc:36-82 | appends exactly the fragments of the record, trailer and empty first fragment included, and ends |
| `Log.Writer.EmitPhysicalRecord` | DailyDiary/Pods/leveldb-library/db/log_writer.cc:84-109 | appends one physical record |
| `Log.Writer.Reopen` | DailyDiary/Pods/leveldb-library/db/log_writer.cc:28-31 | a writer reopened on existing contents goes on at their length |
| `Log.EmitUnfolds` | DailyDiary/Pods/leveldb-library/db/log_writer.cc:36-82 | a record is its first fragment and, unless that holds it all, more from the next block on |
| `Log.WholeIsLongest` | DailyDiary/Pods/leveldb-library/db/log_reader.cc:60-182 | the records wholly before a byte are the longest beginning of the list that fits before it |
| `Log.Reader.ParseRecord` | DailyDiary/Pods/leveldb-library/db/log_reader.cc:226-280 | from the bytes left of a block: beyond the buffer, zero type, bad checksum or a fragment, where parsing goes on and how often a corruption is reported |
| `Log.Reader.ReadPhysicalRecord` | DailyDiary/Pods/leveldb-library/db/log_reader.cc:199-281 | for any file: returns the type byte that stands at the position parsed up to, with its payload, or the number for the end of the file or for nothing usable, whatever was buffered, and goes on behind it |
| `Log.ParseIntact` | DailyDiary/Pods/leveldb-library/db/log_reader.cc:226-280 | where the file goes on with an intact physical record it is found if it is all there, and otherwise the end of the file is; nothing is reported |
| `Log.Reader.Assemble` | DailyDiary/Pods/leveldb-library/db/log_reader.cc:95-178 | what a fragment of a type that is neither of the two numbers does to the record being put together, and what counts as a corruption |
| `Log.Reader.ReadRecord` | DailyDiary/Pods/leveldb-library/db/log_reader.cc:60-182 | for any file: returns the first of the records that are to be read and leaves the rest to be read, reports included; a checked fragment whose type is the number for the end of the file ends the reading, and one of the next type is passed over |
| `Log.ReadFile` | DailyDiary/Pods/leveldb-library/db/log_reader.cc:60-281 | for any file: exactly the records and the number of reports that the specification gives |
| `Log.RecordRead` | DailyDiary/Pods/leveldb-library/db/log_reader.cc:95-178 | a record that the file goes on with is read if all its bytes are there, whatever part of another was put together before; otherwise nothing is |
| `Log.StreamRead` | DailyDiary/Pods/leveldb-library/db/log_reader.cc:60-281 | where the file goes on with records, cut off anywhere, exactly those wholly there are read, and nothing is reported but a record left incomplete before |
| `Log.ReadRecords` | DailyDiary/Pods/leveldb-library/db/log_reader.cc:60-281 | reading a log cut off at any byte gives exactly the records wholly before the cut, in order, with no corruption |
| `Log.WriteReopenRead` | DailyDiary/Pods/leveldb-library/db/log_writer.cc:22-109 | whatever is written before and after reopening, a read of the file cut off anywhere gives the records of both wholly before the cut |
| `LogDamage.ReadsUpTo` | DailyDiary/Pods/leveldb-library/db/log_reader.cc:226-262 | whatever a file holds, reading it comes to a block boundary, with what the file cut off there gives, if and only if it meets no checked fragment before whose type is the number for the end of the file; otherwise what is behind makes no difference |
| `LogDamage.Resynchronizes` | DailyDiary/Pods/leveldb-library/db/log_reader.cc:226-262 | whatever bytes come before a block boundary, all records that start behind it are read if and only if reading meets no such fragment before it, and of what lies across it at most one record |
| `LogDamage.TypeEndsReading` | DailyDiary/Pods/leveldb-library/db/log_reader.cc:152-158 | a file that begins with a checked fragment of that type reads as empty, and one of the next type is passed over without a report |
| `LogDamage.WholeBlockEndsReading` | DailyDiary/Pods/leveldb-library/db/log_reader.h:79-90 | one block with such a fragment hides all records behind it, whole as they are |
| `LogDamage.BehindTear` | DailyDiary/Pods/leveldb-library/db/db_impl.cc:455-463 | a writer reopened on a file torn at any byte: all records wholly before the tear are read, and all that start behind the end of its block unless reading meets such a fragment in it; then what is read is what the file up to the boundary gives |
| `LogDamage.TearCanEndReading` | DailyDiary/Pods/leveldb-library/db/db_impl.cc:455-463 | a checksum function and a tear in front of a type byte for which no record written behind the tear is read, in whatever block |
| `LogDamage.TornBetween` | DailyDiary/Pods/leveldb-library/db/db_impl.cc:455-463 | a tear between fragments, or in the fill of a block, loses no record written behind it |
| `LogDamage.TornWithin` | DailyDiary/Pods/leveldb-library/db/db_impl.cc:455-463 | a tear within a fragment loses exactly the records that start in its block, unless what stands there passes for a fragment; at the end of the file nothing is reported |
| `LogDamage.LostInSilence` | DailyDiary/Pods/leveldb-library/db/log_reader.cc:226-241 | when the torn header is there and the file ends before the length it tells, every record written behind it is lost and nothing is reported |
| `LogDamage.FailedAddition` | DailyDiary/Pods/leveldb-library/db/log_writer.cc:84-109 | an addition that fails behind its header has the same effect on a shorter record added after it |
| `LogDamage.WriteTearWriteRead` | DailyDiary/Pods/leveldb-library/db/log_writer.cc:22-109 | writing, tearing, reopening, writing on and reading: what comes of it, for any tear, with the same condition |
| `WriteBatches.BatchRoundTrip` | DailyDiary/Pods/leveldb-library/db/write_batch.cc:42-109 | every batch reports exactly the operations put into it, in order, and its sequence number |
| `WriteBatches.WriteBatch.Put` | DailyDiary/Pods/leveldb-library/db/write_batch.cc:98-103 | the representation stays that of the operations put in, one more at the end |
| `WriteBatches.WriteBatch.Delete` | DailyDiary/Pods/leveldb-library/db/write_batch.cc:105-109 | likewise for a deletion |
| `WriteBatches.WriteBatch.Append` | DailyDiary/Pods/leveldb-library/db/write_batch.cc:141-145 | the operations of the other batch come behind those of this one, count included |
| `WriteBatches.WriteBatch.SetSequence` | DailyDiary/Pods/leveldb-library/db/write_batch.cc:94-96 | changes the sequence number and no operation |
| `WriteBatches.WriteBatch.Iterate` | DailyDiary/Pods/leveldb-library/db/write_batch.cc:42-80 | reports the records up to the first fault, in order, with the outcome for any bytes: too small, unknown tag, bad record or wrong count |
| `WriteBatches.WriteBatch.InsertInto` | DailyDiary/Pods/leveldb-library/db/write_batch.cc:128-134 | appends one entry for each record reported, numbered from the batch's own sequence number |
| `WriteBatches.BatchIsAtomic` | DailyDiary/Pods/leveldb-library/db/write_batch.cc:111-134 | reading after a batch gives what its operations, in order, make of a key; until its last sequence number is visible, what was there before |
| `Recovery.SurvivorsExact` | DailyDiary/Pods/leveldb-library/db/db_impl.cc:413-450 | the commits that survive a cut are the most whose bytes all lie before it |
| `Recovery.RecoverRecord` | DailyDiary/Pods/leveldb-library/db/db_impl.cc:415-436 | a record's entries are inserted, those before its first fault, and the highest sequence number raised, in 64 bits; an error is returned exactly for a fault that is not to be ignored |
| `Recovery.EmptyBatchRaises` | DailyDiary/Pods/leveldb-library/db/db_impl.cc:430-436 | an empty batch at sequence number 0 raises the highest one to the greatest there is |
| `Recovery.RecoverLogFile` | DailyDiary/Pods/leveldb-library/db/db_impl.cc:365-486 | for any file: without an error tables and memtable together hold what replaying the records that can be read inserts, one after another, and their highest sequence number; there is an error exactly when errors are not to be ignored and a corruption was reported or a record has a fault |
| `Recovery.CommitsInFront` | DailyDiary/Pods/leveldb-library/db/db_impl.cc:413-450 | of a file that begins as the log of some commits, or is a beginning of it, the commits wholly in it are read first of all |
| `Recovery.RecoverCutLog` | DailyDiary/Pods/leveldb-library/db/db_impl.cc:365-486 | replaying a log cut off at any byte leaves exactly the entries of the commits wholly before the cut, and their highest sequence number |
| `GroupCommit.GroupIsUnique` | DailyDiary/Pods/leveldb-library/db/db_impl.cc:1266-1314 | a queue has one group, and a sync write joins none that a non-sync one leads |
| `GroupCommit.GroupCount` | DailyDiary/Pods/leveldb-library/db/db_impl.cc:1266-1314 | a group within its size has no more operations than a batch can count |
| `GroupCommit.StepKeeps` | DailyDiary/Pods/leveldb-library/db/db_impl.cc:1194-1264 | every step, in whatever order writers come and errors strike, keeps the protocol's invariant |
| `GroupCommit.RunKeeps` | DailyDiary/Pods/leveldb-library/db/db_impl.cc:1194-1264 | so it holds in every state of every run |
| `GroupCommit.LoggedOnceInOrder` | DailyDiary/Pods/leveldb-library/db/db_impl.cc:1194-1264 | in every state of every run: writers left in order and once each, each group is a stretch of the queue behind the one before, sequence numbers rise and are shared by no two operations, no sync write is in a group with a non-sync leader; each writer left with its group's status, success exactly when the group was inserted and, for a sync write, durable |
| `GroupCommit.ReleaseIsEnabled` | DailyDiary/Pods/leveldb-library/db/db_impl.cc:1248-1257 | the writers of a finished group can always leave |
| `GroupCommit.SyncedSurvives` | DailyDiary/Pods/leveldb-library/db/db_impl.cc:1222-1242 | after a crash that cuts the log behind what was synced, every writer told that its synced batch succeeded is in a group that is found whole, or in one added behind bytes that a failed addition left; first of all, and without such bytes nothing else, the whole groups are read |
| `GroupCommit.CommitsRead` | DailyDiary/Pods/leveldb-library/db/db_impl.cc:1232-1234 | the entries of whole commits read as their operations do, one after another |
| `GroupCommit.ReadersSeeWholeGroups` | DailyDiary/Pods/leveldb-library/db/db_impl.cc:1232-1246 | in every state of every run a reader at the published sequence number sees the finished groups, one after another, and nothing of a group being inserted |
| `GroupCommit.RecoverAfterCrash` | DailyDiary/Pods/leveldb-library/db/db_impl.cc:365-486 | whatever a crash leaves of the log of any run, recovery inserts first of all the entries of the groups left whole in front of any such bytes; when the file does not go on behind these, it makes the store that the operations of the groups make |
| `GroupCommit.DBImpl.BuildBatchGroup` | DailyDiary/Pods/leveldb-library/db/db_impl.cc:1266-1314 | the batch built holds exactly the operations of the one group at the front of the queue, and no caller's batch is changed |
| `GroupCommit.DBImpl.FinishGroup` | DailyDiary/Pods/leveldb-library/db/db_impl.cc:1248-1262 | exactly the group's writers leave the queue, all but the leader marked done with the group's status |
| `Blocks.BlockBuilder.Add` | DailyDiary/Pods/leveldb-library/table/block_builder.cc:73-107 | adds the entry behind the others, prefix-compressed unless at a restart |
| `Blocks.BlockBuilder.BeginEntry` | DailyDiary/Pods/leveldb-library/table/block_builder.cc:80-96 | how much of the key is shared, and which entries begin a restart block |
| `Blocks.BlockBuilder.Finish` | DailyDiary/Pods/leveldb-library/table/block_builder.cc:63-71 | the finished bytes are those of the list of entries |
| `Blocks.BlockBuilder.CurrentSizeEstimate` | DailyDiary/Pods/leveldb-library/table/block_builder.cc:57-61 | the estimate is the size of the finished block |
| `Blocks.HeaderRoundTrip` | DailyDiary/Pods/leveldb-library/table/block.cc:53-75 | the three lengths parse back, fast path or varints |
| `Blocks.DecodeEntry` | DailyDiary/Pods/leveldb-library/table/block.cc:53-75 | both paths decode the lengths as specified, and refuse what does not fit |
| `Blocks.EntryRoundTrip` | DailyDiary/Pods/leveldb-library/table/block.cc:226-253 | at an entry's offset its shared length, its own part of the key and its value are found, and then the next entry's offset |
| `Blocks.BlockIter.ParseNextKey` | DailyDiary/Pods/leveldb-library/table/block.cc:226-253 | parsing on moves to the entry, or off the end, rebuilding its key |
| `Blocks.BlockIter.Next` | DailyDiary/Pods/leveldb-library/table/block.cc:139-142 | goes to the next entry |
| `Blocks.BlockIter.Prev` | DailyDiary/Pods/leveldb-library/table/block.cc:144-163 | goes to the entry before, or off the list: the inverse of Next |
| `Blocks.BlockIter.Seek` | DailyDiary/Pods/leveldb-library/table/block.cc:165-203 | binary search over restarts and a scan land on the first key at or after the target of the whole list |
| `Blocks.BlockIter.SeekToFirst` | DailyDiary/Pods/leveldb-library/table/block.cc:205-208 | goes to the first entry |
| `Blocks.BlockIter.SeekToLast` | DailyDiary/Pods/leveldb-library/table/block.cc:210-215 | goes to the last entry |
| `Blocks.BuildAndRead` | DailyDiary/Pods/leveldb-library/table/block_builder.cc:63-107 | for any strictly increasing list and any restart interval from 1, the block reads back as the list and a search finds the first key at or after the target |
| `Blocks.ThereAndBack` | DailyDiary/Pods/leveldb-library/table/block.cc:139-163 | Prev after Next, and Next after Prev, is where one was, and shows the same entry |
| `Comparators.InternalRankEmbeds` | DailyDiary/Pods/leveldb-library/db/dbformat.cc:50-66 | the rank of an encoded internal key orders as the comparator does |
| `Comparators.Compare` | DailyDiary/Pods/leveldb-library/db/dbformat.cc:50-66 | the comparator on encoded keys is negative, positive or zero as their ranks compare |
| `Comparators.SeparatorBetween` | DailyDiary/Pods/leveldb-library/util/comparator.cc:29-51 | the separator is the start itself, or no longer and strictly between start and limit |
| `Comparators.SuccessorAfter` | DailyDiary/Pods/leveldb-library/util/comparator.cc:53-64 | the successor is the key itself, or no longer and strictly after it |
| `Comparators.FindShortestSeparator` | DailyDiary/Pods/leveldb-library/util/comparator.cc:29-51 | the loop shortens in place to that separator |
| `Comparators.FindShortSuccessor` | DailyDiary/Pods/leveldb-library/util/comparator.cc:53-64 | the loop shortens in place to that successor |
| `Comparators.InternalSeparatorBetween` | DailyDiary/Pods/leveldb-library/db/dbformat.cc:68-85 | a shortened index key is not before the one key and before the other, and unless it is the first key itself it has neither's user key |
| `Comparators.InternalSuccessorAfter` | DailyDiary/Pods/leveldb-library/db/dbformat.cc:87-99 | the last index key is not before the last key, and has its user key only if it is that key |
| `Filters.BloomFilterPolicy.CreateFilter` | DailyDiary/Pods/leveldb-library/util/bloom.cc:35-61 | the filter appended lets every key through that it was made of |
| `Filters.BloomFilterPolicy.AddKey` | DailyDiary/Pods/leveldb-library/util/bloom.cc:50-60 | sets all probes of the key and clears no bit |
| `Filters.BloomFilterPolicy.KeyMayMatch` | DailyDiary/Pods/leveldb-library/util/bloom.cc:63-87 | says whether all probes are set; reserved encodings match, too short ones do not |
| `Filters.FilterBlockBuilder.StartBlock` | DailyDiary/Pods/leveldb-library/table/filter_block.cc:22-28 | a new block offset keeps every key added filed under its block |
| `Filters.FilterBlockBuilder.AddKey` | DailyDiary/Pods/leveldb-library/table/filter_block.cc:30-34 | a key is filed under the current block |
| `Filters.FilterBlockBuilder.GenerateFilter` | DailyDiary/Pods/leveldb-library/table/filter_block.cc:52-76 | one more filter, made of the keys that wait, if any |
| `Filters.FilterBlockBuilder.Finish` | DailyDiary/Pods/leveldb-library/table/filter_block.cc:36-50 | the block holds the filters, where each begins, where that array begins and the base |
| `Filters.AddedMayMatch` | DailyDiary/Pods/leveldb-library/table/filter_block.cc:78-109 | every key ever added may match at the offset of the block it was added in |
| `Tables.HandleRoundTrip` | DailyDiary/Pods/leveldb-library/table/format.cc:15-30 | a block handle parses back |
| `Tables.TableBuilder.Add` | DailyDiary/Pods/leveldb-library/table/table_builder.cc:92-121 | adds the entry behind the others; the layout of the blocks written stays that of a table |
| `Tables.TableBuilder.SeparatorSplits` | DailyDiary/Pods/leveldb-library/table/table_builder.cc:100-107 | the delayed index key splits the list right after the block |
| `Tables.TableBuilder.Flush` | DailyDiary/Pods/leveldb-library/table/table_builder.cc:123-137 | the data block is written and its index entry is pending, if there was anything in it |
| `Tables.TableBuilder.WriteBlock` | DailyDiary/Pods/leveldb-library/table/table_builder.cc:139-173 | appends the block and its trailer and returns where it is |
| `Tables.TableBuilder.Finish` | DailyDiary/Pods/leveldb-library/table/table_builder.cc:199-254 | the file, up to 2^64 bytes of it, is a table of exactly the entries added, with its filter, metaindex, index and footer |
| `TableReaders.ReadBlock` | DailyDiary/Pods/leveldb-library/table/format.cc:65-142 | reads back contents stored at a handle, checksum checked or not |
| `TableReaders.Open` | DailyDiary/Pods/leveldb-library/table/table.cc:38-89 | opens any such file whose blocks are below 2^32 bytes, and finds its filter if it has one and a policy is in use |
| `TableReaders.ReadMeta` | DailyDiary/Pods/leveldb-library/table/table.cc:91-118 | finds the filter through the metaindex, or that there is none |
| `TableReaders.SepSplits` | DailyDiary/Pods/leveldb-library/table/table.cc:226-255 | the index key of a block is not before its entries and before all later ones |
| `TableReaders.SeekLands` | DailyDiary/Pods/leveldb-library/table/two_level_iterator.cc:91-96 | searching the index and then one block lands on the first entry of the table at or after the target |
| `TableReaders.NextUserIsLater` | DailyDiary/Pods/leveldb-library/table/table.cc:226-255 | at the end of the block that the index search chose, the next entry has another user key |
| `TableReaders.InternalGet` | DailyDiary/Pods/leveldb-library/table/table.cc:226-255 | reports the first entry at or after the key whenever it has the key's user key, across block boundaries and whatever a filter without false negatives says |
| `TableReaders.TwoLevelIterator.Seek` | DailyDiary/Pods/leveldb-library/table/two_level_iterator.cc:91-96 | lands on the lower bound of the target in the table's list |
| `TableReaders.TwoLevelIterator.SeekToFirst` | DailyDiary/Pods/leveldb-library/table/two_level_iterator.cc:98-103 | lands on the first entry |
| `TableReaders.TwoLevelIterator.SeekToLast` | DailyDiary/Pods/leveldb-library/table/two_level_iterator.cc:105-110 | lands on the last entry |
| `TableReaders.TwoLevelIterator.Next` | DailyDiary/Pods/leveldb-library/table/two_level_iterator.cc:112-116 | goes to the next entry, across blocks |
| `TableReaders.TwoLevelIterator.Prev` | DailyDiary/Pods/leveldb-library/table/two_level_iterator.cc:118-122 | goes to the entry before, across blocks, or off the list |
| `TableReaders.TwoLevelIterator.SkipEmptyDataBlocksForward` | DailyDiary/Pods/leveldb-library/table/two_level_iterator.cc:125-136 | an exhausted block counts as the start of the next |
| `TableReaders.TwoLevelIterator.SkipEmptyDataBlocksBackward` | DailyDiary/Pods/leveldb-library/table/two_level_iterator.cc:138-149 | an exhausted block counts as the end of the one before |
| `TableReaders.TwoLevelIterator.InitDataBlock` | DailyDiary/Pods/leveldb-library/table/two_level_iterator.cc:156-170 | the data iterator is over the index iterator's block, kept when it was already |
| `TableReaders.ReadBack` | DailyDiary/Pods/leveldb-library/table/table.cc:38-255 | a table file whose blocks are below 2^32 bytes, however long the file, is opened, walked and searched as the list it was made of |
| `TableReaders.BuildAndReadTable` | DailyDiary/Pods/leveldb-library/table/table_builder.cc:92-254 | a table built from any sorted list, with any block size, restart interval and filter, reads back as that list, and a lookup of any key finds what is there; it is too big for this exactly if the file has 2^32 bytes or more |
| `Coding.EncodeVarint32` | DailyDiary/Pods/leveldb-library/util/coding.cc:47-73 | the branches write the varint |
| `Coding.EncodeVarint64` | DailyDiary/Pods/leveldb-library/util/coding.cc:81-90 | the loop writes the varint |
| `Coding.DecodeVarint` | DailyDiary/Pods/leveldb-library/util/coding.cc:112-158 | the loops of both decoders parse at most so many bytes, in a word of the given size |
| `Coding.Varint32RoundTrip` | DailyDiary/Pods/leveldb-library/util/coding.cc:47-141 | a 32-bit varint parses back, with what follows |
| `Coding.Varint64RoundTrip` | DailyDiary/Pods/leveldb-library/util/coding.cc:81-170 | a 64-bit varint parses back, with what follows |
| `Coding.VarintTruncated` | DailyDiary/Pods/leveldb-library/util/coding.cc:112-158 | a varint cut short does not parse |
| `Coding.LengthPrefixedRoundTrip` | DailyDiary/Pods/leveldb-library/util/coding.cc:98-191 | a length-prefixed string parses back, with what follows |
| `VersionEdits.EditRoundTrip` | DailyDiary/Pods/leveldb-library/db/version_edit.cc:41-210 | decoding an encoded edit succeeds if and only if every level is a level of the store, and then gives the edit back, behind the compaction pointers that were there |
| `VersionEdits.ScanRoundTrip` | DailyDiary/Pods/leveldb-library/db/version_edit.cc:109-210 | the records printed parse back up to the first whose level is out of range, which is an error |
| `VersionEdits.ItemRoundTrip` | DailyDiary/Pods/leveldb-library/db/version_edit.cc:41-210 | each kind of record parses back, or is refused exactly for its level |
| `VersionEdits.ItemsMakeEdit` | DailyDiary/Pods/leveldb-library/db/version_edit.cc:41-86 | the records of an edit, applied in order, make the edit |
| `VersionEdits.VersionEdit.EncodeTo` | DailyDiary/Pods/leveldb-library/db/version_edit.cc:41-86 | writes the records of the fields set, in the order of the source |
| `VersionEdits.VersionEdit.DecodeFrom` | DailyDiary/Pods/leveldb-library/db/version_edit.cc:109-210 | for any bytes: applies the records up to the first fault and says which fault |
| `VersionEdits.VersionEdit.Clear` | DailyDiary/Pods/leveldb-library/db/version_edit.cc:26-39 | forgets everything but the compaction pointers |
| `VersionEdits.VersionEdit.DeleteFile` | DailyDiary/Pods/leveldb-library/db/version_edit.h:75-77 | adds the pair to the set, which stays in order |
| `VersionEdits.EncodeAndDecode` | DailyDiary/Pods/leveldb-library/db/version_edit.cc:41-210 | the round trip through both methods |
| `Manifests.RecoverEdit` | DailyDiary/Pods/leveldb-library/db/version_set.cc:945-977 | a record is decoded, its comparator compared, the edit applied and its numbers noted |
| `Manifests.ReadManifest` | DailyDiary/Pods/leveldb-library/db/version_set.cc:939-1003 | a manifest cut off at any byte has exactly the edits wholly before the cut applied, in order; it fails exactly at another comparator or a missing number |
| `Manifests.Recover` | DailyDiary/Pods/leveldb-library/db/version_set.cc:905-1025 | the version recovered from a manifest cut off at any byte is what applying and saving those edits one at a time makes |
| `FileRefs.VersionStore.Ref` | DailyDiary/Pods/leveldb-library/db/version_set.cc:482-484 | one more use of the current version |
| `FileRefs.VersionStore.Unref` | DailyDiary/Pods/leveldb-library/db/version_set.cc:486-493 | the last use of a version that is not current deletes it, and its references to files with it |
| `FileRefs.VersionStore.DeleteVersion` | DailyDiary/Pods/leveldb-library/db/version_set.cc:66-84 | after unlinking, every record's references are the versions that hold it, and records without any are gone |
| `FileRefs.VersionStore.Prepare` | DailyDiary/Pods/leveldb-library/db/version_set.cc:820-848 | the new version holds exactly the base's files not deleted and the files added; no other version changes, and the builder leaves no reference |
| `FileRefs.VersionStore.AppendVersion` | DailyDiary/Pods/leveldb-library/db/version_set.cc:803-818 | the new version becomes current with the files it has; the one before goes unless it is in use |
| `FileRefs.VersionStore.Abandon` | DailyDiary/Pods/leveldb-library/db/version_set.cc:889-900 | after a failed write of the manifest the new version is gone, nothing else has changed and no file is removed any more |
| `FileRefs.VersionStore.AddLiveFiles` | DailyDiary/Pods/leveldb-library/db/version_set.cc:1185-1196 | adds exactly the table numbers of the linked versions |
| `FileRefs.VersionStore.DeleteObsoleteFiles` | DailyDiary/Pods/leveldb-library/db/db_impl.cc:218-272 | removes exactly the files not needed; the tables of all versions stay if and only if removal is off, no edit is being logged, or the tables of that edit's version are in use or pending |
| `FileRefs.GainKeeps` | DailyDiary/Pods/leveldb-library/db/version_set.cc:759-771 | a version that takes one more record and counts it keeps all counts exact |
| `FileRefs.LoseKeeps` | DailyDiary/Pods/leveldb-library/db/version_set.cc:74-83 | a version that gives up a record, deleted with its last reference, keeps all counts exact and leaves no version a deleted record |
| `FileRefs.Run` | DailyDiary/Pods/leveldb-library/db/version_set.cc:643-818 | in every run of reads, outputs, edits logged or not and removals by one background worker, every record is counted exactly and every table of every version, and every output being written, is in the directory |
| `FileRefs.CollectWhileLogging` | DailyDiary/Pods/leveldb-library/db/db_impl.cc:488-565 | a run that removes files while an edit is being logged loses a table of the new version |
| `SkipLists.LinkingKeepsOk` | DailyDiary/Pods/leveldb-library/db/skiplist.h:363-369 | putting a node on a level leaves every level a sorted chain and a part of the one below |
| `SkipLists.OwnLinkKeepsOk` | DailyDiary/Pods/leveldb-library/db/skiplist.h:365-367 | so does setting a node's own link above the levels it is on |
| `SkipLists.SearchAmongInserts` | DailyDiary/Pods/leveldb-library/db/skiplist.h:262-370 | a search interleaved with inserts of nodes of any height, one link read or written at a time, ends with the first node at or after its key of the list as it is at the last read |
| `SkipLists.SkipList.SearchStep` | DailyDiary/Pods/leveldb-library/db/skiplist.h:266-281 | one read, a turn of such a search, goes right, goes down or stops, with what that means on the list as it is |
| `SkipLists.SkipList.FindGreaterOrEqual` | DailyDiary/Pods/leveldb-library/db/skiplist.h:262-282 | returns the first node at or after the key, and on each level the last node before it |
| `SkipLists.SkipList.FindLessThan` | DailyDiary/Pods/leveldb-library/db/skiplist.h:284-302 | returns the last node before the key, or the head |
| `SkipLists.SkipList.FindLast` | DailyDiary/Pods/leveldb-library/db/skiplist.h:304-322 | returns the last node, or the head of an empty list |
| `SkipLists.SkipList.SetOwnLink` | DailyDiary/Pods/leveldb-library/db/skiplist.h:364-367 | the first write of a level is one turn of a writer and keeps the list whole |
| `SkipLists.SkipList.SetPrevLink` | DailyDiary/Pods/leveldb-library/db/skiplist.h:368 | the second write is one turn that puts the node on the level and keeps the list whole |
| `SkipLists.SkipList.Insert` | DailyDiary/Pods/leveldb-library/db/skiplist.h:336-370 | adds exactly one node with the entry, for any height drawn, by two turns of a writer for each level |
| `SkipLists.SkipList.Contains` | DailyDiary/Pods/leveldb-library/db/skiplist.h:372-381 | says whether a node has the key |
| `SkipLists.Iterator.Next` | DailyDiary/Pods/leveldb-library/db/skiplist.h:207-211 | goes to the node that follows on the lowest level |
| `SkipLists.Iterator.Prev` | DailyDiary/Pods/leveldb-library/db/skiplist.h:213-222 | goes to the node that the current one follows, by a search |
| `SkipLists.Iterator.Seek` | DailyDiary/Pods/leveldb-library/db/skiplist.h:224-227 | goes to the first node at or after the key |
| `SkipLists.MemTable.Add` | DailyDiary/Pods/leveldb-library/db/memtable.cc:82-106 | adds exactly the entry |
| `SkipLists.MemTable.Get` | DailyDiary/Pods/leveldb-library/db/memtable.cc:108-143 | finds the newest entry at or below the sequence number: its value or that it is a deletion; or that there is none |
| `HandleTables.HandleTable.FindPointer` | DailyDiary/Pods/leveldb-library/util/cache.cc:116-123 | finds the handle that matches in its bucket, or that none in the table does |
| `HandleTables.HandleTable.Lookup` | DailyDiary/Pods/leveldb-library/util/cache.cc:76-78 | returns the one handle with the key, or that there is none |
| `HandleTables.HandleTable.Insert` | DailyDiary/Pods/leveldb-library/util/cache.cc:80-94 | adds the handle and takes out exactly the one with its key, if any, through a resize too |
| `HandleTables.HandleTable.Remove` | DailyDiary/Pods/leveldb-library/util/cache.cc:96-104 | takes out exactly the handle with the key, if any |
| `HandleTables.HandleTable.Resize` | DailyDiary/Pods/leveldb-library/util/cache.cc:125-149 | relinks every handle into at least as many buckets as there are entries, losing and doubling none |
| `HandleTables.HandleTable.KeysUnique` | DailyDiary/Pods/leveldb-library/util/cache.cc:71-123 | no two handles in the table have the same key |
| `LruCaches.LRUCache.Ref` | DailyDiary/Pods/leveldb-library/util/cache.cc:221-227 | a client's reference; an entry that had none leaves the LRU ring for the end of the other |
| `LruCaches.LRUCache.Unref` | DailyDiary/Pods/leveldb-library/util/cache.cc:229-240 | the last client's reference of a cached entry dropped makes it the newest of the LRU ring |
| `LruCaches.LRUCache.LRURemove` | DailyDiary/Pods/leveldb-library/util/cache.cc:242-245 | two link writes take an entry off its ring and keep both rings whole |
| `LruCaches.LRUCache.LRUAppend` | DailyDiary/Pods/leveldb-library/util/cache.cc:247-253 | four link writes make an entry the newest of a ring and keep both rings whole |
| `LruCaches.LRUCache.Lookup` | DailyDiary/Pods/leveldb-library/util/cache.cc:255-262 | hands out the one entry with the key, counted, or none if there is none |
| `LruCaches.LRUCache.Release` | DailyDiary/Pods/leveldb-library/util/cache.cc:264-267 | takes a handle back; the entry is freed exactly when no client has it and it is not cached |
| `LruCaches.LRUCache.FinishErase` | DailyDiary/Pods/leveldb-library/util/cache.cc:307-316 | an entry leaves rings and usage but stays with its clients |
| `LruCaches.LRUCache.Insert` | DailyDiary/Pods/leveldb-library/util/cache.cc:269-303 | replaces exactly the entry with the key, hands out the new one, and drops the least recently used unreferenced ones while over capacity and no longer: then usage is within capacity or every entry is in use |
| `LruCaches.LRUCache.Erase` | DailyDiary/Pods/leveldb-library/util/cache.cc:318-321 | nothing with the key is cached any more; a client's entry stays with it |
| `LruCaches.LRUCache.Prune` | DailyDiary/Pods/leveldb-library/util/cache.cc:323-333 | drops exactly the entries no client holds |
| `Proto.FieldIter.Begin` | DailyDiary/Pods/nanopb/pb_common.c:8-18 | stands on the first field, and says whether there is one |
| `Proto.FieldIter.Next` | DailyDiary/Pods/nanopb/pb_common.c:20-76 | goes on, and round to the first after the last; the count of required fields passed follows |
| `Proto.FieldIter.Find` | DailyDiary/Pods/nanopb/pb_common.c:78-95 | finds the field with the tag wherever it starts, or stays and says there is none |
| `ProtoEncode.EncodeItem` | DailyDiary/Pods/nanopb/pb_encode.c:734-869 | each value is written as the wire format says, exactly when it can be and fits |
| `ProtoEncode.EncodeArray` | DailyDiary/Pods/nanopb/pb_encode.c:126-211 | an array is written packed, after a sizing pass, or entry by entry, in both sizing and writing streams |
| `ProtoEncode.EncodeField` | DailyDiary/Pods/nanopb/pb_encode.c:307-394 | a field is written by its rule: always, if present, each entry, or if chosen |
| `ProtoEncode.Encode` | DailyDiary/Pods/nanopb/pb_encode.c:494-516 | all fields are written in order, exactly when they can be and fit |
| `ProtoEncode.EncodeSubmessage` | DailyDiary/Pods/nanopb/pb_encode.c:682-730 | the second pass writes exactly what the first counted, so the size never changes in between |
| `ProtoEncode.EncodeToBuffer` | DailyDiary/Pods/nanopb/pb_encode.c:494-543 | the size found without writing is that of what is written, and a buffer is large enough if and only if it holds that size |
| `ProtoDecode.IStream.DecodeVarint32` | DailyDiary/Pods/nanopb/pb_decode.c:182-248 | a 32-bit varint decodes to its value and no further byte is read |
| `ProtoDecode.IStream.DecodeVarint` | DailyDiary/Pods/nanopb/pb_decode.c:250-271 | a 64-bit varint decodes to its value and no further byte is read |
| `ProtoDecode.IStream.DecodeTag` | DailyDiary/Pods/nanopb/pb_decode.c:293-314 | a tag decodes to wire type and number |
| `ProtoDecode.IStream.Read` | DailyDiary/Pods/nanopb/pb_decode.c:100-134 | reads so many bytes exactly when so many are left |
| `ProtoDecode.IStream.MakeStringSubstream` | DailyDiary/Pods/nanopb/pb_decode.c:367-380 | the substream has just the length-prefixed bytes, and the stream what follows them |
| `ProtoDecode.IStream.CloseStringSubstream` | DailyDiary/Pods/nanopb/pb_decode.c:382-398 | the stream goes on behind the substream, whatever of it was read |
| `ProtoDecode.DecodeInt` | DailyDiary/Pods/nanopb/pb_decode.c:1289-1372 | integers of every size and sign survive the varint types |
| `ProtoDecode.SignedSame` | DailyDiary/Pods/nanopb/pb_decode.c:1289-1324 | a value in range survives sign extension, truncation and the cast to its size |
| `ProtoDecode.ZigzagSame` | DailyDiary/Pods/nanopb/pb_decode.c:1240-1252 | a zigzag-coded value decodes to itself |
| `ProtoDecode.DecodeString` | DailyDiary/Pods/nanopb/pb_decode.c:1428-1461 | a string is accepted if and only if its array has room for it and a terminator, and then restored |
| `ProtoDecode.DecodeStaticField` | DailyDiary/Pods/nanopb/pb_decode.c:401-475 | what follows a tag is decoded into its member by the rule of the field, with the presence flag, count or choice |
| `ProtoDecode.DecodePacked` | DailyDiary/Pods/nanopb/pb_decode.c:415-441 | a packed array is decoded until its length is used up |
| `ProtoDecode.SetToDefaults` | DailyDiary/Pods/nanopb/pb_decode.c:812-899 | every member, of submessages too, holds its default and nothing is present |
| `ProtoDecode.MarkSeen` | DailyDiary/Pods/nanopb/pb_decode.c:988-993 | sets the bit of one required field and no other |
| `ProtoDecode.CheckRequired` | DailyDiary/Pods/nanopb/pb_decode.c:1006-1046 | is satisfied if and only if every tracked required field was seen |
| `ProtoDecode.IStream.SkipField` | DailyDiary/Pods/nanopb/pb_decode.c:273-326 | a field that is not known is passed over whole, by the wire type of its tag |
| `ProtoDecode.DecodeNoinit` | DailyDiary/Pods/nanopb/pb_decode.c:901-1049 | the encoding of any good message is decoded in full and restores it, and so is one with any fields of tags that the descriptor does not have in front of, between and behind its own, in submessages likewise |
| `ProtoDecode.DecodeSubmessage` | DailyDiary/Pods/nanopb/pb_decode.c:1463-1485 | a submessage is decoded from its length-prefixed bytes, whether these are its plain encoding or one with unknown fields |
| `ProtoDecode.Decode` | DailyDiary/Pods/nanopb/pb_decode.c:1051-1063 | likewise into a struct that held anything before |
| `ProtoDecode.EncodeAndDecode` | DailyDiary/Pods/nanopb/pb_encode.c:494-543 | a message encoded into a buffer and decoded again comes back: every present field, count and oneof choice, submessages and packed arrays included |
| `Bits.SameBits` | DailyDiary/Pods/nanopb/pb_decode.c:1029-1044 | a word is known by its bits, so comparing words compares required fields |

## Left out

- VersionSets.VersionSet.CompactFiles: a compaction is one step; the memtable flush that db_impl.cc:918-927 allows in the middle of one is a step before or after it.
- Compaction.CompactionJob.DoCompactionWork: the smallest snapshot is below the greatest sequence number there is, as it is in any store.
- LogDamage.TornWithin: when what stands at the tear passes for a fragment, by its checksum, `LogDamage.BehindTear` says what is read.
- Log.Reader.ReadRecord: reading from an offset other than 0 is left out, and reports are counted without their byte counts.
- Log.Writer.AddRecord: an addition that fails is not modelled in the writer, which then counts bytes it did not write into its block offset.
- GroupCommit.StepKeeps: one log file; the switch of memtable and log inside MakeRoomForWrite, sleeps and condition variables are not modelled, and of an AddRecord that fails only whether it left bytes in the log.
- Filters.FilterBlockBuilder.AddKey: a table's filter is given user keys when they are added instead of when the filter is made.
- Tables.TableBuilder.Finish: blocks are stored uncompressed; Snappy is not part of this model, nor are I/O errors.
- TableReaders.Open: says nothing of files that are no tables.
- DbImpl.Database.NewInternalIterator: `DbIter.DBIter` has a cursor on a list as its child; that the merging iterator shows the same is `Moves.MoveMerged`, but the classes are not linked, there being one class of child iterators.
- DbImpl.Database.Write: the log and the queue of writers are `GroupCommit`; here a group is inserted in one go.
- VersionEdits.VersionEdit.EncodeTo: the assertion that an encoded internal key is not empty is not modelled; empty ones round-trip.
- Manifests.Recover: next file number, log and sequence numbers are returned as read; the marks that MarkFileNumberUsed makes before they are overwritten, compaction pointers and the reuse of the manifest are not modelled.
- FileRefs.VersionStore.Apply: every added file gets a record that the builder drops; the source's set keeps one of two equal ones and leaks the other, so an edit must not add a file twice.
- LruCaches.LRUCache.Insert: capacity is positive; capacity 0, which caches nothing, sharding and the deleter are left out.
- SkipLists.SkipList.Insert: memory is sequentially consistent, and a node's entry is a value instead of encoded bytes.
- ProtoDecode.DecodeNoinit: callbacks, extensions, pointer fields, fixed-count arrays and implicit presence are left out, a struct is a value with a member for each field instead of bytes at offsets, the members of a oneof do not share storage, and over-long varints keep an unbounded bit position.
- Compaction scores, seek-based triggers, statistics, manual compaction, approximate sizes, repair, the file environment, the C interface and logging: easy or I/O.
- The Swift application, Firebase, GTMSessionFetcher and SVProgressHUD: user interface, network or declarations.
