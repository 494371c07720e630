# LevelDB and nanopb: a verified model

Two libraries that are vendored in this repository carry its data: LevelDB (`RNDM/Pods/leveldb-library`),
which stores it, and nanopb (`RNDM/Pods/nanopb`), which encodes it. This project models both in Dafny 4.11
and proves what they are for. `dafny verify dfyconfig.toml` checks all of it.

## The storage engine

User keys are reached only through a comparator, so they are elements of an arbitrary countable total order
(module `Keys`; the order is embedded in `real`). The plain meaning of the database is a map after n
operations (`VersionedMap`).

| modules | what they hold |
|---|---|
| `Versions`, `Overlap`, `CompactionInputs` | files, levels, `Version::Get`, range queries, the choice of compaction inputs |
| `CompactionLoop` | `DoCompactionWork` with rule (A), obsolete deletion markers and the cursors of `IsBaseLevelForKey` |
| `VersionEdits`, `ManifestBuilder`, `EditCodec` | version edits, `Builder`, MANIFEST replay, the bytes of a record |
| `Lsm` | the state machine: Write, memtable switch, flush, trivial move, begin and install of a compaction, snapshots, pinned versions, garbage collection; and its invariant `Inv` |
| `LsmWrites`, `LsmFlush`, `LsmCompaction`, `Recovery`, `LsmRecovery` | each step keeps `Inv`; so does a crash followed by recovery |
| `LsmRuns` | runs of these steps and the main theorems |
| `LsmBoundary` | two weak spots of the code, as exact conditions and concrete states |
| `DbImpl` | class `DBImpl`: the operations of `db_impl.cc` on fields, each of them a step of `Lsm` |
| `MemTable`, `SkipLists` | the memtable, and the skip list under concurrent readers |
| `WriteBatches`, `WriteQueues` | write batches as bytes, and group commit |

The invariant says, among other things: levels 1 and up are sorted and disjoint; for every user key each
entry in a shallower place is newer than each entry in a deeper one; the logs from `LogNumber()` on replay to
exactly the operations that are in no table; every table of a live version or pending output is on disk; and
reads at the last sequence number and at every held snapshot see the plain map.

A compaction is two steps, Begin and Install, and other steps, flushes included, may come between them.

## What the code does not guarantee

* `SetupOtherInputs` closes the inputs of `level` under boundary user keys, but not those of `level+1`
  (`db/version_set.cc:1407-1422`). If an older entry of a compacted key lies in a `level+1` file that was left
  out, a dropped deletion marker uncovers it. `LsmBoundary.DeletionUndone` is such a case, reached from
  a new database by the run of `LsmSplitRun`;
  `LsmBoundary.ReadsSurviveIff` says exactly when reads survive. The step Begin therefore has the guard
  `TombstonesClosed`: no older entry of a dropped marker's key lies in a `level+1` file that is left out. Newer
  ones may. Inputs of `level+1` closed under boundary keys satisfy it (`LsmBoundary.ClosureDischargesGuard`).
* A manual compaction may have gaps between its inputs (`db/version_set.cc:1464-1487`), and a table flushed
  meanwhile may land in a gap (`LsmBoundary.FlushIntoGap`). The outputs then trip the assertion of the Builder.
  `LsmCompaction.InstallSoundIff` says that this assertion is exactly what installation needs, and
  `LsmCompaction.CoveredCanInstall` that it holds whenever the inputs have no gap, as those of `PickCompaction`.
* With `reuse_logs`, which is off by default, a log and a MANIFEST are gone on with at their size, whatever their
  last bytes are (`db/db_impl.cc:457-476`, `db/version_set.cc:1013-1041`). If the process died inside the last
  physical record, the next record added to its block is swallowed by it, and a write that was acknowledged is
  lost at the next recovery. `LogReuse.AddedRecordIsLost` is such a case, `LogReuse.AppendedIsReadIff` the exact
  condition on bytes, and the step Reopen has it as a guard on the disk image (`Disk.torn`, `Disk.manifestTorn`).
* `pb_decode_varint32` tests for an overflow only when the number ends with its fifth byte
  (`nanopb/pb_decode.c:236-241`). In longer numbers the upper bits of that byte are lost: `PbReading.OverflowIsMissed`
  is 7 * 2^32 taken for 0, and `PbReading.AcceptedIff` says exactly what is accepted. Keys and lengths below 2^32 are
  read right (`PbReading.WholeVarint32`).
* The decoder does not compare the wire type of a known field with its type (`nanopb/pb_decode.c:406-419`), except to tell
  a packed array. `PbMerge.WireTypeIsIgnored` is a message that is no sequence of records and is decoded all the
  same. The theorems that name records therefore ask for the fitting wire types.
* `VersionEdit::Clear` keeps the compaction pointers, so decoding gives the encoded edit exactly when the object
  held none (`EditCodec.EditRoundTrip`).

## Iterators, files, caches

`Cursors` is the contract of an iterator as a position in a sorted sequence. `DbIter`, `MergingIterator` and
`TwoLevelIterator` are classes that keep it, with the direction changes of the code. `Coding`, `BlockFormat`,
`BlockBuilder`, `BlockIter`, `Comparator`, `TableFooter`, `TableFormat` and `TableLookup` are tables from bytes up, filter included;
`LogFormat`, `LogWriter`, `LogReader`, `LogAccount`, `LogRoundTrip` and `LogReuse` are the log; `Bloom` and `FilterBlock` are the filters,
pinned bit by bit: what a filter matches is said as well as what it must match.
`FileFormats` and `FormatReading` read all these bytes by the numbers of the formats, without looking at what writes
them, and say what the decoders accept, for all bytes;
`HandleTables` and `LruCaches` are the block cache on linked objects.

In `SkipLists` a node is addressed by its place in the arena. A search is a sequence of single loads and an
insertion a sequence of single stores, and the theorems are about any interleaving of the two.

In `LruCaches` the ghost fields `handles`, `live` and `deleted` count what clients hold, what is allocated, and
which deleters ran.

## nanopb

Descriptors and messages are datatypes (`PbFields`); `PbWire` has varints, zigzag and fixed words; `PbEncode`
and `PbStream` are the imperative encoder and decoder on streams, each proved against functions on byte
strings; `PbRoundTrip` proves that decoding undoes encoding for nested messages with required, optional,
singular, repeated (packed or not) and oneof fields.

`PbFormat` is the wire format of the Protocol Buffers encoding guide by number, as a reader that knows nothing of
the encoder: a key is tag * 8 + 0, 1, 2 or 5, for a varint, eight bytes, a length and that many bytes, or four bytes.
It finds in every encoding exactly the fields of the message. `PbReading` holds the decoder against that reader on
all inputs, for numbers, words, strings, submessages and skipped fields. `PbMessages` and `PbParts` say, for all
inputs too, when a message is refused for a missing required field, and what becomes of unknown fields, unpacked
arrays, repeated submessages and a zero key. `PbMerge` puts this together: decoding is reading the records and merging
them one after the other. `PbRoom` says that no bytes whatever make the decoder store more than there is room for.

## Model

| member | source | states |
|---|---|---|
| VersionedMap.HistoryIsMap | RNDM/Pods/leveldb-library/db/memtable.cc:100-134 | the newest visible entry of the full history at sequence number s is what the plain map holds after s operations |
| VersionedMap.SearchNewerFirst | RNDM/Pods/leveldb-library/db/db_impl.cc:1100-1145 | searching the newer of two places first, and the older one only on a miss, resolves the union of both |
| VersionedMap.DroppedEntriesView | RNDM/Pods/leveldb-library/db/db_impl.cc:943-967 | removing entries keeps a view when the newest visible entry stays, or is a deletion marker with nothing visible left |
| Keys.PackedTagOrder | RNDM/Pods/leveldb-library/db/dbformat.cc:14-18 | comparing packed tags is comparing sequence number, then type, and tags are unique |
| Keys.LessIsTotalOrder | RNDM/Pods/leveldb-library/db/dbformat.cc:51-67 | the internal-key order is a strict total order |
| Keys.SeekSplits | RNDM/Pods/leveldb-library/db/dbformat.cc:121-138 | a lookup key at s lies in front of exactly the entries of its user key visible at s |
| Versions.ProbeResolves | RNDM/Pods/leveldb-library/db/memtable.cc:100-134 | one seek in a sorted run finds the newest visible entry of the key in that run, if there is one |
| Versions.FindFile | RNDM/Pods/leveldb-library/db/version_set.cc:88-106 | the binary search returns the first file whose largest key is at or after the key |
| Versions.FirstCandidate | RNDM/Pods/leveldb-library/db/version_set.cc:360-379 | in a sorted level the first file that reaches the lookup key holds the newest visible entry of its user key, if any file of the level does |
| Versions.FilesToSearch | RNDM/Pods/leveldb-library/db/version_set.cc:339-379 | level 0: every file with a visible entry, newest first; deeper levels: one file that suffices |
| Versions.Get | RNDM/Pods/leveldb-library/db/version_set.cc:326-421 | in a version kept in LSM order the level-by-level search with early exit finds the newest visible entry of all tables |
| Overlap.SomeFileOverlapsRange | RNDM/Pods/leveldb-library/db/version_set.cc:122-156 | the binary search of a disjoint level and the full scan both say whether some file meets the range |
| Overlap.GetOverlappingInputs | RNDM/Pods/leveldb-library/db/version_set.cc:519-559 | terminates; at level 0 the result is the least overlap-closed set of files for the range, deeper it is exactly the overlapping files |
| Overlap.FixpointIsLeast | RNDM/Pods/leveldb-library/db/version_set.cc:519-559 | a range that no overlapping file exceeds yields the least overlap-closed set |
| Overlap.FindSmallestBoundaryFile | RNDM/Pods/leveldb-library/db/version_set.cc:1344-1365 | the boundary file with the smallest first key, or none when there is no boundary file |
| Overlap.AddBoundaryInputs | RNDM/Pods/leveldb-library/db/version_set.cc:1378-1401 | terminates; adds exactly the chain of boundary files, each the smallest next one, until no file of the level starts later with the user key of the largest key |
| CompactionInputs.StayBehindIsNewer | RNDM/Pods/leveldb-library/db/version_set.cc:1403-1462 | no entry that stays behind in the level is older than an entry of its user key that leaves it |
| CompactionInputs.SetupOtherInputs | RNDM/Pods/leveldb-library/db/version_set.cc:1403-1462 | exactly the inputs of the code: the files with their boundary files, all overlapping files of `level+1`, and the expansion exactly when it adds files of `level`, none of `level+1`, and stays below the size limit; closed under boundary keys |
| CompactionInputs.TryExpand | RNDM/Pods/leveldb-library/db/version_set.cc:1420-1444 | the expanded inputs exactly when they are worth it, and the others otherwise |
| CompactionInputs.PickStart | RNDM/Pods/leveldb-library/db/version_set.cc:1284-1296 | the first file past the compaction pointer, and the first of the level when there is none |
| CompactionInputs.PickCompaction | RNDM/Pods/leveldb-library/db/version_set.cc:1270-1322 | nothing is picked exactly when neither kind of compaction is due; a size compaction goes before a seek compaction; the inputs are exactly those of the start file, at level 0 of all files that overlap with it; they are closed and form one interval of user keys |
| CompactionInputs.CompactRange | RNDM/Pods/leveldb-library/db/version_set.cc:1464-1495 | none exactly when no file overlaps; otherwise the inputs of the files that meet the range, below level 0 of the shortest part of them from the front whose size reaches the limit |
| CompactionInputs.SizePrefix | RNDM/Pods/leveldb-library/db/version_set.cc:1475-1487 | the loop stops at the shortest part from the front whose size reaches the limit, or at all |
| CompactionInputs.PickLevelForMemTableOutput | RNDM/Pods/leveldb-library/db/version_set.cc:491-516 | the table goes down past every level that it does not meet and whose next one it does not meet too much of, at most to level 2, and not further |
| CompactionInputs.OutputLevelIsUnique | RNDM/Pods/leveldb-library/db/version_set.cc:491-516 | these conditions leave exactly one level |
| CompactionInputs.IsTrivialMove | RNDM/Pods/leveldb-library/db/version_set.cc:1515-1523 | exactly when one file has no file to be merged with and does not meet too much two levels down |
| CompactionLoop.Compaction.IsBaseLevelForKey | RNDM/Pods/leveldb-library/db/version_set.cc:1533-1552 | for keys asked in ascending order the monotone cursors answer as a full scan of levels `level+2` and deeper |
| CompactionLoop.HiddenByPrevious | RNDM/Pods/leveldb-library/db/db_impl.cc:929-947 | in a sorted run, looking at the previous entry decides whether a newer entry hides this one from every live snapshot |
| CompactionLoop.ShouldDrop | RNDM/Pods/leveldb-library/db/db_impl.cc:918-967 | an entry is dropped exactly when rule (A) or the obsolete-tombstone rule applies |
| CompactionLoop.DoCompactionWork | RNDM/Pods/leveldb-library/db/db_impl.cc:878-1021 | the outputs hold exactly the surviving inputs, wherever output files end; they are sorted, disjoint and numbered consecutively |
| CompactionLoop.FinishOutputFile | RNDM/Pods/leveldb-library/db/db_impl.cc:811-858 | finishing an output keeps all that was emitted and the order of what follows |
| VersionEdits.EditKeepsVersionOk | RNDM/Pods/leveldb-library/db/version_set.cc:650-754 | an edit whose files fit keeps levels sorted and disjoint, numbers unique, and shallower entries newer |
| ManifestBuilder.SaveLevel | RNDM/Pods/leveldb-library/db/version_set.cc:697-735 | merging base and added files drops the deleted ones and yields the sorted list |
| ManifestBuilder.StepwiseLevels | RNDM/Pods/leveldb-library/db/version_set.cc:650-754 | applying edits one by one leaves in each level what one pass over all edits says |
| ManifestBuilder.Builder.Apply | RNDM/Pods/leveldb-library/db/version_set.cc:651-694 | the builder accounts for all edits so far: an addition cancels an earlier deletion of its number |
| ManifestBuilder.Builder.SaveTo | RNDM/Pods/leveldb-library/db/version_set.cc:697-735 | every level is saved as all edits together say |
| ManifestBuilder.ApplyEdit | RNDM/Pods/leveldb-library/db/version_set.cc:801-830 | the version a single edit leads to |
| ManifestBuilder.WriteSnapshot | RNDM/Pods/leveldb-library/db/version_set.cc:1088-1116 | one record that leads from the empty version to the current one |
| ManifestBuilder.ReplayManifest | RNDM/Pods/leveldb-library/db/version_set.cc:886-1000 | one builder over all records gives the version that applying each edit to the live version in turn gives |
| EditCodec.BodyRoundTrip | RNDM/Pods/leveldb-library/db/version_edit.cc:107-190 | each kind of record is parsed back, whatever follows it |
| EditCodec.EditRoundTrip | RNDM/Pods/leveldb-library/db/version_edit.cc:26-205 | decoding an encoded edit gives the edit, exactly when the object held no compaction pointers before (Clear does not drop them) |
| EditCodec.VersionEdit.EncodeTo | RNDM/Pods/leveldb-library/db/version_edit.cc:41-85 | the bytes are the records of all fields, deleted files in any order |
| EditCodec.VersionEdit.DecodeFrom | RNDM/Pods/leveldb-library/db/version_edit.cc:107-205 | for every input the fields and the verdict are those of the record-by-record parse |
| LsmWrites.WriteKeepsInv | RNDM/Pods/leveldb-library/db/db_impl.cc:1185-1255 | logging and applying a batch keeps the invariant |
| LsmWrites.SwitchKeepsInv | RNDM/Pods/leveldb-library/db/db_impl.cc:1346-1366 | a new log and the memtable switch keep the invariant; nothing unflushed leaves the logs at or above LogNumber() |
| LsmWrites.GetSnapshotKeepsInv | RNDM/Pods/leveldb-library/db/db_impl.cc:1166-1169 | taking a snapshot keeps the invariant |
| LsmWrites.ReleaseSnapshotKeepsInv | RNDM/Pods/leveldb-library/db/db_impl.cc:1171-1174 | releasing any held snapshot keeps the invariant |
| LsmWrites.CollectKeepsInv | RNDM/Pods/leveldb-library/db/db_impl.cc:223-278 | deleting obsolete files keeps every table of a live version or pending output and every needed log |
| LsmFlush.NewTableFits | RNDM/Pods/leveldb-library/db/version_set.cc:491-516 | the flushed table fits the level chosen for it: nothing it passes has its keys |
| LsmFlush.FlushMissesInputs | RNDM/Pods/leveldb-library/db/db_impl.cc:908-917 | a table flushed past a running compaction misses every key being compacted |
| LsmFlush.FlushKeepsPending | RNDM/Pods/leveldb-library/db/db_impl.cc:908-917 | a flush inside a compaction keeps what the compaction relies on, its tombstone decisions included |
| LsmFlush.FlushKeepsInv | RNDM/Pods/leveldb-library/db/db_impl.cc:535-566 | a flush keeps the invariant |
| LsmCompaction.MoveFits | RNDM/Pods/leveldb-library/db/db_impl.cc:714-740 | a file moved down by a trivial move fits among the files of the next level and stays between shallower and deeper entries |
| LsmCompaction.MoveKeepsInv | RNDM/Pods/leveldb-library/db/db_impl.cc:714-740 | a trivial move keeps the invariant and the entries |
| LsmCompaction.BeginKeepsInv | RNDM/Pods/leveldb-library/db/db_impl.cc:878-1021 | building the outputs keeps the invariant and leaves outputs that overlap nothing left at `level+1` |
| LsmCompaction.OnlyDroppedAreGone | RNDM/Pods/leveldb-library/db/db_impl.cc:860-876 | after installation exactly the entries the loop dropped are gone |
| LsmCompaction.SurvivorStaysBelow | RNDM/Pods/leveldb-library/db/version_set.cc:1403-1462 | an older entry under a dropped deletion marker survives only in a `level+1` file outside the inputs |
| LsmCompaction.InstallSoundIff | RNDM/Pods/leveldb-library/db/version_set.cc:737-752 | installing outputs leaves a well-formed version exactly when the assertion of the Builder holds |
| LsmCompaction.CoveredCanInstall | RNDM/Pods/leveldb-library/db/version_set.cc:1270-1323 | a compaction whose inputs have no gap can be installed whatever was flushed meanwhile |
| LsmCompaction.InstallKeepsReads | RNDM/Pods/leveldb-library/db/db_impl.cc:860-876 | installation preserves every read at or after the smallest snapshot |
| LsmCompaction.InstallKeepsInv | RNDM/Pods/leveldb-library/db/db_impl.cc:860-876 | installation keeps the invariant |
| LsmBoundary.ReadsSurviveIff | RNDM/Pods/leveldb-library/db/version_set.cc:1403-1462 | with nothing assumed about boundary keys of `level+1`: reads survive an installation exactly when no dropped deletion marker uncovers a value |
| LsmBoundary.ClosureDischargesGuard | RNDM/Pods/leveldb-library/db/version_set.cc:1378-1462 | inputs whose `level+1` part leaves no boundary file behind satisfy the guard of Begin |
| LsmBoundary.ClosedCanBegin | RNDM/Pods/leveldb-library/db/version_set.cc:1378-1462 | so does every such choice of inputs in a state with the invariant, whatever snapshots are held |
| LsmBoundary.ClosedNeverResurrects | RNDM/Pods/leveldb-library/db/version_set.cc:1407-1422 | with no boundary file of `level+1` left behind, no dropped deletion marker uncovers a value |
| LsmBoundary.DeletionUndone | RNDM/Pods/leveldb-library/db/version_set.cc:1403-1462 | a concrete well-formed state in which a compaction with the inputs SetupOtherInputs chooses brings a deleted value back |
| LsmSplitRun.DeletionUndoneIsReached | RNDM/Pods/leveldb-library/db/version_set.cc:1403-1462 | a run of writes, a snapshot, flushes and a compaction leads from a new database to that state; only the last step is taken without the guard |
| LsmBoundary.FlushIntoGap | RNDM/Pods/leveldb-library/db/version_set.cc:1464-1487 | a concrete manual compaction with a gap whose outputs a flush makes uninstallable |
| LsmRuns.InitKeepsInv | RNDM/Pods/leveldb-library/db/db_impl.cc:182-212 | a new database satisfies the invariant |
| LsmRuns.NextKeepsInv | RNDM/Pods/leveldb-library/db/db_impl.cc:688-767 | every step keeps the invariant |
| LsmRuns.ReachableInv | RNDM/Pods/leveldb-library/db/db_impl.cc:688-767 | the invariant holds in every reachable state of every run |
| LsmRuns.ReadsAreTheMap | RNDM/Pods/leveldb-library/db/db_impl.cc:1100-1145 | in every reachable state, reading at the last sequence number or a held snapshot gives what the plain map gives |
| LsmRuns.SnapshotsAreStable | RNDM/Pods/leveldb-library/db/db_impl.cc:1166-1174 | a held snapshot reads the same in every later state of the run |
| LsmRuns.NothingNeededIsDeleted | RNDM/Pods/leveldb-library/db/db_impl.cc:223-278 | in every reachable state live tables are on disk and the logs at or above LogNumber() replay to exactly the unflushed operations |
| LsmRuns.NothingUselessStays | RNDM/Pods/leveldb-library/db/db_impl.cc:223-278 | after a collection in any run the tables on disk are exactly those of the current version, of a pinned one or of the compaction in flight, and every log is one that recovery would read |
| LsmRuns.NothingUselessIsWritten | RNDM/Pods/leveldb-library/db/db_impl.cc:918-967 | in any run, of two entries of a user key that a compaction writes the newer one lies above a held snapshot; a deletion marker that all snapshots see is written only if a deeper file has its user key in range |
| LsmRuns.CrashLosesNothing | RNDM/Pods/leveldb-library/db/db_impl.cc:280-369 | recovering from a crash in any reachable state rebuilds the same operations and the same reads; a log is gone on with only if what is added to it will be read |
| LsmRuns.CrashBetweenSteps | RNDM/Pods/leveldb-library/db/db_impl.cc:280-369 | what is on disk between steps is an image recovery accepts |
| LsmRuns.CrashInsideStep | RNDM/Pods/leveldb-library/db/db_impl.cc:223-278 | what a crash leaves inside any step is such an image of the state before it or after it |
| LsmRuns.CrashAnywhere | RNDM/Pods/leveldb-library/db/db_impl.cc:280-369 | so in a run of any length, wherever it is cut off |
| LsmRuns.ScansAreTheMap | RNDM/Pods/leveldb-library/db/db_iter.cc:141-299 | the live entries of a scan in any reachable state are the bindings of the plain map |
| Recovery.WriteLevel0Table | RNDM/Pods/leveldb-library/db/db_impl.cc:491-533 | a table written during recovery holds exactly its range of operations under a fresh, larger number |
| Recovery.RecoverLogFile | RNDM/Pods/leveldb-library/db/db_impl.cc:371-489 | replaying one log, with any points at which the memtable fills up, covers exactly its operations; a reused last log stays the memtable |
| Recovery.RecoverLogs | RNDM/Pods/leveldb-library/db/db_impl.cc:316-369 | replaying all logs at or above LogNumber() in ascending order rebuilds exactly the operations that are in no table |
| LsmRecovery.RecoveredIsNewer | RNDM/Pods/leveldb-library/db/db_impl.cc:491-533 | recovered tables are newer than every table of the version and have larger numbers |
| LsmRecovery.ReopenKeepsInv | RNDM/Pods/leveldb-library/db/db_impl.cc:1474-1515 | after Recover the invariant holds again and the contents are the same |
| DbImpl.DBImpl.Open | RNDM/Pods/leveldb-library/db/db_impl.cc:1474-1515 | opening any crash image of a reachable state succeeds and yields a database with the same operations, if files that are gone on with are not torn |
| DbImpl.DBImpl.Get | RNDM/Pods/leveldb-library/db/db_impl.cc:1100-1145 | the value of the plain map, now or at a held snapshot |
| DbImpl.DBImpl.Write | RNDM/Pods/leveldb-library/db/db_impl.cc:1206-1241 | is the Write step |
| DbImpl.DBImpl.SwitchMemTable | RNDM/Pods/leveldb-library/db/db_impl.cc:1346-1366 | is the Switch step |
| DbImpl.DBImpl.LogAndApply | RNDM/Pods/leveldb-library/db/version_set.cc:801-884 | the version becomes the edited one, and the MANIFEST records log number, next file and last sequence |
| DbImpl.DBImpl.WriteLevel0Table | RNDM/Pods/leveldb-library/db/db_impl.cc:491-533 | one fresh table with the entries of the memtable, placed at the one level that PickLevelForMemTableOutput allows; none for an empty memtable |
| DbImpl.DBImpl.CompactMemTable | RNDM/Pods/leveldb-library/db/db_impl.cc:535-566 | is the Flush step, to that level |
| DbImpl.DBImpl.TrivialMove | RNDM/Pods/leveldb-library/db/db_impl.cc:718-733 | is the Move step exactly when one file has nothing to be merged with and does not meet too much two levels down, and nothing otherwise |
| DbImpl.DBImpl.BuildOutputs | RNDM/Pods/leveldb-library/db/db_impl.cc:878-1021 | is the Begin step; the outputs overlap nothing that stays at `level+1` |
| DbImpl.DBImpl.InstallCompactionResults | RNDM/Pods/leveldb-library/db/db_impl.cc:860-876 | is the Install step |
| DbImpl.DBImpl.GetSnapshot | RNDM/Pods/leveldb-library/db/db_impl.cc:1166-1169 | is the GetSnapshot step |
| DbImpl.DBImpl.ReleaseSnapshot | RNDM/Pods/leveldb-library/db/db_impl.cc:1171-1174 | is the ReleaseSnapshot step |
| DbImpl.DBImpl.PinVersion | RNDM/Pods/leveldb-library/db/db_impl.cc:1062-1087 | an iterator takes a reference to the current version |
| DbImpl.DBImpl.UnpinVersion | RNDM/Pods/leveldb-library/db/db_impl.cc:1050-1058 | an iterator gives its version back |
| DbImpl.DBImpl.DeleteObsoleteFiles | RNDM/Pods/leveldb-library/db/db_impl.cc:223-278 | is the Collect step: of the tables exactly the live ones stay, of the logs exactly those not below LogNumber() |
| DbImpl.PlacesInOrder | RNDM/Pods/leveldb-library/db/db_impl.cc:1100-1145 | memtable, immutable memtable and tables hold everything, each newer than the next |
| MemTable.Add | RNDM/Pods/leveldb-library/db/memtable.cc:75-98 | inserting into the sorted run |
| MemTable.InsertInto | RNDM/Pods/leveldb-library/db/write_batch.cc:117-137 | the run after a batch holds the old entries and those of the batch, sorted |
| SkipLists.SearchStops | RNDM/Pods/leveldb-library/db/skiplist.h:260-282 | where a search stops, it has the first node at or after the target and the last one before it |
| SkipLists.ReaderTurnOk | RNDM/Pods/leveldb-library/db/skiplist.h:260-282 | one load of a search keeps its invariant on any well-formed list; the last one gives the true first node of level 0 |
| SkipLists.ReaderStable | RNDM/Pods/leveldb-library/db/skiplist.h:154-170 | stores of a writer keep the invariant of a search in progress |
| SkipLists.SearchIsAtomic | RNDM/Pods/leveldb-library/db/skiplist.h:260-368 | a search interleaved with any stores, from any current or stale height, returns the first node at or after the target at one instant of the search, and FindLessThan the last node before it |
| SkipLists.SearchFindsEarlierKeys | RNDM/Pods/leveldb-library/db/skiplist.h:346-357 | such a search passes over no key inserted before it began |
| SkipLists.ScanVisitsEarlierKeys | RNDM/Pods/leveldb-library/db/skiplist.h:206-231 | an iterator that moves on to the end among any stores visits every key that was there when it began |
| SkipLists.ScanAscends | RNDM/Pods/leveldb-library/db/skiplist.h:206-210 | the keys such an iterator visits ascend |
| SkipLists.PublishLinked | RNDM/Pods/leveldb-library/db/skiplist.h:361-367 | prev[i]->SetNext(i, x) links x at level i, and the level stays sorted |
| SkipLists.PrepareStep | RNDM/Pods/leveldb-library/db/skiplist.h:364-366 | a store to the unpublished link of x disturbs no level |
| SkipLists.PublishStep | RNDM/Pods/leveldb-library/db/skiplist.h:361-367 | after publishing level i the list is well formed, with x linked at levels 0 to i |
| SkipLists.SkipList.constructor | RNDM/Pods/leveldb-library/db/skiplist.h:324-334 | an empty list of height 1 |
| SkipLists.SkipList.FindGreaterOrEqual | RNDM/Pods/leveldb-library/db/skiplist.h:260-282 | on any state between two stores and from any height: the first node at or after the target, and prev for every level searched |
| SkipLists.SkipList.FindLessThan | RNDM/Pods/leveldb-library/db/skiplist.h:284-302 | the last node before the target, from any height |
| SkipLists.SkipList.FindLast | RNDM/Pods/leveldb-library/db/skiplist.h:304-322 | the last node, from any height |
| SkipLists.SkipList.LinkAtLevel | RNDM/Pods/leveldb-library/db/skiplist.h:361-367 | one turn of the linking loop is two stores, and searches work after each |
| SkipLists.SkipList.Insert | RNDM/Pods/leveldb-library/db/skiplist.h:336-368 | adds exactly the key, as one node on its first `height` levels, keeps every level a sorted sublist of the one below, and leaves a trace of single stores in all of which searches work |
| SkipLists.SkipList.Contains | RNDM/Pods/leveldb-library/db/skiplist.h:370-378 | true exactly when the key was inserted |
| SkipLists.SkipListIterator.Next | RNDM/Pods/leveldb-library/db/skiplist.h:206-210 | the next position of the listing |
| SkipLists.SkipListIterator.Prev | RNDM/Pods/leveldb-library/db/skiplist.h:212-221 | the previous position, found by a search |
| SkipLists.SkipListIterator.Seek | RNDM/Pods/leveldb-library/db/skiplist.h:223-226 | the position of the first entry at or after the target |
| SkipLists.SkipListIterator.SeekToFirst | RNDM/Pods/leveldb-library/db/skiplist.h:228-231 | the first position |
| SkipLists.SkipListIterator.SeekToLast | RNDM/Pods/leveldb-library/db/skiplist.h:233-239 | the last position |
| SkipLists.SuccessorIsNext | RNDM/Pods/leveldb-library/db/skiplist.h:206-210 | a level-0 link leads to the next entry of the sorted listing |
| SkipLists.AddToMemTable | RNDM/Pods/leveldb-library/db/memtable.cc:75-98 | inserting into the skip list is inserting into the sorted run |
| HandleTables.HandleTable.FindPointer | RNDM/Pods/leveldb-library/util/cache.cc:111-120 | the slot of the entry of this name, or the last slot of its bucket when there is none |
| HandleTables.HandleTable.Lookup | RNDM/Pods/leveldb-library/util/cache.cc:74-76 | the entry the map has for the name |
| HandleTables.HandleTable.Insert | RNDM/Pods/leveldb-library/util/cache.cc:78-92 | the map with the new entry; the entry of the same name is returned |
| HandleTables.HandleTable.Remove | RNDM/Pods/leveldb-library/util/cache.cc:94-102 | the map without the name; its entry is returned |
| HandleTables.HandleTable.Resize | RNDM/Pods/leveldb-library/util/cache.cc:122-146 | the same map in the smallest power-of-two table that has a bucket for each entry |
| HandleTables.PlacedSpread | RNDM/Pods/leveldb-library/util/cache.cc:78-92 | each handle stays in the chain of its bucket, once |
| LruCaches.LRU_Remove | RNDM/Pods/leveldb-library/util/cache.cc:239-242 | the ring without the handle, in the same order |
| LruCaches.LRU_Append | RNDM/Pods/leveldb-library/util/cache.cc:244-250 | the ring with the handle as its newest entry |
| LruCaches.LRUCache.Ref | RNDM/Pods/leveldb-library/util/cache.cc:217-223 | one more reference; an idle entry moves to the in-use list |
| LruCaches.LRUCache.Unref | RNDM/Pods/leveldb-library/util/cache.cc:225-237 | the last reference runs the deleter, once; the last client reference of a cached entry moves it to the young end of the LRU list |
| LruCaches.LRUCache.FinishErase | RNDM/Pods/leveldb-library/util/cache.cc:305-316 | the entry leaves its list and the usage; it is freed only if no client holds it |
| LruCaches.LRUCache.Lookup | RNDM/Pods/leveldb-library/util/cache.cc:252-259 | the entry of the map, now held once more |
| LruCaches.LRUCache.Release | RNDM/Pods/leveldb-library/util/cache.cc:261-264 | one handle less; freed exactly when neither cached nor held any more |
| LruCaches.LRUCache.Insert | RNDM/Pods/leveldb-library/util/cache.cc:266-303 | the map with the new entry less the evicted ones: oldest first, no more than needed, usage at most the capacity or nothing idle left; a held entry is never evicted |
| LruCaches.LRUCache.EvictOldest | RNDM/Pods/leveldb-library/util/cache.cc:293-300 | the oldest idle entry leaves map, list and usage, and is freed |
| LruCaches.LRUCache.Erase | RNDM/Pods/leveldb-library/util/cache.cc:318-321 | the map without the name; its entry is freed now or at its last release |
| LruCaches.LRUCache.Prune | RNDM/Pods/leveldb-library/util/cache.cc:323-333 | every entry no client holds is freed, the others stay |
| LruCaches.LRUCache.Destroy | RNDM/Pods/leveldb-library/util/cache.cc:205-215 | every idle entry is freed once; without outstanding handles nothing is left |
| LruCaches.LRUCache.HeldStays | RNDM/Pods/leveldb-library/util/cache.cc:25-40 | an entry a client holds is not on the LRU list |
| WriteBatches.BatchRoundTrip | RNDM/Pods/leveldb-library/db/write_batch.cc:42-80 | iterating over a batch calls the handler with its operations, in order, and ends well |
| WriteBatches.IterateAppended | RNDM/Pods/leveldb-library/db/write_batch.cc:144-149 | iterating over an appended batch is iterating over its parts in order |
| WriteBatches.WriteBatch.Put | RNDM/Pods/leveldb-library/db/write_batch.cc:98-103 | one more operation and count |
| WriteBatches.WriteBatch.Delete | RNDM/Pods/leveldb-library/db/write_batch.cc:105-109 | one more operation and count |
| WriteBatches.WriteBatch.Append | RNDM/Pods/leveldb-library/db/write_batch.cc:144-149 | the operations of both, in order; the source batch is not touched |
| WriteBatches.WriteBatch.Iterate | RNDM/Pods/leveldb-library/db/write_batch.cc:42-80 | for every byte string: the operations handled and the status, malformed batches included |
| WriteBatches.WriteBatch.InsertInto | RNDM/Pods/leveldb-library/db/write_batch.cc:132-137 | the operations with consecutive sequence numbers from that of the batch |
| WriteQueues.KeptGroup | RNDM/Pods/leveldb-library/db/db_impl.cc:1209-1245 | applying a group extends the memtable by its operations with the next numbers |
| WriteQueues.WriteQueue.Enqueue | RNDM/Pods/leveldb-library/db/db_impl.cc:1192 | the writer goes to the end of the queue, also while a group is being written |
| WriteQueues.WriteQueue.BuildBatchGroup | RNDM/Pods/leveldb-library/db/db_impl.cc:1258-1306 | the group by number: writers from the front, no sync write behind a non-sync leader, at most 1 MB, or 128 KB more than a leader of at most 128 KB, and the first writer behind it would break one of these; only tmp_batch_ is written |
| WriteQueues.GroupIsUnique | RNDM/Pods/leveldb-library/db/db_impl.cc:1258-1306 | these conditions leave exactly one group |
| WriteQueues.WriteQueue.Begin | RNDM/Pods/leveldb-library/db/db_impl.cc:1200-1211 | the leader with its one group, numbered from LastSequence()+1; the leader alone exactly when there is no room or it brings no batch |
| WriteQueues.WriteQueue.Finish | RNDM/Pods/leveldb-library/db/db_impl.cc:1218-1248 | the group leaves once, in order and with one status; its operations are applied exactly on success; a successful sync write is in a synced record |
| WriteQueues.WriteQueue.Depart | RNDM/Pods/leveldb-library/db/db_impl.cc:1234-1243 | the writers of the group leave from the front, each marked done with the status |
| DbIter.LiveIsView | RNDM/Pods/leveldb-library/db/db_iter.cc:25-30 | the live entries of a sorted run are its bindings at the sequence number |
| DbIter.DBIter.FindNextUserEntry | RNDM/Pods/leveldb-library/db/db_iter.cc:168-198 | the first live entry from here on, past the key to skip |
| DbIter.DBIter.FindPrevUserEntry | RNDM/Pods/leveldb-library/db/db_iter.cc:227-267 | the last live entry before here |
| DbIter.DBIter.Next | RNDM/Pods/leveldb-library/db/db_iter.cc:141-166 | the next live entry, in either direction before |
| DbIter.DBIter.Prev | RNDM/Pods/leveldb-library/db/db_iter.cc:200-225 | the previous live entry, in either direction before |
| DbIter.DBIter.Seek | RNDM/Pods/leveldb-library/db/db_iter.cc:269-281 | the first live entry at or after the key |
| DbIter.DBIter.SeekToFirst | RNDM/Pods/leveldb-library/db/db_iter.cc:283-292 | the first live entry |
| DbIter.DBIter.SeekToLast | RNDM/Pods/leveldb-library/db/db_iter.cc:294-299 | the last live entry |
| MergingIterator.MergingIterator.FindSmallest | RNDM/Pods/leveldb-library/table/merger.cc:148-161 | the child at the next entry of the union |
| MergingIterator.MergingIterator.FindLargest | RNDM/Pods/leveldb-library/table/merger.cc:163-176 | the child at the previous entry of the union |
| MergingIterator.MergingIterator.Seek | RNDM/Pods/leveldb-library/table/merger.cc:47-53 | the seek position in the sorted union |
| MergingIterator.MergingIterator.SeekToFirst | RNDM/Pods/leveldb-library/table/merger.cc:31-37 | the first position of the union |
| MergingIterator.MergingIterator.SeekToLast | RNDM/Pods/leveldb-library/table/merger.cc:39-45 | the last position of the union |
| MergingIterator.MergingIterator.Next | RNDM/Pods/leveldb-library/table/merger.cc:55-79 | the next position; after Prev every other child is repositioned behind the current key |
| MergingIterator.MergingIterator.Prev | RNDM/Pods/leveldb-library/table/merger.cc:81-108 | the previous position; after Next every other child is repositioned before the current key |
| TwoLevelIterator.SeekBlocks | RNDM/Pods/leveldb-library/table/two_level_iterator.cc:82-87 | seeking the index and then its block is seeking the whole sequence |
| TwoLevelIterator.TwoLevelIterator.Seek | RNDM/Pods/leveldb-library/table/two_level_iterator.cc:82-87 | the seek position in the concatenated blocks |
| TwoLevelIterator.TwoLevelIterator.SeekToFirst | RNDM/Pods/leveldb-library/table/two_level_iterator.cc:89-94 | the first position |
| TwoLevelIterator.TwoLevelIterator.SeekToLast | RNDM/Pods/leveldb-library/table/two_level_iterator.cc:96-101 | the last position |
| TwoLevelIterator.TwoLevelIterator.Next | RNDM/Pods/leveldb-library/table/two_level_iterator.cc:103-107 | the next position, across empty blocks |
| TwoLevelIterator.TwoLevelIterator.Prev | RNDM/Pods/leveldb-library/table/two_level_iterator.cc:109-113 | the previous position, across empty blocks |
| TwoLevelIterator.TwoLevelIterator.SkipEmptyDataBlocksForward | RNDM/Pods/leveldb-library/table/two_level_iterator.cc:115-126 | stops at the next entry of the concatenation |
| TwoLevelIterator.TwoLevelIterator.SkipEmptyDataBlocksBackward | RNDM/Pods/leveldb-library/table/two_level_iterator.cc:128-139 | stops at the previous entry of the concatenation |
| Coding.EncodeVarint32 | RNDM/Pods/leveldb-library/util/coding.cc:47-73 | each of the five branches writes the base-128 groups of the number |
| Coding.EncodeVarint64 | RNDM/Pods/leveldb-library/util/coding.cc:81-90 | the loop writes the base-128 groups of the number |
| Coding.Varint32RoundTrip | RNDM/Pods/leveldb-library/util/coding.cc:113-140 | a 32-bit varint is read back and leaves what follows |
| Coding.Varint64RoundTrip | RNDM/Pods/leveldb-library/util/coding.cc:142-169 | a 64-bit varint is read back and leaves what follows |
| Bytes.VarintIsShortest | RNDM/Pods/leveldb-library/util/coding.cc:81-90 | no byte is wasted: all but the last are marked, and the last one is zero only for zero |
| Coding.LengthPrefixedRoundTrip | RNDM/Pods/leveldb-library/util/coding.cc:181-191 | a length-prefixed string is read back and leaves what follows |
| Coding.Fixed32RoundTrip | RNDM/Pods/leveldb-library/util/coding.h:60-72 | a fixed 32-bit word is read back |
| BlockFormat.FastPathAgrees | RNDM/Pods/leveldb-library/table/block.cc:55-74 | the one-byte fast path of DecodeEntry decodes what the general path decodes |
| BlockFormat.EntryIsDecoded | RNDM/Pods/leveldb-library/table/block.cc:47-74 | an entry header is decoded, and its body lies behind it |
| BlockBuilder.BlockBuilder.Add | RNDM/Pods/leveldb-library/table/block_builder.cc:72-105 | one more item, prefix-compressed against the one before or at a new restart point |
| BlockBuilder.BlockBuilder.Finish | RNDM/Pods/leveldb-library/table/block_builder.cc:62-70 | the bytes of the block of the items |
| BlockBuilder.BlockBuilder.CurrentSizeEstimate | RNDM/Pods/leveldb-library/table/block_builder.cc:56-60 | exactly the size of the finished block |
| BlockIter.EntryParsed | RNDM/Pods/leveldb-library/table/block.cc:224-251 | parsing at entry i rebuilds its key from the key before it, and its value |
| BlockIter.BlockIter.ParseNextKey | RNDM/Pods/leveldb-library/table/block.cc:224-251 | the iterator moves to the entry, or to the end |
| BlockIter.BlockIter.Next | RNDM/Pods/leveldb-library/table/block.cc:137-140 | the next item of the built list |
| BlockIter.BlockIter.Prev | RNDM/Pods/leveldb-library/table/block.cc:142-161 | the previous item, through the restart point before it |
| BlockIter.BlockIter.FindRestart | RNDM/Pods/leveldb-library/table/block.cc:163-192 | the binary search ends at a restart point with a key before the target, or at the first |
| BlockIter.BlockIter.Seek | RNDM/Pods/leveldb-library/table/block.cc:163-201 | the first item whose key is not before the target, for any total order |
| BlockIter.BlockIter.SeekToFirst | RNDM/Pods/leveldb-library/table/block.cc:203-206 | the first item |
| BlockIter.BlockIter.SeekToLast | RNDM/Pods/leveldb-library/table/block.cc:208-213 | the last item |
| Comparator.FindShortestSeparator | RNDM/Pods/leveldb-library/util/comparator.cc:29-50 | cut behind the first difference with the byte there raised, exactly when that stays below the limit; then it is strictly between |
| Comparator.FindShortSuccessor | RNDM/Pods/leveldb-library/util/comparator.cc:52-64 | cut behind the first byte that is not 255, raised; the key itself exactly when all bytes are 255 |
| Comparator.InternalIsOrder | RNDM/Pods/leveldb-library/db/dbformat.cc:51-67 | the comparison of encoded internal keys is a total order |
| Comparator.FindInternalSeparator | RNDM/Pods/leveldb-library/db/dbformat.cc:69-86 | the first internal key of the separator of the user keys exactly when that one is shorter, and the key itself otherwise |
| Comparator.FindInternalSuccessor | RNDM/Pods/leveldb-library/db/dbformat.cc:88-101 | the same for the successor |
| Comparator.SeparatorIsFirst | RNDM/Pods/leveldb-library/db/dbformat.cc:81-82 | no internal key of the same user key is before it, whatever its sequence number and type |
| Comparator.SeparatorIsBefore | RNDM/Pods/leveldb-library/db/dbformat.cc:69-86 | a separator lies before the first key of the next block |
| TableFooter.HandleRoundTrip | RNDM/Pods/leveldb-library/table/format.cc:15-31 | a block handle is read back, whatever follows it |
| TableFooter.FooterRoundTrip | RNDM/Pods/leveldb-library/table/format.cc:33-66 | the handles of the metaindex and the index are read back from the footer |
| TableFormat.AddStep | RNDM/Pods/leveldb-library/table/table_builder.cc:94-123 | the delayed index entry separates its block from the key just added |
| TableFormat.TableBuilder.Add | RNDM/Pods/leveldb-library/table/table_builder.cc:94-123 | one more item; the block is written exactly when its bytes reach the block size; the index entries are the shortest separators; the pending entry and the filter keys stay right |
| TableFormat.TableBuilder.Filled | RNDM/Pods/leveldb-library/table/table_builder.cc:119-122 | the block is written exactly when its bytes reach the block size |
| TableFormat.TableBuilder.Flush | RNDM/Pods/leveldb-library/table/table_builder.cc:125-139 | the block is in the file, its index entry is pending, and the next filter starts where the next block will |
| TableFormat.TableBuilder.FinishFilter | RNDM/Pods/leveldb-library/table/table_builder.cc:206-209 | the filter at the place of each block passes exactly what the keys of the blocks that start in the same two kilobytes make it pass, so it misses no key |
| TableFormat.TableBuilder.Finish | RNDM/Pods/leveldb-library/table/table_builder.cc:198-252 | the file holds all items in blocks with their trailers, an index entry for each, the exact filter, the metaindex, the index and the footer |
| TableLookup.IndexBounds | RNDM/Pods/leveldb-library/table/table_builder.cc:102-109 | last key of a block <= its index key < first key of the next block |
| TableLookup.BetweenSeparated | RNDM/Pods/leveldb-library/table/table.cc:216-244 | a key between the last key of a block and its separator has not the user key of the next block |
| TableLookup.Rejected | RNDM/Pods/leveldb-library/table/table.cc:226-229 | a key that the filter rejects has no entry of its user key in the block the index leads to |
| TableLookup.ReadBlock | RNDM/Pods/leveldb-library/table/format.cc:64-142 | a block that the builder wrote passes the tests of its length, checksum and type, and is read back |
| TableLookup.InternalGet | RNDM/Pods/leveldb-library/table/table.cc:216-244 | looking in one block, checksums tested or not, or in none when the filter rejects the key, reports the first item at or after the key, unless that item has another user key |
| TableLookup.ReadMeta | RNDM/Pods/leveldb-library/table/table.cc:82-133 | the filter that the builder wrote is found, when reader and builder use the same policy name |
| TableLookup.Open | RNDM/Pods/leveldb-library/table/table.cc:38-80 | the index and the filter of a file that the builder finished are found through its footer, and read with their trailers |
| TableLookup.OpenAndGet | RNDM/Pods/leveldb-library/table/table.cc:38-244 | opening such a file and looking a key up agrees with the flat sorted list of all added items |
| LogFormat.ExtendStreams | RNDM/Pods/leveldb-library/util/crc32c.h:15-19 | a byte-wise checksum of a concatenation is the checksum continued |
| LogFormat.UnmaskMask | RNDM/Pods/leveldb-library/util/crc32c.h:29-38 | Unmask undoes Mask |
| LogFormat.MaskUnmask | RNDM/Pods/leveldb-library/util/crc32c.h:29-38 | Mask undoes Unmask |
| LogWriter.Writer.AddRecord | RNDM/Pods/leveldb-library/db/log_writer.cc:34-82 | the file grows by the fragments of the record, from wherever it ends |
| LogWriter.Writer.EmitPhysicalRecord | RNDM/Pods/leveldb-library/db/log_writer.cc:84-108 | the file grows by one header and fragment within the block |
| LogReader.Reader.ReadRecord | RNDM/Pods/leveldb-library/db/log_reader.cc:56-174 | for every file: record, reports and position are those of reading at a position, whatever is buffered |
| LogReader.Reader.ReadPhysicalRecord | RNDM/Pods/leveldb-library/db/log_reader.cc:189-271 | for every file: the physical record at a position |
| LogRoundTrip.CompleteRecordIsRead | RNDM/Pods/leveldb-library/db/log_reader.cc:56-174 | a record complete in the file is read back, through any number of fragments |
| LogRoundTrip.CutOffRecordIsNotRead | RNDM/Pods/leveldb-library/db/log_reader.cc:189-271 | a record cut off anywhere is not returned and not reported |
| LogRoundTrip.ReadsPrefix | RNDM/Pods/leveldb-library/db/log_reader.cc:56-174 | reading any byte-prefix of a log gives exactly the records complete in it, and no report |
| LogRoundTrip.ReadsBack | RNDM/Pods/leveldb-library/db/log_writer.cc:34-108 | reading a log gives exactly the records added, and no report |
| LogRoundTrip.FoundIsGenuine | RNDM/Pods/leveldb-library/db/log_reader.cc:232-271 | in any file, a fragment is returned only if its bytes are what the writer would emit for it |
| LogRoundTrip.ReadsAppended | RNDM/Pods/leveldb-library/db/log_reader.cc:56-174 | records added behind any bytes are read back from where they begin |
| LogReuse.AppendedIsReadIff | RNDM/Pods/leveldb-library/db/db_impl.cc:457-476 | a record added to a log cut off at any byte is read behind the complete ones exactly when it does not begin in the block of a torn physical record, up to a checksum coincidence there |
| LogReuse.ReuseIsSafe | RNDM/Pods/leveldb-library/db/db_impl.cc:457-476 | and then so is every further record |
| LogReuse.CleanCut | RNDM/Pods/leveldb-library/db/db_impl.cc:457-476 | cut at the end of a record, or in the block trailer behind it, the file is the log of the complete and the added records |
| LogReuse.AddedRecordIsLost | RNDM/Pods/leveldb-library/db/db_impl.cc:457-476 | a concrete torn log whose added record is lost |
| LogReuse.GenuineOnlyByCollision | RNDM/Pods/leveldb-library/db/log_reader.cc:232-254 | torn bytes and added ones form a physical record only if its checksum is that of the torn one |
| LogReuse.TornThenAppended | RNDM/Pods/leveldb-library/db/log_reader.cc:56-174 | what a reader in the middle of a cut off record makes of the record added behind it |
| LogReuse.NewRecordIsRead | RNDM/Pods/leveldb-library/db/log_reader.cc:92-122 | a record is read whatever the reader was in the middle of |
| LogReuse.RestIsSkipped | RNDM/Pods/leveldb-library/db/log_reader.cc:123-143 | fragments whose first one is lost are never returned |
| LogAccount.BytesAreAccountedFor | RNDM/Pods/leveldb-library/db/log_reader.cc:56-271 | for every file: each byte is in a returned record, is reported as dropped, or is a header, a block trailer, zeroed space or the torn end |
| FileFormats.LogFollowsFormat | RNDM/Pods/leveldb-library/db/log_format.h:14-30 | a reader that knows the log format by number only finds exactly the records that were added |
| FormatReading.EditFollowsFormat | RNDM/Pods/leveldb-library/db/version_edit.cc:14-85 | a reader that knows the MANIFEST format by number only finds the records of an edit in its bytes |
| FormatReading.BatchFollowsFormat | RNDM/Pods/leveldb-library/db/write_batch.cc:5-14 | such a reader of write batches finds sequence number, count and the operations |
| FormatReading.FooterFollowsFormat | RNDM/Pods/leveldb-library/table/format.cc:33-41 | the footer is 48 bytes: the two handles as varints from the front, and at the end the eight bytes of the magic number |
| FormatReading.NumbersAgree | RNDM/Pods/leveldb-library/util/coding.cc:113-169 | for all bytes: GetVarint32 takes a number of at most five bytes modulo 2^32, GetVarint64 one of at most ten modulo 2^64, and nothing else |
| FormatReading.BatchIsGood | RNDM/Pods/leveldb-library/db/write_batch.cc:42-80 | for all bytes: Iterate ends well exactly when there are operations up to the end, as many as the count says, and then it has handled them |
| FormatReading.EditIsGood | RNDM/Pods/leveldb-library/db/version_edit.cc:107-205 | for all bytes: DecodeFrom ends well exactly when there are records up to the end, and then the fields are what they say |
| FormatReading.FooterIsGood | RNDM/Pods/leveldb-library/table/format.cc:43-66 | for all bytes: a footer is accepted exactly when it ends in the magic number and begins with two handles |
| FileFormats.TrailerFollowsFormat | RNDM/Pods/leveldb-library/table/table_builder.cc:181-193 | behind each block: a zero, and four bytes of masked checksum |
| FileFormats.InternalKeyFollowsFormat | RNDM/Pods/leveldb-library/db/dbformat.cc:14-23 | behind the user key: type 1 or 0 and seven bytes of sequence number |
| FileFormats.BlockFollowsFormat | RNDM/Pods/leveldb-library/table/block_builder.cc:5-27 | such a reader of blocks finds the items and the number of restart points |
| FileFormats.RestartFollowsFormat | RNDM/Pods/leveldb-library/table/block_builder.cc:16-27 | from the k-th restart point on it finds the items from the k-th interval on |
| FileFormats.SharesMost | RNDM/Pods/leveldb-library/table/block_builder.cc:80-87 | an entry shares with the key before it as long a part as there is |
| FileFormats.FilterFollowsFormat | RNDM/Pods/leveldb-library/table/filter_block.cc:35-49 | such a reader of filter blocks finds each filter through the words for the places |
| Bloom.WithBitHas | RNDM/Pods/leveldb-library/util/bloom.cc:48 | setting a bit sets that bit and no other |
| Bloom.CreateFilter | RNDM/Pods/leveldb-library/util/bloom.cc:28-54 | max(64, keys * bits per key) bits rounded up to bytes, a bit set exactly when it is one of the first k probes of some key, and a last byte k |
| Bloom.ProbeHashIs | RNDM/Pods/leveldb-library/util/bloom.cc:43-51 | the j-th probe is at h + j * (h rotated right by 17 bits) in 32 bits |
| Bloom.MatchesIff | RNDM/Pods/leveldb-library/util/bloom.cc:56-80 | a key may match a filter exactly when each of its probes is one of some key of the filter |
| Bloom.NoKeyIsMissed | RNDM/Pods/leveldb-library/util/bloom.cc:28-54 | so every key of the filter may match it |
| Bloom.Probes | RNDM/Pods/leveldb-library/util/bloom.cc:18-23 | the whole number of probes next below 0.69 per bit, at least one and at most thirty |
| Bloom.KeyMayMatch | RNDM/Pods/leveldb-library/util/bloom.cc:56-80 | the probe loop says whether all probes of the encoded count hit |
| FilterBlock.ReadsFilter | RNDM/Pods/leveldb-library/table/filter_block.cc:77-104 | reading a finished block at an offset asks the filter of that offset |
| FilterBlock.FilterPasses | RNDM/Pods/leveldb-library/table/filter_block.cc:77-104 | the filter of some keys passes a key exactly when all its probes are probes of theirs; the filter of none passes no key |
| FilterBlock.FilterBlockBuilder.StartBlock | RNDM/Pods/leveldb-library/table/filter_block.cc:21-27 | exactly the filters up to the offset are generated: the pending keys go into the first of them, the others are empty |
| FilterBlock.FilterBlockBuilder.AddKey | RNDM/Pods/leveldb-library/table/filter_block.cc:29-33 | one more key for the filter of the last StartBlock, and nothing else |
| FilterBlock.FilterBlockBuilder.GenerateFilter | RNDM/Pods/leveldb-library/table/filter_block.cc:51-75 | the flattened keys are recovered and are exactly those of the new filter; none for no keys |
| FilterBlock.FilterBlockBuilder.Finish | RNDM/Pods/leveldb-library/table/filter_block.cc:35-49 | the filter that is read at an offset passes exactly what the keys added at that offset make it pass |
| PbWire.VarintRoundTrip | RNDM/Pods/nanopb/pb_decode.c:255-276 | a 64-bit varint is decoded and leaves what follows |
| PbWire.Varint32RoundTrip | RNDM/Pods/nanopb/pb_decode.c:187-253 | a 32-bit varint is decoded and leaves what follows |
| PbWire.ZigzagRoundTrip | RNDM/Pods/nanopb/pb_encode.c:621-630 | the zigzag form of a signed number is undone |
| PbWire.SignedRoundTrip | RNDM/Pods/nanopb/pb_encode.c:767-788 | a negative number survives the conversion to 64 bits, at 32 bits too |
| PbWire.FixedRoundTrip | RNDM/Pods/nanopb/pb_decode.c:1283-1310 | a little-endian word is decoded |
| PbFields.FieldIter.Next | RNDM/Pods/nanopb/pb_common.c:20-76 | the iterator moves on, and says so unless it wraps around |
| PbFields.FieldIter.Find | RNDM/Pods/nanopb/pb_common.c:78-98 | a full turn from anywhere finds the field with the tag, if there is one |
| PbFields.FieldIter.RequiredCount | RNDM/Pods/nanopb/pb_decode.c:1027-1038 | the number of required fields |
| PbEncode.OStream.Write | RNDM/Pods/nanopb/pb_encode.c:103-124 | bytes are kept or counted, and refused exactly when they do not fit |
| PbEncode.OStream.EncodeVarint | RNDM/Pods/nanopb/pb_encode.c:599-619 | the base-128 groups of the number |
| PbEncode.EncodeArray | RNDM/Pods/nanopb/pb_encode.c:144-234 | the items, packed with their size first or each under its tag; too many items are refused |
| PbEncode.EncodeField | RNDM/Pods/nanopb/pb_encode.c:332-417 | the bytes of the field by its rule, presence and default; what they are is `PbFormat.FormatOfEncoding` |
| PbEncode.Encode | RNDM/Pods/nanopb/pb_encode.c:519-541 | succeeds exactly when the message respects its capacities and the bytes fit; then it wrote its encoding; what that is is `PbFormat.FormatOfEncoding` |
| PbEncode.EncodeSubmessage | RNDM/Pods/nanopb/pb_encode.c:708-756 | the sizing pass counts what is written, so the size check afterwards cannot fail |
| PbEncode.GetEncodedSize | RNDM/Pods/nanopb/pb_encode.c:558-567 | the length of the encoding, or a failure exactly when a capacity is exceeded |
| PbFormat.FormatOfEncoding | RNDM/Pods/nanopb/pb.h:318-324 | a reader that knows the wire format by number only finds in every encoding exactly the records of the fields, in order, nested messages likewise |
| PbFormat.EmptyIff | RNDM/Pods/nanopb/pb_encode.c:237-329 | a proto3 value is left out exactly when it is zero, false or empty, a submessage when all of it is |
| PbDecode.DecodeMessage | RNDM/Pods/nanopb/pb_decode.c:925-1073 | decoding any bytes terminates, and a result has the shape of its descriptor; when there is one is `PbMessages.RequiredIff` |
| PbStream.DecodeNoInit | RNDM/Pods/nanopb/pb_decode.c:925-1073 | the loop over the stream, for any bytes, gives what the decoding function says, a missing required field included, and leaves the stream there |
| PbStream.DecodeStaticField | RNDM/Pods/nanopb/pb_decode.c:406-480 | the field decoders, on substreams, agree with the decoding function |
| PbStream.IStream.MakeSubstream | RNDM/Pods/nanopb/pb_decode.c:372-385 | the substream sees exactly the delimited part |
| PbStream.IStream.CloseSubstream | RNDM/Pods/nanopb/pb_decode.c:387-404 | the parent continues where the substream ended |
| PbStream.DecodeSubmessage | RNDM/Pods/nanopb/pb_decode.c:1503-1525 | a submessage is decoded within its length, merged into the current value |
| PbStream.DecodeBuffer | RNDM/Pods/nanopb/pb_decode.c:1075-1087 | pb_decode gives what the decoding function says |
| PbMessages.RequiredIff | RNDM/Pods/nanopb/pb_decode.c:1027-1066 | for all bytes: a message is decoded exactly when its records are, one by one, and the tag of each of the first 64 required fields is on one of them |
| PbMessages.AllSeenIff | RNDM/Pods/nanopb/pb_decode.c:1027-1066 | the bit set of required fields is full exactly when the tag of each of the first 64 was met |
| PbParts.RequiredInRecords | RNDM/Pods/nanopb/pb_decode.c:1027-1066 | the same with the tags that a reader of the wire format finds |
| PbParts.TagsAreRecords | RNDM/Pods/nanopb/pb_decode.c:298-319 | the tags that are met are those of the records in the wire format, in order |
| PbParts.UnknownFieldsAreIgnored | RNDM/Pods/nanopb/pb_decode.c:957-985 | a message with any unknown fields between its fields is decoded to the same message |
| PbParts.UnpackedArray | RNDM/Pods/nanopb/pb_decode.c:424-463 | a packable array with each item under its own key is decoded like the packed one |
| PbParts.ZeroEnds | RNDM/Pods/nanopb/pb_decode.c:298-319 | a zero byte in place of a key ends the message, and what follows it is left |
| PbParts.PartsMerge | RNDM/Pods/nanopb/pb_decode.c:925-1073 | decoding two parts put together is decoding the first and merging the second into it |
| PbParts.SubmessageInParts | RNDM/Pods/nanopb/pb_decode.c:1503-1525 | a submessage that comes in two records is the one their bytes make together |
| PbMerge.DecodingIsMerging | RNDM/Pods/nanopb/pb_decode.c:925-1073 | for all bytes that are records of the fitting wire types: the message is what merging the records one by one makes of the slots, and it is refused exactly when one of them cannot be merged or a required field is on none |
| PbMerge.FieldIsMeant | RNDM/Pods/nanopb/pb_decode.c:406-480 | one record: the last value wins, submessages are merged, items are added as long as there is room, a member of a oneof replaces the others |
| PbMerge.WireTypeIsIgnored | RNDM/Pods/nanopb/pb_decode.c:406-419 | two bytes that are no record in the wire format and are decoded as a truth value |
| PbRoom.DecodedFits | RNDM/Pods/nanopb/pb_decode.c:448-463 | for all bytes: what is decoded respects the size of every array and byte string, at every depth |
| PbReading.WholeVarint | RNDM/Pods/nanopb/pb_decode.c:255-276 | for all bytes: a varint is decoded exactly when it has at most ten bytes, to its number modulo 2^64 |
| PbReading.WholeVarint32 | RNDM/Pods/nanopb/pb_decode.c:187-253 | for all bytes: a decoded 32-bit varint is its number modulo 2^32, and a number below 2^32 is decoded |
| PbReading.AcceptedIff | RNDM/Pods/nanopb/pb_decode.c:187-253 | exactly which varints the overflow tests accept, by their bytes |
| PbReading.OverflowIsMissed | RNDM/Pods/nanopb/pb_decode.c:214-241 | six bytes for 7 * 2^32 that are accepted as 0 |
| PbReading.SkipAgrees | RNDM/Pods/nanopb/pb_decode.c:278-334 | skipping a field passes over exactly its payload in the wire format |
| PbReading.NumberMeans | RNDM/Pods/nanopb/pb_decode.c:1318-1412 | booleans and integers are decoded from every number as their types say, two's complement and zigzag by number, and refused exactly when out of range |
| PbReading.WordMeans | RNDM/Pods/nanopb/pb_decode.c:1283-1316 | fixed-size fields are the words of four and eight bytes, low byte first |
| PbReading.BytesMean | RNDM/Pods/nanopb/pb_decode.c:1431-1501 | bytes and strings are taken exactly when they fit, a string up to its first zero |
| PbReading.MessageMeans | RNDM/Pods/nanopb/pb_decode.c:1503-1525 | a submessage is decoded from exactly its bytes, on top of the current value unless it is a new item |
| PbRoundTrip.FieldRoundTrip | RNDM/Pods/nanopb/pb_decode.c:406-480 | decoding an encoded field sets exactly its slot |
| PbRoundTrip.MessageRoundTrip | RNDM/Pods/nanopb/pb_decode.c:925-1073 | a nested message is decoded back from its encoding into default slots |
| PbRoundTrip.RoundTrip | RNDM/Pods/nanopb/pb_encode.c:519-541 | pb_decode of what pb_encode wrote is the message, with nothing left over |
| PbRoundTrip.EncodingIsInjective | RNDM/Pods/nanopb/pb_encode.c:519-541 | different messages have different encodings |

## Left out

- DbImpl.DBImpl.BuildOutputs: requires `TombstonesClosed`, which the code does not establish when a `level+1` file with an older entry of a dropped marker's key is left out; there the claim about reads is false, and `LsmBoundary.ReadsSurviveIff` gives the exact condition. `LsmBoundary.ClosureDischargesGuard` discharges it for boundary-closed inputs.
- DbImpl.DBImpl.Open: requires that a log or MANIFEST that is gone on with is not torn, which the code does not check; `LogReuse.AppendedIsReadIff` says when the next record is lost otherwise. Error returns are left out.
- DbImpl.DBImpl.LogAndApply: does not model the creation of the MANIFEST file, `PrevLogNumber`, or failed writes of the record.
- DbImpl.DBImpl.InstallCompactionResults: requires the assertion of the Builder, which fails for some manual compactions with gaps; `LsmCompaction.CoveredCanInstall` discharges it for the others.
- DbImpl.DBImpl.Write: takes a whole group as one batch; how groups form is in `WriteQueues`. The waiting and throttling in `MakeRoomForWrite` are not modelled.
- CompactionLoop.DoCompactionWork: where an output ends (`ShouldStopBefore`, target sizes) is any choice, and its input is the sorted sequence that the merging iterator is proved to present; corrupted keys are left out.
- Recovery.RecoverLogFile: when the memtable is full is any choice; works on the records of a log, and what the log reader makes of damaged or torn bytes is in `LogReader`, `LogRoundTrip` and `LogReuse`.
- Recovery.RecoverLogs: works on the records of the logs in the same way.
- ManifestBuilder.Builder.Apply: does not carry the compaction pointers and `allowed_seeks` of an edit, which only steer the choice of compactions.
- ManifestBuilder.WriteSnapshot: does not write the comparator name and the compaction pointers.
- ManifestBuilder.ReplayManifest: requires that each (level, number) is added at most once, which `DbImpl` proves of every edit it makes.
- EditCodec.VersionEdit.EncodeTo: allows any order of the deleted files, a `std::set` has one.
- SkipLists.SkipList.Insert: one writer at a time, as the code requires; any height from 1 to 12 stands for the random one, and memory orderings are replaced by atomic single loads and stores.
- SkipLists.SkipListIterator.Next: the method runs while no insertion does; iteration beside a writer is `SkipLists.ScanVisitsEarlierKeys` and `SkipLists.ScanAscends`.
- SkipLists.SkipListIterator.Prev: the method runs while no insertion does; the search behind it is proved beside a writer in `SkipLists.SearchIsAtomic`.
- SkipLists.SkipListIterator.Seek: as Prev.
- SkipLists.SkipListIterator.SeekToFirst: as Next.
- SkipLists.SkipListIterator.SeekToLast: FindLast is proved on any list that a writer has half linked, but not among several stores.
- HandleTables.HandleTable.FindPointer: writes `hash & (length_ - 1)` as `hash % length`, `length` being a power of two.
- LruCaches.LRUCache.Insert: one shard; the sharding by the top hash bits and the mutex are left out, and counters are unbounded.
- WriteQueues.WriteQueue.Finish: waiting and signalling are left out; what AddRecord and Sync return are parameters.
- TableFormat.TableBuilder.Finish: compression is left out, and writes do not fail.
- TableLookup.InternalGet: assumes a table that the builder wrote and blocks below 4 GB.
- TableLookup.ReadBlock: on blocks that the builder wrote; other blocks get the error returns of the code, about which nothing is said.
- TableLookup.Open: the same; other files are rejected by `TableFooter.DecodeFooter` or not at all.
- Bloom.CreateFilter: the key hash is any function to 32 bits; the product of `bits_per_key` and 0.69 is taken exactly, and the bit count does not wrap around.
- FilterBlock.FilterBlockBuilder.Finish: the promise is for blocks below 4 GB, because offsets are 32-bit words.
- LogReader.Reader.ReadRecord: starts at offset 0; `initial_offset` and resynchronisation are left out.
- LogReader.Reader.ReadPhysicalRecord: reads of the file do not fail.
- PbRoundTrip.RoundTrip: for encodings below 4 GB, because lengths are 32-bit words.
- PbStream.DecodeNoInit: leaves out extensions and fixed-count fields.
- PbDecode.DecodeMessage: does not model the 8-bit wrap-around of the bit position in varints padded to more than 36 bytes.
- I/O errors other than those of the log, and loss of unsynced data when the machine, not the process, dies.
- Sequence numbers reach at most 2^56 - 2; file numbers are unbounded.
- The checksum is a fold of an arbitrary step function over bytes; the CRC polynomial is not modelled.
- Compaction scores, seek-triggered compactions, read sampling and the compaction pointer as state: any start file is allowed.
- `db/snapshot.h`: the snapshot list is an ordered sequence of sequence numbers.
- The table cache, `repair.cc` and the environment.
- nanopb: callbacks, extensions, pointer fields, fixed-count arrays and explicit defaults of singular fields; messages are values, not memory.
- The applications, generated headers and `RNDM/Pods/BoringSSL-GRPC/err_data.c`: user interface and tables of constants.
