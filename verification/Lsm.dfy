/**
  The database as a state machine: what its fields hold, which steps change them
  (db/db_impl.cc), and the invariant every step keeps.
 */
module Lsm {
  import opened Wrappers
  import opened Keys
  import opened VersionedMap
  import opened Versions
  import opened VersionEdits
  import opened Overlap
  import opened CompactionInputs
  import opened CompactionLoop

  // A compaction whose outputs are built but not installed.  `ss` is smallest_snapshot.
  datatype Pending = Pending(level: nat, in0: seq<File>, in1: seq<File>, input: seq<Entry>, ss: nat, outputs: seq<File>)

  datatype State = State(
    ops: seq<Op>,              // every operation written so far; its length is LastSequence()
    switched: nat,             // operations before this one are not in mem
    flushed: nat,              // operations before this one are not in imm either
    mem: seq<Entry>,
    imm: Option<seq<Entry>>,
    version: Version,          // current version, and what MANIFEST replay gives back
    snapshots: seq<nat>,       // held snapshots, oldest first
    compaction: Option<Pending>,
    pinned: seq<Version>,      // versions referenced by iterators
    nextFile: nat,             // next_file_number_
    log: nat,                  // logfile_number_
    logNumber: nat,            // log_number_, in the MANIFEST
    manifestNext: nat,         // next file number in the MANIFEST
    manifestSequence: nat,     // last sequence in the MANIFEST
    logs: map<nat, seq<seq<Entry>>>,  // log files: the records of each
    tables: set<nat>           // numbers of the table files on disk
  )

  // ---- Contents ----

  function ImmEntries(s: State): seq<Entry> {
    if s.imm.Some? then s.imm.value else []
  }

  ghost function After(ops: seq<Op>, n: nat): iset<Entry> {
    iset e | e in History(ops) && e.key.sn > n
  }

  ghost function All(s: State): iset<Entry> {
    After(s.ops, s.flushed) + TableEntries(s.version)
  }

  // The entries of operations a .. b-1, in order.
  ghost function Run(ops: seq<Op>, a: nat, b: nat): seq<Entry>
    requires a <= b <= |ops|
  {
    seq(b - a, i requires 0 <= i < b - a => EntryOf(ops[a + i], a + i + 1))
  }

  function FileNumbers(files: seq<File>): set<nat> {
    set f | f in files :: f.number
  }

  // The oldest sequence number a reader may still use.
  function SmallestSnapshot(s: State): nat {
    if s.snapshots == [] then |s.ops| else s.snapshots[0]
  }

  // ---- The invariant ----

  ghost predicate RunsInv(s: State) {
    && s.flushed <= s.switched <= |s.ops| < MAX_SEQUENCE
    && Sorted(s.mem) && Sorted(ImmEntries(s))
    && (forall e :: e in s.mem <==> e in History(s.ops) && e.key.sn > s.switched)
    && (forall e :: e in ImmEntries(s) <==> e in History(s.ops) && s.flushed < e.key.sn <= s.switched)
  }

  ghost predicate VersionInv(s: State) {
    && VersionOk(s.version)
    && (forall e :: e in TableEntries(s.version) ==> e in History(s.ops) && e.key.sn <= s.flushed)
    && (forall i, f :: 0 <= i < |s.version| && f in s.version[i] ==> f.number < s.manifestNext)
    && s.manifestNext <= s.nextFile
  }

  // Every read a snapshot holder may make sees what the full history would show.
  ghost predicate ReadsPreserved(s: State) {
    forall k, n :: n >= SmallestSnapshot(s) ==> View(All(s), k, n) == View(History(s.ops), k, n)
  }

  ghost predicate SnapshotInv(s: State) {
    && (forall i, j :: 0 <= i < j < |s.snapshots| ==> s.snapshots[i] <= s.snapshots[j])
    && forall i :: 0 <= i < |s.snapshots| ==> s.snapshots[i] <= |s.ops|
  }

  // ---- Logs ----

  ghost function Flatten(records: seq<seq<Entry>>): seq<Entry> {
    if records == [] then [] else Flatten(records[..|records| - 1]) + records[|records| - 1]
  }

  // What replaying the logs numbered lo .. hi-1 in ascending order yields.
  ghost function Replay(logs: map<nat, seq<seq<Entry>>>, lo: nat, hi: nat): seq<Entry>
    decreases hi - lo
  {
    if lo >= hi then []
    else Replay(logs, lo, hi - 1) + if hi - 1 in logs then Flatten(logs[hi - 1]) else []
  }

  // mem and imm can be rebuilt from logs numbered LogNumber() and up.
  ghost predicate LogInv(s: State) {
    && s.flushed <= s.switched <= |s.ops|
    && s.logNumber <= s.log < s.nextFile
    && s.log in s.logs
    && (forall n :: n in s.logs ==> n <= s.log)
    && Flatten(s.logs[s.log]) == Run(s.ops, s.switched, |s.ops|)
    && Replay(s.logs, s.logNumber, s.log) == Run(s.ops, s.flushed, s.switched)
    && s.flushed <= s.manifestSequence <= |s.ops|
  }

  // ---- Table files ----

  // Numbers DeleteObsoleteFiles keeps: pending outputs and the files of live versions.
  ghost predicate LiveTable(s: State, n: nat) {
    || InVersion(s.version, n)
    || (exists v :: v in s.pinned && InVersion(v, n))
    || (s.compaction.Some? && exists f :: f in s.compaction.value.outputs && f.number == n)
  }

  ghost predicate TablesInv(s: State) {
    forall n: nat :: LiveTable(s, n) ==> n in s.tables && n < s.nextFile
  }

  // ---- A compaction in flight ----

  // The inputs as the merging iterator presents them.
  ghost predicate IsMerged(input: seq<Entry>, in0: seq<File>, in1: seq<File>) {
    && Sorted(input)
    && forall e :: e in input <==> InLevel(in0, e) || InLevel(in1, e)
  }

  // h lies before, or after, everything being compacted.
  ghost predicate OutsideInput(h: File, input: seq<Entry>) {
    || (forall e :: e in input ==> Less(h.largest, e.key))
    || (forall e :: e in input ==> Less(e.key, h.smallest))
  }

  // The outputs will not overlap what stays behind at level + 1.
  ghost predicate FitsBelow(files: seq<File>, in1: seq<File>, input: seq<Entry>) {
    forall h :: h in files && h !in in1 ==> OutsideInput(h, input)
  }

  // The assertion of the Builder: levels 1 and up hold no overlapping files.
  ghost predicate OutputsApart(files: seq<File>, in1: seq<File>, outputs: seq<File>) {
    forall h, o :: h in files && h !in in1 && o in outputs ==> Apart(o, h)
  }

  // No file that stays behind at level + 1 holds an older entry of a key whose deletion marker
  // is dropped.
  ghost predicate TombstonesClosed(v: Version, level: nat, in1: seq<File>, input: seq<Entry>, ss: nat) {
    level + 1 < |v| ==>
      forall h, x, e :: h in v[level + 1] && h !in in1 && x in h.entries && e in input && ObsoleteTombstone(v, level, ss, e) ==>
        x.key.user == e.key.user ==> x.key.sn > e.key.sn
  }

  // What stays behind at `level` is newer than what leaves it.
  ghost predicate StayersNewer(files: seq<File>, in0: seq<File>) {
    forall f, g :: f in files && f !in in0 && g in in0 ==> Newer(f.entries, g.entries)
  }

  ghost predicate OutputsOk(v: Version, c: Pending) {
    && |v| == NUM_LEVELS && c.level + 1 < NUM_LEVELS
    && (forall f :: f in c.in0 ==> f in v[c.level])
    && (forall f :: f in c.in1 ==> f in v[c.level + 1])
    && StayersNewer(v[c.level], c.in0)
    && IsMerged(c.input, c.in0, c.in1)
    && (forall e :: InLevel(c.outputs, e) <==> Kept(v, c.level, c.input, c.ss, e))
    && SortedDisjoint(c.outputs) && (forall f :: f in c.outputs ==> WfFile(f))
  }

  ghost predicate CompactionOk(v: Version, c: Pending) {
    && OutputsOk(v, c)
    && TombstonesClosed(v, c.level, c.in1, c.input, c.ss)
    && (Covered(c.in0 + c.in1) ==> FitsBelow(v[c.level + 1], c.in1, c.input))
  }

  ghost predicate FreshNumbers(v: Version, c: Pending, nextFile: nat) {
    && DistinctNumbers(c.outputs)
    && (forall f :: f in c.outputs ==> f.number < nextFile)
    && (forall f, i, g :: f in c.outputs && 0 <= i < |v| && g in v[i] ==> f.number != g.number)
  }

  ghost predicate PendingInv(s: State) {
    s.compaction.Some? ==>
      && CompactionOk(s.version, s.compaction.value)
      && FreshNumbers(s.version, s.compaction.value, s.nextFile)
      && s.compaction.value.ss <= SmallestSnapshot(s)
  }

  ghost predicate Inv(s: State) {
    && RunsInv(s)
    && VersionInv(s)
    && ReadsPreserved(s)
    && SnapshotInv(s)
    && LogInv(s)
    && TablesInv(s)
    && PendingInv(s)
  }

  // ---- Steps ----

  // Write: one batch is logged as one record and added to the memtable.
  ghost predicate Write(s: State, s': State, batch: seq<Op>) {
    && |s.ops| + |batch| < MAX_SEQUENCE
    && s.log in s.logs
    && Sorted(s'.mem)
    && (forall e :: e in s'.mem <==> e in s.mem || e in Run(s.ops + batch, |s.ops|, |s.ops| + |batch|))
    && s' == s.(ops := s.ops + batch, mem := s'.mem,
                logs := s.logs[s.log := s.logs[s.log] + [Run(s.ops + batch, |s.ops|, |s.ops| + |batch|)]])
  }

  // MakeRoomForWrite: a new log, and the full memtable becomes the immutable one.
  ghost predicate Switch(s: State, s': State) {
    && s.imm.None?
    && s' == s.(mem := [], imm := Some(s.mem), switched := |s.ops|,
                log := s.nextFile, nextFile := s.nextFile + 1, logs := s.logs[s.nextFile := []])
  }

  // CompactMemTable: imm becomes a table at the level PickLevelForMemTableOutput chose.
  ghost predicate Flush(s: State, s': State, level: nat, f: File) {
    && s.imm.Some? && |s.version| == NUM_LEVELS
    && level <= MAX_MEM_COMPACT_LEVEL
    && (s.imm.value != [] ==>
          && f.number == s.nextFile && f.entries == s.imm.value
          && f.smallest == f.entries[0].key && f.largest == f.entries[|f.entries| - 1].key
          && (level > 0 ==> forall i :: 0 <= i <= level ==> !LevelOverlaps(s.version, i, f.smallest.user, f.largest.user)))
    && Applied(s.version, Edit({}, if s.imm.value != [] then [(level, f)] else []), s'.version)
    && s' == s.(imm := None, flushed := s.switched, version := s'.version, nextFile := s.nextFile + 1,
                logNumber := s.log, manifestNext := s.nextFile + 1, manifestSequence := |s.ops|,
                tables := if s.imm.value != [] then s.tables + {s.nextFile} else s.tables)
  }

  // BackgroundCompaction, IsTrivialMove: one file moves down a level.
  ghost predicate Move(s: State, s': State, level: nat, f: File) {
    && s.compaction.None?
    && ValidInputs(s.version, level, [f], [])
    && Applied(s.version, Edit({(level, f.number)}, [(level + 1, f)]), s'.version)
    && s' == s.(version := s'.version, manifestNext := s.nextFile, manifestSequence := |s.ops|)
  }

  // DoCompactionWork up to InstallCompactionResults.
  ghost predicate Builds(s: State, s': State, c: Pending) {
    && s.compaction.None?
    && ValidInputs(s.version, c.level, c.in0, c.in1)
    && IsMerged(c.input, c.in0, c.in1)
    && c.ss == SmallestSnapshot(s)
    && (forall e :: InLevel(c.outputs, e) <==> Kept(s.version, c.level, c.input, c.ss, e))
    && SortedDisjoint(c.outputs) && (forall f :: f in c.outputs ==> WfFile(f))
    && Numbered(c.outputs, s.nextFile)
    && s' == s.(compaction := Some(c), nextFile := s.nextFile + |c.outputs|,
                tables := s.tables + FileNumbers(c.outputs))
  }

  // The step has a guard that the code does not check.
  ghost predicate Begin(s: State, s': State, c: Pending) {
    Builds(s, s', c) && TombstonesClosed(s.version, c.level, c.in1, c.input, c.ss)
  }

  ghost function InstallEdit(c: Pending): Edit {
    Edit((set f | f in c.in0 :: (c.level, f.number)) + (set f | f in c.in1 :: (c.level + 1, f.number)),
         seq(|c.outputs|, i requires 0 <= i < |c.outputs| => (c.level + 1, c.outputs[i])))
  }

  // InstallCompactionResults.  The guard is what the Builder asserts.
  ghost predicate Install(s: State, s': State) {
    && s.compaction.Some?
    && var c := s.compaction.value;
    && c.level + 1 < |s.version|
    && OutputsApart(s.version[c.level + 1], c.in1, c.outputs)
    && Applied(s.version, InstallEdit(c), s'.version)
    && s' == s.(version := s'.version, compaction := None, manifestNext := s.nextFile, manifestSequence := |s.ops|)
  }

  ghost predicate GetSnapshot(s: State, s': State) {
    s' == s.(snapshots := s.snapshots + [|s.ops|])
  }

  ghost predicate ReleaseSnapshot(s: State, s': State, i: nat) {
    && i < |s.snapshots|
    && s' == s.(snapshots := s.snapshots[..i] + s.snapshots[i + 1..])
  }

  // An iterator takes, or gives back, a reference to a version.
  ghost predicate Pin(s: State, s': State) {
    s' == s.(pinned := s.pinned + [s.version])
  }

  ghost predicate Unpin(s: State, s': State, i: nat) {
    && i < |s.pinned|
    && s' == s.(pinned := s.pinned[..i] + s.pinned[i + 1..])
  }

  // DeleteObsoleteFiles
  ghost predicate Collect(s: State, s': State) {
    s' == s.(logs := map n | n in s.logs && n >= s.logNumber :: s.logs[n],
             tables := set n | n in s.tables && LiveTable(s, n))
  }
}
