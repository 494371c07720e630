/**
  DBImpl (db/db_impl.cc): the fields of an open database and the methods that change them.
  Each method performs one step of module Lsm, and reads return what the plain map holds.
 */
module DbImpl {
  import opened Wrappers
  import opened Keys
  import opened VersionedMap
  import opened Versions
  import opened VersionEdits
  import opened ManifestBuilder
  import opened MemTable
  import opened Overlap
  import opened CompactionInputs
  import opened CompactionLoop
  import opened Lsm
  import opened LsmWrites
  import opened LsmFlush
  import opened LsmCompaction
  import opened Recovery
  import opened LsmRecovery

  class DBImpl {
    ghost var ops: seq<Op>
    ghost var switched: nat
    ghost var flushed: nat
    var mem: seq<Entry>
    var imm: Option<seq<Entry>>
    var version: Version
    var lastSequence: nat
    var snapshots: seq<nat>
    var compaction: Option<Pending>
    var pinned: seq<Version>
    var nextFile: nat
    var log: nat
    var logNumber: nat
    var manifestNext: nat
    var manifestSequence: nat
    var logs: map<nat, seq<seq<Entry>>>
    var tables: set<nat>

    ghost function Now(): State
      reads this
    {
      State(ops, switched, flushed, mem, imm, version, snapshots, compaction, pinned, nextFile, log, logNumber,
            manifestNext, manifestSequence, logs, tables)
    }

    ghost predicate Valid()
      reads this
    {
      Inv(Now()) && lastSequence == |ops|
    }

    // The database after log replay: v is the version Recover installs or LogAndApply computes.
    constructor (d: Disk, r: Replayed, last: nat, v: Version, ghost ops: seq<Op>, ghost mid: nat)
      ensures lastSequence == if d.manifestSequence < r.maxSequence then r.maxSequence else d.manifestSequence
      ensures this.version == v && snapshots == []
      ensures lastSequence == |ops| && !(r.mem.None? && r.nextFile in d.logs) ==>
                Now() == Opened(ops, d, r, mid, last, v)
    {
      this.ops, switched, flushed := ops, mid, mid;
      imm, version, snapshots, compaction, pinned := None, v, [], None, [];
      var sequence := if d.manifestSequence < r.maxSequence then r.maxSequence else d.manifestSequence;
      lastSequence := sequence;
      var newLog := if r.mem.None? then r.nextFile else last;
      var next := if r.mem.None? then r.nextFile + 1 else r.nextFile;
      mem := if r.mem.Some? then r.mem.value else [];
      logs := if r.mem.None? then d.logs[newLog := []] else d.logs;
      log, nextFile := newLog, next;
      logNumber := if r.saveManifest then newLog else d.logNumber;
      manifestNext := if r.saveManifest then next else d.manifestNext;
      manifestSequence := if r.saveManifest then sequence else d.manifestSequence;
      tables := d.tables + FileNumbers(r.added);
    }

    // DB::Open on what a crash in state s left behind.  The missing-files check cannot fail, and
    // nothing that was written is lost.  Torn files must not be gone on with (LogReuse.AppendedIsReadIff).
    static method Open(d: Disk, reuseLogs: bool, reuseManifest: bool, ghost s: State)
      returns (db: DBImpl?, ghost s': State, ghost r: Replayed, ghost mid: nat, ghost last: nat)
      requires Inv(s) && CrashImage(s, d)
      requires (reuseLogs ==> NewestIntact(d)) && (reuseManifest ==> !d.manifestTorn)
      ensures db != null && fresh(db) && db.Valid()
      ensures Reopen(s, s', d, r, mid, last) && Collect(s', db.Now())
      ensures db.ops == s.ops && db.snapshots == []
    {
      hide Inv, CrashImage, NewestIntact, Rebuilt, Applied, OnceEach, Arranged, Opened;
      var expected := NumbersOf(d.version);
      ImageComplete(s, d);
      if !(expected <= d.tables) {
        return null, s, r, mid, last;
      }
      var rr, l;
      rr, mid, l := RecoverLogs(d, reuseLogs, reuseManifest, s);
      r, last := rr, l;
      if reuseLogs {
        LastIntact(s, d, rr, mid, last);
      }
      RecoveredOnce(s, d, rr, mid, last);
      var v := d.version;
      if rr.saveManifest {
        v := ApplyEdit(v, RecoveryEdit(rr.added));
      }
      db := new DBImpl(d, rr, l, v, s.ops, mid);
      s' := db.Now();
      ReopenKeepsInv(s, s', d, rr, mid, last);
      db.DeleteObsoleteFiles();
    }

    // Get: memtable, immutable memtable, then the current version.  With no snapshot given, or
    // with the sequence number of a held one, the answer is that of the plain map.
    method Get(k: UserKey, snapshot: Option<nat>) returns (value: Option<string>)
      requires Valid()
      requires snapshot.Some? ==> snapshot.value in snapshots
      ensures value == Lookup(MapAfter(ops, if snapshot.Some? then snapshot.value else |ops|), k)
    {
      hide Inv;
      var s := if snapshot.Some? then snapshot.value else lastSequence;
      PlacesSorted(Now());
      var o := Probe(mem, k, s);
      var i, t := Missing, Missing;
      ProbeResolves(mem, k, s);
      if o.Missing? {
        if imm.Some? {
          i := Probe(imm.value, k, s);
          ProbeResolves(imm.value, k, s);
        }
        if i.Missing? {
          t := Versions.Get(version, k, s);
        }
      }
      value := Answer(if !o.Missing? then o else if !i.Missing? then i else t);
      ReadIsMap(Now(), k, s, o, i, t);
    }

    method Write(batch: seq<Op>)
      requires Valid() && |ops| + |batch| < MAX_SEQUENCE
      modifies this
      ensures Valid() && Lsm.Write(old(Now()), Now(), batch)
    {
      hide Inv;
      ghost var s := Now();
      BatchIsNew(s, batch);
      var record := seq(|batch|, i requires 0 <= i < |batch| reads this => EntryOf(batch[i], lastSequence + i + 1));
      assert record == Run(s.ops + batch, |s.ops|, |s.ops| + |batch|);
      logs := logs[log := logs[log] + [record]];
      mem := InsertInto(mem, record);
      ops, lastSequence := ops + batch, lastSequence + |batch|;
      WriteKeepsInv(s, Now(), batch);
    }

    // MakeRoomForWrite, once there is room for a new memtable.
    method SwitchMemTable()
      requires Valid() && imm.None?
      modifies this
      ensures Valid() && Switch(old(Now()), Now())
    {
      hide Inv, Switch;
      ghost var s := Now();
      SwitchDone(s);
      log, nextFile := nextFile, nextFile + 1;
      logs := logs[log := []];
      imm, mem := Some(mem), [];
      switched := |ops|;
      assert Now() == AfterSwitch(s);
    }

    // LogAndApply: the edit goes to the MANIFEST, and the version it leads to is installed.
    method LogAndApply(edit: Edit, newLog: nat)
      requires Arranged(version) && OnceEach(version, [edit]) && lastSequence == |ops|
      modifies this`version, this`logNumber, this`manifestNext, this`manifestSequence
      ensures Applied(old(version), edit, version)
      ensures logNumber == newLog && manifestNext == nextFile && manifestSequence == lastSequence
    {
      hide Arranged, OnceEach, Applied;
      version := ApplyEdit(version, edit);
      logNumber, manifestNext, manifestSequence := newLog, nextFile, lastSequence;
    }

    // WriteLevel0Table: the edit that adds the flushed table, or nothing for an empty memtable.
    method WriteLevel0Table(table: seq<Entry>, maxOverlap: nat) returns (edit: Edit, level: nat, ghost f: File)
      requires Wf(version) && NumbersBelow(version, nextFile)
      modifies this`nextFile, this`tables
      ensures nextFile == old(nextFile) + 1
      ensures tables == if table != [] then old(tables) + {old(nextFile)} else old(tables)
      ensures edit == Edit({}, if table != [] then [(level, f)] else []) && OnceEach(version, [edit])
      ensures level <= MAX_MEM_COMPACT_LEVEL
      ensures table != [] ==>
                Placed(version, old(nextFile), table, level, f) && IsOutputLevel(version, f.smallest.user, f.largest.user, maxOverlap, level)
    {
      edit, level, f := FlushTable(version, nextFile, table, maxOverlap);
      if table != [] {
        tables := tables + {nextFile};
      }
      nextFile := nextFile + 1;
    }

    // CompactMemTable
    method CompactMemTable(maxOverlap: nat) returns (ghost level: nat, ghost f: File)
      requires Valid() && imm.Some?
      modifies this
      ensures Valid() && Flush(old(Now()), Now(), level, f)
      ensures |old(version)| == NUM_LEVELS
      ensures old(imm.value) != [] ==> IsOutputLevel(old(version), f.smallest.user, f.largest.user, maxOverlap, level)
    {
      hide Inv, IsOutputLevel, Flush, Applied, OnceEach, Wf, Placed, Arranged, NumbersBelow;
      ghost var s := Now();
      FlushReady(s);
      var edit;
      edit, level, f := WriteLevel0Table(imm.value, maxOverlap);
      LogAndApply(edit, log);
      assert Now() == AfterFlush(s, version).(imm := s.imm, flushed := s.flushed);
      FlushDone(s, version, level, f);
      imm, flushed := None, switched;
    }

    // The trivial-move branch of BackgroundCompaction, if it is taken.
    method TrivialMove(level: nat, in0: seq<File>, in1: seq<File>, maxOverlap: nat) returns (moved: bool)
      requires Valid() && compaction.None? && ValidInputs(version, level, in0, in1)
      modifies this
      ensures moved <==> |in0| == 1 && |in1| == 0 && GrandparentBytes(old(version), level, in0[0]) <= maxOverlap
      ensures Valid() && if moved then Move(old(Now()), Now(), level, in0[0]) else Now() == old(Now())
    {
      hide Inv, OnceEach, Applied, ValidInputs, GrandparentBytes, Wf;
      FlushReady(Now());
      moved := IsTrivialMove(version, level, in0, in1, maxOverlap);
      if moved {
        ghost var s := Now();
        var f := in0[0];
        assert in0 == [f] && in1 == [];
        MoveOnce(s, level, f);
        LogAndApply(Edit({(level, f.number)}, [(level + 1, f)]), logNumber);
        MoveKeepsInv(s, Now(), level, f);
      }
    }

    // DoCompactionWork: the outputs are written, nothing is installed yet.
    method BuildOutputs(level: nat, in0: seq<File>, in1: seq<File>, input: seq<Entry>)
      requires Valid() && compaction.None?
      requires ValidInputs(version, level, in0, in1) && IsMerged(input, in0, in1)
      requires TombstonesClosed(version, level, in1, input, SmallestSnapshot(Now()))
      modifies this
      ensures Valid() && compaction.Some? && Begin(old(Now()), Now(), compaction.value)
      ensures OutputsApart(version[level + 1], in1, compaction.value.outputs)
    {
      hide Inv, Begin, ValidInputs, IsMerged, TombstonesClosed, Wf, SortedDisjoint, Kept, OutputsApart, FileNumbers;
      ghost var s := Now();
      BuildReady(s, level, in0, in1, input);
      var smallest := if snapshots == [] then lastSequence else snapshots[0];
      var c := new Compaction(version, level);
      var outputs, next := CompactionLoop.DoCompactionWork(c, input, smallest, nextFile);
      var c' := Pending(level, in0, in1, input, smallest, outputs);
      BeginDone(s, c', next);
      compaction, nextFile := Some(c'), next;
      tables := tables + FileNumbers(outputs);
      assert Now() == AfterBegin(s, c', next);
    }

    // InstallCompactionResults
    method InstallCompactionResults()
      requires Valid() && compaction.Some?
      requires compaction.value.level + 1 < |version|
      requires OutputsApart(version[compaction.value.level + 1], compaction.value.in1, compaction.value.outputs)
      modifies this
      ensures Valid() && Install(old(Now()), Now())
    {
      hide Inv, Install, Applied, OnceEach, OutputsApart;
      ghost var s := Now();
      var c := compaction.value;
      InstallOnce(s, c);
      var edit := Edit((set f | f in c.in0 :: (c.level, f.number)) + (set f | f in c.in1 :: (c.level + 1, f.number)),
                       seq(|c.outputs|, i requires 0 <= i < |c.outputs| => (c.level + 1, c.outputs[i])));
      LogAndApply(edit, logNumber);
      compaction := None;
      assert Now() == AfterInstall(s, version);
      InstallDone(s, version);
    }

    method GetSnapshot() returns (snapshot: nat)
      requires Valid()
      modifies this
      ensures Valid() && Lsm.GetSnapshot(old(Now()), Now()) && snapshot == |ops|
    {
      hide Inv;
      ghost var s := Now();
      snapshot := lastSequence;
      snapshots := snapshots + [snapshot];
      GetSnapshotKeepsInv(s, Now());
    }

    method ReleaseSnapshot(i: nat)
      requires Valid() && i < |snapshots|
      modifies this
      ensures Valid() && Lsm.ReleaseSnapshot(old(Now()), Now(), i)
    {
      hide Inv;
      ghost var s := Now();
      snapshots := snapshots[..i] + snapshots[i + 1..];
      ReleaseSnapshotKeepsInv(s, Now(), i);
    }

    // NewInternalIterator references the current version; CleanupIteratorState gives it back.
    method PinVersion()
      requires Valid()
      modifies this
      ensures Valid() && Pin(old(Now()), Now())
    {
      hide Inv;
      ghost var s := Now();
      pinned := pinned + [version];
      PinKeepsInv(s, Now());
    }

    method UnpinVersion(i: nat)
      requires Valid() && i < |pinned|
      modifies this
      ensures Valid() && Unpin(old(Now()), Now(), i)
    {
      hide Inv;
      ghost var s := Now();
      pinned := pinned[..i] + pinned[i + 1..];
      UnpinKeepsInv(s, Now(), i);
    }

    method DeleteObsoleteFiles()
      requires Valid()
      modifies this
      ensures Valid() && Collect(old(Now()), Now())
      // Exactly what a live version, a pending output or a recovery needs stays.
      ensures forall n: nat :: n in tables <==> (n in old(tables) && LiveTable(Now(), n))
      ensures forall n :: n in logs <==> n in old(logs) && n >= logNumber
    {
      hide Inv, InVersion;
      ghost var s := Now();
      var live := if compaction.Some? then FileNumbers(compaction.value.outputs) else {};
      var current := NumbersOf(version);
      live := live + current;
      for i := 0 to |pinned|
        invariant i <= |pinned|
        invariant forall n: nat :: n in live <==>
                    InVersion(version, n) || (exists j :: 0 <= j < i && InVersion(pinned[j], n)) ||
                    (compaction.Some? && exists f :: f in compaction.value.outputs && f.number == n)
        invariant Now() == s && lastSequence == |ops|
      {
        var numbers := NumbersOf(pinned[i]);
        live := live + numbers;
      }
      assert forall n: nat :: n in live <==> LiveTable(s, n);
      logs := map n | n in logs && n >= logNumber :: logs[n];
      tables := set n | n in tables && n in live;
      CollectKeepsInv(s, Now());
    }
  }

  lemma ImageComplete(s: State, d: Disk)
    requires Inv(s) && CrashImage(s, d)
    ensures forall n: nat :: InVersion(d.version, n) ==> n in d.tables
    ensures LogInv(s) && |s.ops| < MAX_SEQUENCE
  {
  }

  lemma RecoveredOnce(s: State, d: Disk, r: Replayed, mid: nat, last: nat)
    requires Inv(s) && CrashImage(s, d) && Rebuilt(s, d, r, mid, last)
    ensures Arranged(d.version) && OnceEach(d.version, [RecoveryEdit(r.added)])
    ensures !(r.mem.None? && r.nextFile in d.logs)
    ensures |s.ops| == if d.manifestSequence < r.maxSequence then r.maxSequence else d.manifestSequence
  {
    RecoveredNumbers(s, d, r.added, r.nextFile, mid);
  }

  lemma RecoveredNumbers(s: State, d: Disk, added: seq<File>, nextFile: nat, mid: nat)
    requires VersionInv(s) && d.version == s.version && d.manifestNext == s.manifestNext
    requires TablesCover(s.ops, added, d.manifestNext + 1, nextFile, s.flushed, mid)
    ensures OnceEach(d.version, [RecoveryEdit(added)])
  {
    hide OnceEach;
    RecoveredAdds(added);
    var e := RecoveryEdit(added);
    forall i, j | 0 <= i < j < |e.added| ensures e.added[i] != e.added[j] {
      assert added[i].number < added[j].number;
    }
    forall p, q | p in e.added && q in e.added && p.1 != q.1 ensures p.1.number != q.1.number {
      RecoveredOrdered(s.ops, added, d.manifestNext + 1, nextFile, s.flushed, mid, p.1, q.1);
    }
    OneEdit(d.version, e);
  }

  // The edit that adds a flushed table at the level chosen for it.
  method FlushTable(v: Version, number: nat, mem: seq<Entry>, maxOverlap: nat)
    returns (edit: Edit, level: nat, ghost f: File)
    requires Wf(v) && NumbersBelow(v, number)
    ensures edit == Edit({}, if mem != [] then [(level, f)] else []) && OnceEach(v, [edit])
    ensures level <= MAX_MEM_COMPACT_LEVEL
    ensures mem != [] ==> Placed(v, number, mem, level, f) && IsOutputLevel(v, f.smallest.user, f.largest.user, maxOverlap, level)
  {
    hide OnceEach, MayPass;
    NoEditOnce(v);
    level, edit := 0, Edit({}, []);
    f := File(0, 0, InternalKey(0.0, 0, Value), InternalKey(0.0, 0, Value), []);
    if mem != [] {
      var size: nat := *;
      var table := File(number, size, mem[0].key, mem[|mem| - 1].key, mem);
      level := PickLevelForMemTableOutput(v, table.smallest.user, table.largest.user, maxOverlap);
      f, edit := table, Edit({}, [(level, table)]);
      NewNumberOnce(v, number, level, table);
    }
  }

  ghost predicate NumbersBelow(v: Version, number: nat) {
    forall i, g :: 0 <= i < |v| && g in v[i] ==> g.number < number
  }

  lemma NoEditOnce(v: Version)
    requires |v| == NUM_LEVELS
    ensures OnceEach(v, [Edit({}, [])])
  {
  }

  lemma NewNumberOnce(v: Version, number: nat, level: nat, f: File)
    requires |v| == NUM_LEVELS && level < NUM_LEVELS && f.number == number && NumbersBelow(v, number)
    ensures OnceEach(v, [Edit({}, [(level, f)])])
  {
    hide OnceEach;
    OneEdit(v, Edit({}, [(level, f)]));
  }

  ghost predicate Placed(v: Version, number: nat, mem: seq<Entry>, level: nat, f: File) {
    && mem != [] && level < |v|
    && f.number == number && f.entries == mem
    && f.smallest == mem[0].key && f.largest == mem[|mem| - 1].key
    && (level > 0 ==> forall i :: 0 <= i <= level ==> !LevelOverlaps(v, i, f.smallest.user, f.largest.user))
  }

  // AddLiveFiles, for one version.
  method NumbersOf(v: Version) returns (numbers: set<nat>)
    ensures forall n: nat :: n in numbers <==> InVersion(v, n)
  {
    numbers := {};
    for i := 0 to |v|
      invariant forall n: nat :: n in numbers <==> exists j, f :: 0 <= j < i && f in v[j] && f.number == n
    {
      numbers := numbers + set f | f in v[i] :: f.number;
    }
  }

  lemma PlacesSorted(s: State)
    requires Inv(s)
    ensures Sorted(s.mem) && Sorted(ImmEntries(s)) && Wf(s.version) && LsmOrder(s.version)
  {
  }

  // The three places hold everything, newest first.
  lemma PlacesInOrder(s: State)
    requires Inv(s)
    ensures All(s) == Contents(s.mem) + (Contents(ImmEntries(s)) + TableEntries(s.version))
    ensures NewerThan(Contents(s.mem), Contents(ImmEntries(s)) + TableEntries(s.version))
    ensures NewerThan(Contents(ImmEntries(s)), TableEntries(s.version))
    ensures Distinct(All(s))
  {
    AllInHistory(s);
  }

  lemma ReadIsMap(s: State, k: UserKey, n: nat, m: Outcome, i: Outcome, t: Outcome)
    requires Inv(s) && (n == |s.ops| || n in s.snapshots)
    requires Resolves(Contents(s.mem), k, n, m)
    requires m.Missing? ==> Resolves(Contents(ImmEntries(s)), k, n, i)
    requires m.Missing? && i.Missing? ==> Resolves(TableEntries(s.version), k, n, t)
    ensures Answer(if !m.Missing? then m else if !i.Missing? then i else t) == Lookup(MapAfter(s.ops, n), k)
  {
    hide Inv;
    PlacesInOrder(s);
    var M, I, T := Contents(s.mem), Contents(ImmEntries(s)), TableEntries(s.version);
    var rest := if i.Missing? then t else i;
    if m.Missing? {
      SearchNewerFirst(I, T, k, n, i, t);
    }
    SearchNewerFirst(M, I + T, k, n, m, rest);
    ResolvesView(All(s), k, n, if m.Missing? then rest else m);
    HeldIsPreserved(s, k, n);
    HistoryIsMap(s.ops, k, n);
  }

  lemma HeldIsPreserved(s: State, k: UserKey, n: nat)
    requires Inv(s) && (n == |s.ops| || n in s.snapshots)
    ensures n <= |s.ops| && View(All(s), k, n) == View(History(s.ops), k, n)
  {
  }

  lemma BatchIsNew(s: State, batch: seq<Op>)
    requires Inv(s) && |s.ops| + |batch| < MAX_SEQUENCE
    ensures s.log in s.logs && Sorted(s.mem)
    ensures var record := Run(s.ops + batch, |s.ops|, |s.ops| + |batch|);
            && |record| == |batch|
            && (forall i :: 0 <= i < |batch| ==> record[i] == EntryOf(batch[i], |s.ops| + i + 1))
            && (forall i, x :: 0 <= i < |record| && x in s.mem ==> x.key != record[i].key)
            && (forall i, j :: 0 <= i < j < |record| ==> record[i].key != record[j].key)
  {
    HistoryDistinct(s.ops);
  }

  lemma FlushReady(s: State)
    requires Inv(s)
    ensures Wf(s.version) && Arranged(s.version) && |s.version| == NUM_LEVELS
    ensures NumbersBelow(s.version, s.nextFile)
  {
  }

  ghost function AfterSwitch(s: State): State {
    s.(mem := [], imm := Some(s.mem), switched := |s.ops|, log := s.nextFile, nextFile := s.nextFile + 1,
       logs := s.logs[s.nextFile := []])
  }

  lemma SwitchDone(s: State)
    requires Inv(s) && s.imm.None?
    ensures Switch(s, AfterSwitch(s)) && Inv(AfterSwitch(s))
  {
    SwitchKeepsInv(s, AfterSwitch(s));
  }

  ghost function AfterFlush(s: State, v: Version): State
    requires s.imm.Some?
  {
    s.(imm := None, flushed := s.switched, version := v, nextFile := s.nextFile + 1,
       logNumber := s.log, manifestNext := s.nextFile + 1, manifestSequence := |s.ops|,
       tables := if s.imm.value != [] then s.tables + {s.nextFile} else s.tables)
  }

  lemma FlushDone(s: State, v: Version, level: nat, f: File)
    requires Inv(s) && s.imm.Some? && level <= MAX_MEM_COMPACT_LEVEL
    requires s.imm.value != [] ==> Placed(s.version, s.nextFile, s.imm.value, level, f)
    requires Applied(s.version, FlushEdit(s, level, f), v)
    ensures Flush(s, AfterFlush(s, v), level, f) && Inv(AfterFlush(s, v))
  {
    var s' := AfterFlush(s, v);
    assert Flush(s, s', level, f);
    hide AfterFlush, Inv, Flush;
    FlushKeepsInv(s, s', level, f);
  }

  ghost function AfterBegin(s: State, c: Pending, next: nat): State {
    s.(compaction := Some(c), nextFile := next, tables := s.tables + FileNumbers(c.outputs))
  }

  lemma BeginDone(s: State, c: Pending, next: nat)
    requires Inv(s) && s.compaction.None? && ValidInputs(s.version, c.level, c.in0, c.in1) && IsMerged(c.input, c.in0, c.in1)
    requires c.ss == SmallestSnapshot(s)
    requires forall e :: InLevel(c.outputs, e) <==> Kept(s.version, c.level, c.input, c.ss, e)
    requires SortedDisjoint(c.outputs) && forall f :: f in c.outputs ==> WfFile(f)
    requires Numbered(c.outputs, s.nextFile) && next == s.nextFile + |c.outputs|
    requires TombstonesClosed(s.version, c.level, c.in1, c.input, c.ss)
    ensures Begin(s, AfterBegin(s, c, next), c) && Inv(AfterBegin(s, c, next))
    ensures OutputsApart(s.version[c.level + 1], c.in1, c.outputs)
  {
    BeginKeepsInv(s, AfterBegin(s, c, next), c);
  }

  ghost function AfterInstall(s: State, v: Version): State {
    s.(version := v, compaction := None, manifestNext := s.nextFile, manifestSequence := |s.ops|)
  }

  lemma InstallDone(s: State, v: Version)
    requires Inv(s) && s.compaction.Some? && s.compaction.value.level + 1 < |s.version|
    requires OutputsApart(s.version[s.compaction.value.level + 1], s.compaction.value.in1, s.compaction.value.outputs)
    requires Applied(s.version, InstallEdit(s.compaction.value), v)
    ensures Install(s, AfterInstall(s, v)) && Inv(AfterInstall(s, v))
  {
    var s' := AfterInstall(s, v);
    assert Install(s, s');
    hide AfterInstall, Inv, Install;
    InstallKeepsInv(s, s');
  }

  lemma MoveOnce(s: State, level: nat, f: File)
    requires Inv(s) && ValidInputs(s.version, level, [f], [])
    ensures Arranged(s.version)
    ensures OnceEach(s.version, [MoveEdit(level, f)])
  {
    assert f in [f] && f in s.version[level];
    MovedNumberOnce(s.version, level, f);
  }

  lemma MovedNumberOnce(v: Version, level: nat, f: File)
    requires UniqueNumbers(v) && |v| == NUM_LEVELS && level + 1 < NUM_LEVELS && f in v[level]
    ensures OnceEach(v, [MoveEdit(level, f)])
  {
    hide OnceEach;
    OneEdit(v, MoveEdit(level, f));
  }

  lemma BuildReady(s: State, level: nat, in0: seq<File>, in1: seq<File>, input: seq<Entry>)
    requires Inv(s) && ValidInputs(s.version, level, in0, in1) && IsMerged(input, in0, in1)
    ensures Wf(s.version) && level + 1 < NUM_LEVELS && SmallestSnapshot(s) < MAX_SEQUENCE && Sorted(input)
    ensures forall e :: e in input ==> e.key.sn < MAX_SEQUENCE
  {
    forall e | e in input ensures e.key.sn < MAX_SEQUENCE {
      if InLevel(in0, e) {
        var f :| f in in0 && e in f.entries;
        assert WfFile(f);
      } else {
        var f :| f in in1 && e in f.entries;
        assert WfFile(f);
      }
    }
  }

  lemma InstallOnce(s: State, c: Pending)
    requires Inv(s) && s.compaction == Some(c)
    ensures Arranged(s.version) && c.level + 1 < NUM_LEVELS
    ensures OnceEach(s.version, [InstallEdit(c)])
  {
    OutputsOnce(s.version, c, s.nextFile);
  }

  lemma OutputsOnce(v: Version, c: Pending, nextFile: nat)
    requires |v| == NUM_LEVELS && c.level + 1 < NUM_LEVELS && FreshNumbers(v, c, nextFile)
    ensures OnceEach(v, [InstallEdit(c)])
  {
    hide OnceEach, InstallEdit;
    var e := InstallEdit(c);
    AddedOutputs(c);
    assert forall p, q :: p in e.added && q in e.added && p.1.number == q.1.number ==> p == q;
    OneEdit(v, e);
  }

  lemma AddedOutputs(c: Pending)
    requires DistinctNumbers(c.outputs)
    ensures forall p :: p in InstallEdit(c).added ==> p.0 == c.level + 1 && p.1 in c.outputs
    ensures forall j, m :: 0 <= j < m < |InstallEdit(c).added| ==> InstallEdit(c).added[j] != InstallEdit(c).added[m]
  {
    var added := InstallEdit(c).added;
    forall j, m | 0 <= j < m < |added| ensures added[j] != added[m] {
      assert added[j].1 == c.outputs[j] && added[m].1 == c.outputs[m];
    }
  }
}
