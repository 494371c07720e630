/**
  Whole runs.  From a new database, after any sequence of writes, memtable switches, flushes,
  compactions, trivial moves, snapshot and iterator calls, garbage collections and crashes with
  recovery, every read a caller may make returns what a plain map of all operations holds.
 */
module LsmRuns {
  import opened Wrappers
  import opened Keys
  import opened VersionedMap
  import opened Versions
  import opened VersionEdits
  import opened ManifestBuilder
  import opened Overlap
  import opened CompactionInputs
  import opened CompactionLoop
  import opened Lsm
  import opened LsmWrites
  import opened LsmFlush
  import opened LsmCompaction
  import opened Recovery
  import opened LsmRecovery
  import opened DbIter

  // NewDB, and the first Open: log 3 is new; a reused MANIFEST does not record it yet.
  ghost predicate Init(s: State) {
    || s == State([], 0, 0, [], None, EmptyVersion(), [], None, [], 4, 3, 3, 4, 0, map[3 := []], {})
    || s == State([], 0, 0, [], None, EmptyVersion(), [], None, [], 4, 3, 0, 2, 0, map[3 := []], {})
  }

  datatype Step =
    | DoWrite(batch: seq<Op>)
    | DoSwitch
    | DoFlush(level: nat, table: File)
    | DoMove(from: nat, file: File)
    | DoBegin(compaction: Pending)
    | DoInstall
    | DoGetSnapshot
    | DoReleaseSnapshot(which: nat)
    | DoPin
    | DoUnpin(which: nat)
    | DoCollect
    | DoReopen(disk: Disk, replayed: Replayed, mid: nat, last: nat)

  ghost predicate Next(s: State, step: Step, s': State) {
    match step
    case DoWrite(batch) => Write(s, s', batch)
    case DoSwitch => Switch(s, s')
    case DoFlush(level, f) => Flush(s, s', level, f)
    case DoMove(level, f) => Move(s, s', level, f)
    case DoBegin(c) => Begin(s, s', c)
    case DoInstall => Install(s, s')
    case DoGetSnapshot => GetSnapshot(s, s')
    case DoReleaseSnapshot(i) => ReleaseSnapshot(s, s', i)
    case DoPin => Pin(s, s')
    case DoUnpin(i) => Unpin(s, s', i)
    case DoCollect => Collect(s, s')
    case DoReopen(d, r, mid, last) => Reopen(s, s', d, r, mid, last)
  }

  ghost predicate IsRun(states: seq<State>, steps: seq<Step>) {
    && |states| == |steps| + 1
    && Init(states[0])
    && forall i :: 0 <= i < |steps| ==> Next(states[i], steps[i], states[i + 1])
  }

  lemma InitKeepsInv(s: State)
    requires Init(s)
    ensures Inv(s)
  {
    NothingBefore(s.logs, s.logNumber, 3);
    EmptyVersionIsEmpty();
    EmptyIsOk(s.version);
    NothingStored(s);
    InitLogs(s);
  }

  ghost predicate IsEmpty(v: Version) {
    |v| == NUM_LEVELS && forall i :: 0 <= i < |v| ==> v[i] == []
  }

  lemma EmptyVersionIsEmpty()
    ensures IsEmpty(EmptyVersion())
  {
  }

  lemma EmptyIsOk(v: Version)
    requires IsEmpty(v)
    ensures VersionOk(v)
    ensures forall e :: !InTables(v, e)
    ensures forall n: nat :: !InVersion(v, n)
    ensures forall i, f :: 0 <= i < |v| ==> f !in v[i]
  {
  }

  lemma NothingStored(s: State)
    requires Init(s) && IsEmpty(s.version)
    ensures RunsInv(s) && VersionInv(s) && ReadsPreserved(s)
  {
    EmptyIsOk(s.version);
    hide VersionOk, InTables, EmptyVersion;
    assert forall e :: e !in History(s.ops);
    assert All(s) == History(s.ops);
  }

  lemma InitLogs(s: State)
    requires Init(s) && Replay(s.logs, s.logNumber, 3) == []
    ensures LogInv(s)
  {
    assert Run(s.ops, 0, 0) == [];
  }

  lemma {:induction false} NothingBefore(logs: map<nat, seq<seq<Entry>>>, lo: nat, hi: nat)
    requires forall n :: lo <= n < hi ==> n !in logs
    ensures Replay(logs, lo, hi) == []
    decreases hi - lo
  {
    if lo < hi {
      NothingBefore(logs, lo, hi - 1);
    }
  }

  lemma NextKeepsInv(s: State, step: Step, s': State)
    requires Inv(s) && Next(s, step, s')
    ensures Inv(s')
  {
    hide Inv, Write, Switch, Flush, Move, Begin, Install, Lsm.GetSnapshot, Lsm.ReleaseSnapshot, Pin, Unpin, Collect, Reopen;
    match step
    case DoWrite(batch) => WriteKeepsInv(s, s', batch);
    case DoSwitch => SwitchKeepsInv(s, s');
    case DoFlush(level, f) => FlushKeepsInv(s, s', level, f);
    case DoMove(level, f) => MoveKeepsInv(s, s', level, f);
    case DoBegin(c) => BeginKeepsInv(s, s', c);
    case DoInstall => InstallKeepsInv(s, s');
    case DoGetSnapshot => GetSnapshotKeepsInv(s, s');
    case DoReleaseSnapshot(i) => ReleaseSnapshotKeepsInv(s, s', i);
    case DoPin => PinKeepsInv(s, s');
    case DoUnpin(i) => UnpinKeepsInv(s, s', i);
    case DoCollect => CollectKeepsInv(s, s');
    case DoReopen(d, r, mid, last) => ReopenKeepsInv(s, s', d, r, mid, last);
  }

  // No step forgets an operation.
  lemma NextKeepsOperations(s: State, step: Step, s': State)
    requires Next(s, step, s')
    ensures s.ops <= s'.ops
  {
  }

  lemma {:induction false} ReachableInv(states: seq<State>, steps: seq<Step>, i: nat)
    requires IsRun(states, steps) && i < |states|
    ensures Inv(states[i])
  {
    hide Inv, Next, Init;
    if i == 0 {
      InitKeepsInv(states[0]);
    } else {
      ReachableInv(states, steps, i - 1);
      NextKeepsInv(states[i - 1], steps[i - 1], states[i]);
    }
  }

  lemma {:induction false} OperationsGrow(states: seq<State>, steps: seq<Step>, i: nat, j: nat)
    requires IsRun(states, steps) && i <= j < |states|
    ensures states[i].ops <= states[j].ops
  {
    hide Next, Init;
    if i < j {
      OperationsGrow(states, steps, i, j - 1);
      NextKeepsOperations(states[j - 1], steps[j - 1], states[j]);
    }
  }

  lemma {:induction false} MapOfPrefix(ops: seq<Op>, more: seq<Op>, n: nat)
    requires ops <= more && n <= |ops|
    ensures MapAfter(ops, n) == MapAfter(more, n)
  {
    if n > 0 {
      MapOfPrefix(ops, more, n - 1);
    }
  }

  // The main theorem: in every reachable state, reading at the last sequence number or at a held
  // snapshot sees the plain map after that many operations.
  lemma ReadsAreTheMap(states: seq<State>, steps: seq<Step>, i: nat, k: UserKey, n: nat)
    requires IsRun(states, steps) && i < |states|
    requires n == |states[i].ops| || n in states[i].snapshots
    ensures n <= |states[i].ops|
    ensures View(All(states[i]), k, n) == Lookup(MapAfter(states[i].ops, n), k)
  {
    ReachableInv(states, steps, i);
    HeldReads(states[i], k, n);
  }

  lemma HeldReads(s: State, k: UserKey, n: nat)
    requires Inv(s) && (n == |s.ops| || n in s.snapshots)
    ensures n <= |s.ops| && View(All(s), k, n) == Lookup(MapAfter(s.ops, n), k)
  {
    HistoryIsMap(s.ops, k, n);
  }

  // A snapshot reads the same for as long as it is held, whatever happens in between.
  lemma SnapshotsAreStable(states: seq<State>, steps: seq<Step>, i: nat, j: nat, k: UserKey, n: nat)
    requires IsRun(states, steps) && i <= j < |states|
    requires n == |states[i].ops| || n in states[i].snapshots
    requires n == |states[j].ops| || n in states[j].snapshots
    ensures View(All(states[i]), k, n) == View(All(states[j]), k, n)
  {
    hide IsRun, All;
    ReadsAreTheMap(states, steps, i, k, n);
    ReadsAreTheMap(states, steps, j, k, n);
    OperationsGrow(states, steps, i, j);
    MapOfPrefix(states[i].ops, states[j].ops, n);
  }

  // Tables of live versions and pending outputs are on disk in every reachable state, and so is
  // every logged operation that is in no table.
  lemma NothingNeededIsDeleted(states: seq<State>, steps: seq<Step>, i: nat, n: nat)
    requires IsRun(states, steps) && i < |states|
    ensures var s := states[i];
            && (LiveTable(s, n) ==> n in s.tables)
            && s.flushed <= |s.ops|
            && Replay(s.logs, s.logNumber, s.log + 1) == Run(s.ops, s.flushed, |s.ops|)
  {
    ReachableInv(states, steps, i);
    var s := states[i];
    assert Run(s.ops, s.flushed, s.switched) + Run(s.ops, s.switched, |s.ops|) == Run(s.ops, s.flushed, |s.ops|);
  }

  // Nor does anything useless stay: after a collection every table on disk is in the current version, in a pinned
  // one or an output of the compaction in flight, and every log is one that recovery would read.
  lemma NothingUselessStays(states: seq<State>, steps: seq<Step>, i: nat, n: nat)
    requires IsRun(states, steps) && i < |steps| && steps[i].DoCollect?
    ensures var s := states[i + 1];
      && (n in s.tables <==>
            InVersion(s.version, n) || (exists v :: v in s.pinned && InVersion(v, n)) ||
            (s.compaction.Some? && exists f :: f in s.compaction.value.outputs && f.number == n))
      && (n in s.logs ==> s.logNumber <= n <= s.log)
  {
    ReachableInv(states, steps, i);
    ReachableInv(states, steps, i + 1);
    CollectedExactly(states[i], states[i + 1], n);
  }

  lemma CollectedExactly(s: State, s': State, n: nat)
    requires Inv(s) && Inv(s') && Collect(s, s')
    ensures n in s'.tables <==>
              InVersion(s'.version, n) || (exists v :: v in s'.pinned && InVersion(v, n)) ||
              (s'.compaction.Some? && exists f :: f in s'.compaction.value.outputs && f.number == n)
    ensures n in s'.logs ==> s'.logNumber <= n <= s'.log
  {
    assert LiveTable(s', n) <==> LiveTable(s, n);
  }

  // Nor does a compaction write what no reader can see: of two entries of a user key, some held snapshot lies below
  // the newer one, so without snapshots there is one entry of each; and a deletion marker that every held snapshot
  // sees is written only if some deeper file has its user key in range.
  lemma NothingUselessIsWritten(states: seq<State>, steps: seq<Step>, i: nat, a: Entry, b: Entry)
    requires IsRun(states, steps) && i < |steps| && steps[i].DoBegin?
    requires var outputs := steps[i].compaction.outputs; InLevel(outputs, a) && InLevel(outputs, b)
    ensures var s := states[i];
      && (a.key.user == b.key.user && a.key.sn < b.key.sn ==> exists j :: 0 <= j < |s.snapshots| && s.snapshots[j] < b.key.sn)
      && (a.key.kind.Deletion? && (forall j :: 0 <= j < |s.snapshots| ==> a.key.sn <= s.snapshots[j]) ==>
            exists l, f :: steps[i].compaction.level + 2 <= l < |s.version| && f in s.version[l] &&
                           f.smallest.user <= a.key.user <= f.largest.user)
  {
    hide Inv, Begin, InLevel;
    ReachableInv(states, steps, i);
    KeptIsNeeded(states[i], states[i + 1], steps[i].compaction, a, b);
  }

  lemma KeptIsNeeded(s: State, s': State, c: Pending, a: Entry, b: Entry)
    requires Inv(s) && Begin(s, s', c) && InLevel(c.outputs, a) && InLevel(c.outputs, b)
    ensures a.key.user == b.key.user && a.key.sn < b.key.sn ==> exists j :: 0 <= j < |s.snapshots| && s.snapshots[j] < b.key.sn
    ensures a.key.kind.Deletion? && (forall j :: 0 <= j < |s.snapshots| ==> a.key.sn <= s.snapshots[j]) ==>
              exists l, f :: c.level + 2 <= l < |s.version| && f in s.version[l] && f.smallest.user <= a.key.user <= f.largest.user
  {
    hide IsMerged, ValidInputs, VersionOk, ReadsPreserved, LogInv, TablesInv, PendingInv, SortedDisjoint, TombstonesClosed;
    InputIsOld(s, c, a);
    InputIsOld(s, c, b);
    assert !Hidden(c.input, c.ss, a) && !ObsoleteTombstone(s.version, c.level, c.ss, a);
    if a.key.user == b.key.user && a.key.sn < b.key.sn {
      assert b.key.sn > c.ss;
      assert s.snapshots[0] < b.key.sn;
    }
  }

  lemma InputIsOld(s: State, c: Pending, e: Entry)
    requires Inv(s) && ValidInputs(s.version, c.level, c.in0, c.in1) && IsMerged(c.input, c.in0, c.in1) && e in c.input
    ensures e.key.sn <= |s.ops|
  {
    hide VersionOk, ReadsPreserved, LogInv, TablesInv, PendingInv, History;
    assert InLevel(c.in0, e) || InLevel(c.in1, e);
    var f :| (f in c.in0 || f in c.in1) && e in f.entries;
    assert f in s.version[c.level] || f in s.version[c.level + 1];
    assert e in TableEntries(s.version);
  }

  // A crash in a reachable state, with or without a step half done, can be recovered from: the
  // state reached holds the same operations and reads the same at the last sequence number.
  lemma CrashLosesNothing(states: seq<State>, steps: seq<Step>, i: nat, s': State, d: Disk, r: Replayed, mid: nat,
                          last: nat, k: UserKey)
    requires IsRun(states, steps) && i < |states| && Reopen(states[i], s', d, r, mid, last)
    ensures Inv(s') && s'.ops == states[i].ops
    ensures View(All(s'), k, |s'.ops|) == View(All(states[i]), k, |states[i].ops|)
  {
    ReachableInv(states, steps, i);
    ReopenKeepsInv(states[i], s', d, r, mid, last);
  }

  // What is on disk between steps is such an image.
  lemma CrashBetweenSteps(s: State)
    requires Inv(s)
    ensures CrashImage(s, DiskOf(s))
  {
    assert forall n: nat :: InVersion(s.version, n) ==> LiveTable(s, n);
  }

  // What may be on disk when the process dies inside a step, torn ends of files aside: the record of
  // a batch is there or not, a table or a log is made before the MANIFEST record that needs it, that
  // record is there or not, and garbage goes file by file.
  ghost predicate LeftInside(s: State, step: Step, s': State, disk: Disk) {
    var d := Whole(disk);
    match step
    case DoWrite(_) => d == DiskOf(s) || d == DiskOf(s')
    case DoSwitch => d == DiskOf(s) || d == DiskOf(s')
    case DoFlush(_, _) => (d == DiskOf(s).(tables := d.tables) && s.tables <= d.tables) || d == DiskOf(s')
    case DoMove(_, _) => d == DiskOf(s) || d == DiskOf(s')
    case DoBegin(_) => d == DiskOf(s).(tables := d.tables) && s.tables <= d.tables
    case DoInstall => d == DiskOf(s) || d == DiskOf(s')
    case DoCollect =>
      && d == DiskOf(s).(logs := d.logs, tables := d.tables)
      && (forall n :: n in d.logs ==> n in s.logs && d.logs[n] == s.logs[n])
      && (forall n :: n in s'.logs ==> n in d.logs)
      && s'.tables <= d.tables <= s.tables
    case DoReopen(d0, r, _, _) =>
      || (d == Whole(d0).(logs := d.logs, tables := d.tables)
          && (d.logs == d0.logs || d.logs == d0.logs[r.nextFile := []]) && d0.tables <= d.tables)
      || d == DiskOf(s')
    case _ => d == DiskOf(s)
  }

  // A crash at any point of a run, inside a step or between two, leaves an image of the state
  // before or of the state after.
  lemma CrashAnywhere(states: seq<State>, steps: seq<Step>, i: nat, d: Disk)
    requires IsRun(states, steps) && i < |steps| && LeftInside(states[i], steps[i], states[i + 1], d)
    ensures CrashImage(states[i], d) || CrashImage(states[i + 1], d)
  {
    ReachableInv(states, steps, i);
    ReachableInv(states, steps, i + 1);
    CrashInsideStep(states[i], steps[i], states[i + 1], d);
  }

  lemma CrashInsideStep(s: State, step: Step, s': State, d: Disk)
    requires Inv(s) && Inv(s') && Next(s, step, s') && LeftInside(s, step, s', d)
    ensures CrashImage(s, d) || CrashImage(s', d)
  {
    hide Inv, CrashImage, Write, Switch, Flush, Move, Begin, Install, Lsm.GetSnapshot, Lsm.ReleaseSnapshot, Pin, Unpin, Collect, Reopen;
    if Whole(d) == DiskOf(s) {
      MoreTables(s, d);
    } else if Whole(d) == DiskOf(s') {
      MoreTables(s', d);
    } else {
      match step
      case DoBegin(_) => MoreTables(s, d);
      case DoFlush(_, _) => MoreTables(s, d);
      case DoCollect => HalfCollected(s, s', d);
      case DoReopen(d0, r, mid, last) => HalfReopened(s, s', d0, r, mid, last, d);
      case _ =>
    }
  }

  lemma MoreTables(s: State, d: Disk)
    requires Inv(s) && Whole(d) == DiskOf(s).(tables := d.tables) && s.tables <= d.tables
    ensures CrashImage(s, d)
  {
    CrashBetweenSteps(s);
  }

  lemma HalfCollected(s: State, s': State, d: Disk)
    requires Inv(s) && Collect(s, s') && LeftInside(s, DoCollect, s', d)
    ensures CrashImage(s, d)
  {
    forall n: nat | InVersion(s.version, n) ensures n in d.tables {
      assert LiveTable(s, n);
      assert n in s'.tables;
    }
  }

  lemma HalfReopened(s: State, s': State, d0: Disk, r: Replayed, mid: nat, last: nat, d: Disk)
    requires Inv(s) && Reopen(s, s', d0, r, mid, last)
    requires Whole(d) == Whole(d0).(logs := d.logs, tables := d.tables) && d0.tables <= d.tables
    requires d.logs == d0.logs || d.logs == d0.logs[r.nextFile := []]
    ensures CrashImage(s, d)
  {
    assert s.log in d0.logs && s.log < r.nextFile;
  }

  // A scan at a readable sequence number, over all entries of a reachable state in order, shows
  // exactly the pairs of the plain map.
  lemma ScansAreTheMap(states: seq<State>, steps: seq<Step>, i: nat, es: seq<Entry>, n: nat, k: UserKey, v: string)
    requires IsRun(states, steps) && i < |states|
    requires n == |states[i].ops| || n in states[i].snapshots
    requires Sorted(es) && Contents(es) == All(states[i])
    ensures n <= |states[i].ops|
    ensures (exists c: nat :: Live(es, n, c) && es[c].key.user == k && es[c].value == v) <==>
              k in MapAfter(states[i].ops, n) && MapAfter(states[i].ops, n)[k] == v
  {
    ReadsAreTheMap(states, steps, i, k, n);
    ReachableInv(states, steps, i);
    AllInHistory(states[i]);
    hide IsRun, All, MapAfter, Live;
    LiveIsView(es, n, k, v);
  }
}
