/**
  The state in which a deletion is undone (LsmBoundary.DeletionUndone) is reached from a new
  database: a snapshot keeps a deleted value alive, a compaction puts the value and its deletion
  marker in two files, the snapshot is released, and a compaction takes only one of the files.
 */
module LsmSplitRun {
  import opened Wrappers
  import opened Keys
  import opened VersionedMap
  import opened Versions
  import opened VersionEdits
  import opened ManifestBuilder
  import opened Overlap
  import opened CompactionInputs
  import opened CompactionLoop
  import opened Lsm
  import opened LsmBoundary
  import opened LsmRuns

  // ---- The run ----

  const UPPER := Table(6, [HIDDEN, MARKER])
  const LOWER := Table(7, [OLD])
  const BOTH := Table(5, [HIDDEN, MARKER, OLD])
  const ADDED := Table(9, [NEW])

  function Fresh(): State {
    State([], 0, 0, [], None, EmptyVersion(), [], None, [], 4, 3, 3, 4, 0, map[3 := []], {})
  }

  function WroteOld(): State {
    Fresh().(ops := [Put(2.0, "old")], mem := [OLD], logs := map[3 := [[OLD]]])
  }

  function Held(): State {
    WroteOld().(snapshots := [1])
  }

  function WroteMarker(): State {
    Held().(ops := [Put(2.0, "old"), Put(1.0, "hidden"), Delete(2.0)], mem := [HIDDEN, MARKER, OLD],
            logs := map[3 := [[OLD], [HIDDEN, MARKER]]])
  }

  function Switched(): State {
    WroteMarker().(mem := [], imm := Some([HIDDEN, MARKER, OLD]), switched := 3, log := 4, nextFile := 5,
                   logs := map[3 := [[OLD], [HIDDEN, MARKER]], 4 := []])
  }

  function Flushed(): State {
    Switched().(imm := None, flushed := 3, version := [[], [], [BOTH], [], [], [], []], nextFile := 6,
                logNumber := 4, manifestNext := 6, manifestSequence := 3, tables := {5})
  }

  // A manual compaction; the snapshot keeps all three entries, and they fill two files.
  function Splitting(): Pending {
    Pending(2, [BOTH], [], [HIDDEN, MARKER, OLD], 1, [UPPER, LOWER])
  }

  function Built(): State {
    Flushed().(compaction := Some(Splitting()), nextFile := 8, tables := {5, 6, 7})
  }

  function Divided(): State {
    Built().(version := [[], [], [], [UPPER, LOWER], [], [], []], compaction := None, manifestNext := 8, manifestSequence := 3)
  }

  function Released(): State {
    Divided().(snapshots := [])
  }

  function WroteNew(): State {
    Released().(ops := SplitOperations(), mem := [NEW], logs := map[3 := [[OLD], [HIDDEN, MARKER]], 4 := [[NEW]]])
  }

  function SwitchedAgain(): State {
    WroteNew().(mem := [], imm := Some([NEW]), switched := 4, log := 8, nextFile := 9,
                logs := map[3 := [[OLD], [HIDDEN, MARKER]], 4 := [[NEW]], 8 := []])
  }

  function FlushedAgain(): State {
    SwitchedAgain().(imm := None, flushed := 4, version := SplitVersion(), nextFile := 10, logNumber := 8,
                     manifestNext := 10, manifestSequence := 4, tables := {5, 6, 7, 9})
  }

  function SplitRun(): seq<State> {
    [Fresh(), WroteOld(), Held(), WroteMarker(), Switched(), Flushed(), Built(), Divided(), Released(), WroteNew(),
     SwitchedAgain(), FlushedAgain()]
  }

  function SplitSteps(): seq<Step> {
    [DoWrite([Put(2.0, "old")]), DoGetSnapshot, DoWrite([Put(1.0, "hidden"), Delete(2.0)]), DoSwitch, DoFlush(2, BOTH),
     DoBegin(Splitting()), DoInstall, DoReleaseSnapshot(0), DoWrite([Put(1.0, "new")]), DoSwitch, DoFlush(2, ADDED)]
  }

  // ---- Writes, snapshots, switches ----

  lemma OneRecord(ops: seq<Op>, op: Op)
    ensures Run(ops + [op], |ops|, |ops| + 1) == [EntryOf(op, |ops| + 1)]
  {
  }

  lemma TwoRecords(ops: seq<Op>, a: Op, b: Op)
    ensures Run(ops + [a, b], |ops|, |ops| + 2) == [EntryOf(a, |ops| + 1), EntryOf(b, |ops| + 2)]
  {
  }

  lemma WritesOld()
    ensures Write(Fresh(), WroteOld(), [Put(2.0, "old")])
  {
    OneRecord([], Put(2.0, "old"));
    assert [] + [Put(2.0, "old")] == [Put(2.0, "old")];
    assert [] + [[OLD]] == [[OLD]];
  }

  lemma WritesMarker()
    ensures Write(Held(), WroteMarker(), [Put(1.0, "hidden"), Delete(2.0)])
  {
    var ops := [Put(2.0, "old")];
    TwoRecords(ops, Put(1.0, "hidden"), Delete(2.0));
    assert ops + [Put(1.0, "hidden"), Delete(2.0)] == WroteMarker().ops;
    assert [[OLD]] + [[HIDDEN, MARKER]] == [[OLD], [HIDDEN, MARKER]];
  }

  lemma WritesNew()
    ensures Write(Released(), WroteNew(), [Put(1.0, "new")])
  {
    var ops := [Put(2.0, "old"), Put(1.0, "hidden"), Delete(2.0)];
    OneRecord(ops, Put(1.0, "new"));
    assert ops + [Put(1.0, "new")] == SplitOperations();
    assert [] + [[NEW]] == [[NEW]];
  }

  lemma TakesSnapshot()
    ensures Lsm.GetSnapshot(WroteOld(), Held())
  {
  }

  lemma ReleasesSnapshot()
    ensures Lsm.ReleaseSnapshot(Divided(), Released(), 0)
  {
  }

  lemma Switches()
    ensures Switch(WroteMarker(), Switched()) && Switch(WroteNew(), SwitchedAgain())
  {
  }

  // ---- Flushes ----

  lemma FlushesBoth()
    ensures Flush(Switched(), Flushed(), 2, BOTH)
  {
    var v, v' := EmptyVersion(), [[], [], [BOTH], [], [], [], []];
    assert forall i :: 0 <= i < NUM_LEVELS ==> v[i] == [];
    AddsOne(v, v', 2, BOTH);
  }

  lemma FlushesNew()
    ensures Flush(SwitchedAgain(), FlushedAgain(), 2, ADDED)
  {
    var v := [[], [], [], [UPPER, LOWER], [], [], []];
    assert forall i :: 0 <= i <= 2 ==> v[i] == [];
    SplitSeven();
    SplitWf();
    AddsOne(v, SplitVersion(), 2, ADDED);
  }

  lemma AddsOne(v: Version, v': Version, level: nat, f: File)
    requires |v| == |v'| == NUM_LEVELS && level < NUM_LEVELS && v[level] == [] && v'[level] == [f]
    requires forall i :: 0 <= i < NUM_LEVELS && i != level ==> v'[i] == v[i] && BySmallest(v[i])
    ensures Applied(v, Edit({}, [(level, f)]), v')
  {
    var e := Edit({}, [(level, f)]);
    assert e.added[0] == (level, f);
  }

  // ---- Compactions ----

  lemma BuildsSplit()
    ensures Begin(Flushed(), Built(), Splitting())
  {
    SplittingInputs();
    SplittingMerged();
    SplittingOutputs();
    hide ValidInputs, IsMerged, SortedDisjoint, WfFile, Kept;
    assert Flushed().version[3] == [];
    assert FileNumbers([UPPER, LOWER]) == {6, 7};
  }

  lemma SplittingInputs()
    ensures ValidInputs(Flushed().version, 2, [BOTH], [])
  {
    assert Flushed().version[2] == [BOTH] && Flushed().version[3] == [];
    BothIsFile();
    OneFileClosed(BOTH);
  }

  lemma BothIsFile()
    ensures WfFile(BOTH) && WfFile(UPPER) && WfFile(LOWER)
  {
  }

  lemma SplittingMerged()
    ensures IsMerged(Splitting().input, [BOTH], [])
  {
    assert BOTH in [BOTH];
  }

  lemma SplittingOutputs()
    ensures forall e :: InLevel([UPPER, LOWER], e) <==> Kept(Flushed().version, 2, Splitting().input, 1, e)
    ensures SortedDisjoint([UPPER, LOWER])
    ensures forall f :: f in [UPPER, LOWER] ==> WfFile(f)
  {
    BothIsFile();
    var files := [UPPER, LOWER];
    assert UPPER in files && LOWER in files;
    assert forall x :: x in Splitting().input && x.key.sn <= 1 ==> x == OLD;
  }

  lemma InstallsSplit()
    ensures Install(Built(), Divided())
  {
    var e := InstallEdit(Splitting());
    assert e.added == [(3, UPPER), (3, LOWER)];
    assert e.deleted == {(2, 5)};
    assert Built().version[3] == [];
    SplitsApplied(Built().version, e, Divided().version);
  }

  lemma SplitsApplied(v: Version, e: Edit, v': Version)
    requires v == [[], [], [BOTH], [], [], [], []] && v' == [[], [], [], [UPPER, LOWER], [], [], []]
    requires e == Edit({(2, 5)}, [(3, UPPER), (3, LOWER)])
    ensures Applied(v, e, v')
  {
    assert (3, UPPER) in e.added && (3, LOWER) in e.added;
    assert BySmallest([UPPER, LOWER]);
  }

  lemma BuildsLast()
    ensures Builds(FlushedAgain(), SplitState(), SplitCompaction())
  {
    SplitInputs();
    SplitOutputs();
    FourOperations();
    hide ValidInputs, IsMerged, SortedDisjoint, WfFile, Kept, SplitVersion, SplitOperations;
    assert FileNumbers([Table(10, [NEW])]) == {10};
  }

  // ---- All of it ----

  lemma StartsFresh()
    ensures Init(Fresh())
  {
  }

  lemma Steps(i: nat)
    requires i < 11
    ensures Next(SplitRun()[i], SplitSteps()[i], SplitRun()[i + 1])
  {
    hide Write, Switch, Flush, Begin, Install, Lsm.GetSnapshot, Lsm.ReleaseSnapshot, SplitState, FlushedAgain, SwitchedAgain, WroteNew,
      Released, Divided, Built, Splitting, Flushed, Switched, WroteMarker, Held, WroteOld, Fresh;
    WritesOld();
    TakesSnapshot();
    WritesMarker();
    Switches();
    FlushesBoth();
    BuildsSplit();
    InstallsSplit();
    ReleasesSnapshot();
    WritesNew();
    FlushesNew();
  }

  // All steps up to the last compaction have their guards; only the last is the code's own choice of
  // inputs without the guard.  After it the deleted value is back.
  lemma DeletionUndoneIsReached()
    ensures IsRun(SplitRun(), SplitSteps())
    ensures Builds(SplitRun()[|SplitSteps()|], SplitState(), SplitCompaction())
    ensures Install(SplitState(), SplitInstalled())
    ensures !TombstonesClosed(SplitVersion(), SplitCompaction().level, SplitCompaction().in1, SplitCompaction().input, SplitCompaction().ss)
  {
    hide Init, Next, Install, Builds, SplitState, SplitInstalled, SplitCompaction;
    StartsFresh();
    forall i | 0 <= i < 11 ensures Next(SplitRun()[i], SplitSteps()[i], SplitRun()[i + 1]) {
      Steps(i);
    }
    BuildsLast();
    SplitInstall();
    GuardFails();
  }

  lemma GuardFails()
    ensures !TombstonesClosed(SplitVersion(), SplitCompaction().level, SplitCompaction().in1, SplitCompaction().input, SplitCompaction().ss)
  {
    SplitKept();
    SplitSeven();
    var v, c := SplitVersion(), SplitCompaction();
    assert v[3] == [UPPER, LOWER] && LOWER in v[3] && LOWER !in c.in1 && OLD in LOWER.entries && MARKER in c.input;
    assert forall i :: 4 <= i < |v| ==> v[i] == [];
    assert ObsoleteTombstone(v, 2, 4, MARKER);
  }
}
