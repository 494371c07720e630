/**
  Two gaps in how compaction inputs are chosen, each with the exact condition under which it does
  no harm and a concrete version in which it does.

  SetupOtherInputs closes the inputs of `level` under shared boundary user keys, but not those of
  level + 1; and a manual compaction of a range may pick files of `level` with a gap between them
  into which a flush puts a table while the compaction runs.
 */
module LsmBoundary {
  import opened Wrappers
  import opened Keys
  import opened VersionedMap
  import opened Versions
  import opened VersionEdits
  import opened Overlap
  import opened CompactionInputs
  import opened CompactionLoop
  import opened Lsm
  import opened LsmWrites
  import LsmFlush
  import opened LsmCompaction

  // What stays behind at level + 1.
  ghost predicate StaysBehind(v: Version, c: Pending, x: Entry) {
    c.level + 1 < |v| && exists h :: h in v[c.level + 1] && h !in c.in1 && x in h.entries
  }

  ghost function Stayers(v: Version, c: Pending): iset<Entry> {
    iset x | StaysBehind(v, c, x)
  }

  // e is the deletion marker a reader at smallest_snapshot finds; the loop drops it as obsolete,
  // although the newest of what stays behind under it is a value.
  ghost predicate Resurrects(s: State, c: Pending, e: Entry) {
    && e in c.input && ObsoleteTombstone(s.version, c.level, c.ss, e)
    && IsNewest(All(s), e.key.user, c.ss, e)
    && exists x :: IsNewest(Stayers(s.version, c), e.key.user, c.ss, x) && x.key.kind.Value?
  }

  ghost predicate SameReads(s: State, s': State, ss: nat) {
    forall k, n :: n >= ss ==> View(All(s'), k, n) == View(All(s), k, n)
  }

  // An installation about to happen, with nothing assumed about the boundary keys of level + 1.
  ghost predicate Installs(s: State, s': State, c: Pending) {
    && RunsInv(s) && VersionInv(s) && s.compaction == Some(c) && OutputsOk(s.version, c) && Install(s, s')
  }

  // An input the loop drops is in no table afterwards.
  lemma DroppedIsGone(v: Version, v': Version, c: Pending, e: Entry)
    requires Wf(v) && LsmOrder(v) && UniqueNumbers(v) && OutputsOk(v, c) && Applied(v, InstallEdit(c), v')
    requires e in c.input && !Kept(v, c.level, c.input, c.ss, e)
    ensures e !in TableEntries(v')
  {
    if e in TableEntries(v') {
      var i, f := InstalledOrigin(v, v', c, e);
      OutputsKept(v, c, i, f, e);
      var j, g := LsmFlush.InputPlace(v, c, e);
      OncePerVersion(v, i, f, j, g, e);
    }
  }

  lemma OutputsKept(v: Version, c: Pending, i: nat, f: File, e: Entry)
    requires OutputsOk(v, c) && e in f.entries && !Kept(v, c.level, c.input, c.ss, e)
    ensures f !in c.outputs
  {
    assert f in c.outputs ==> InLevel(c.outputs, e);
  }

  // An entry is in one file only.
  lemma OncePerVersion(v: Version, i: nat, f: File, j: nat, g: File, e: Entry)
    requires Wf(v) && LsmOrder(v) && i < |v| && j < |v| && f in v[i] && g in v[j] && e in f.entries && e in g.entries
    ensures i == j && f == g
  {
    assert !Shallower(i, f, j, g) && !Shallower(j, g, i, f);
    if i > 0 {
      OncePerLevel(v[i], f, g, e);
    } else {
      OneFilePerNumber(v[0], f, g);
    }
  }

  lemma OncePerLevel(files: seq<File>, f: File, g: File, e: Entry)
    requires SortedDisjoint(files) && f in files && g in files && WfFile(f) && WfFile(g) && e in f.entries && e in g.entries
    ensures f == g
  {
    EntryInRange(f, e);
    EntryInRange(g, e);
    DisjointIsApart(files);
  }

  lemma OneFilePerNumber(files: seq<File>, f: File, g: File)
    requires DistinctNumbers(files) && f in files && g in files && f.number == g.number
    ensures f == g
  {
  }

  lemma StayerStays(v: Version, v': Version, c: Pending, x: Entry)
    requires UniqueNumbers(v) && OutputsOk(v, c) && Applied(v, InstallEdit(c), v') && x in Stayers(v, c)
    ensures x in TableEntries(v')
  {
    var h :| h in v[c.level + 1] && h !in c.in1 && x in h.entries;
    DeletedAreInputs(v, c, c.level + 1, h);
    RemainingEntry(v, InstallEdit(c), v', c.level + 1, h, x);
  }

  lemma AllShrinks(s: State, s': State, c: Pending)
    requires Installs(s, s', c)
    ensures All(s') <= All(s) && Distinct(All(s)) && c.level + 1 < |s.version|
    ensures Stayers(s.version, c) <= All(s')
    ensures forall x :: x in c.input ==> x in All(s) && x.key.sn <= s.flushed
    ensures forall x :: x in All(s) && x !in All(s') ==> x in c.input && !Kept(s.version, c.level, c.input, c.ss, x)
    ensures forall x :: x in c.input && !Kept(s.version, c.level, c.input, c.ss, x) ==> x !in All(s')
  {
    AllInHistory(s);
    InputInTables(s.version, c);
    hide Kept;
    forall x | x in TableEntries(s'.version) ensures x in TableEntries(s.version) {
      InstalledFromOld(s.version, s'.version, c, x) by {
        assert forall p :: p in InstallEdit(c).added ==> p.0 == c.level + 1;
      }
    }
    forall x | x in Stayers(s.version, c) ensures x in TableEntries(s'.version) {
      StayerStays(s.version, s'.version, c, x);
    }
    forall x | x in TableEntries(s.version) && x !in TableEntries(s'.version)
      ensures x in c.input && !Kept(s.version, c.level, c.input, c.ss, x)
    {
      OnlyDroppedAreGone(s.version, s'.version, c, x);
    }
    forall x | x in c.input && !Kept(s.version, c.level, c.input, c.ss, x) ensures x !in TableEntries(s'.version) {
      DroppedIsGone(s.version, s'.version, c, x);
    }
  }

  // Under a dropped deletion marker only what stays behind can show.
  lemma UnderTombstone(s: State, s': State, c: Pending, n: nat, e: Entry, x: Entry)
    requires Installs(s, s', c) && n >= c.ss && IsNewest(All(s), e.key.user, n, e)
    requires e in c.input && ObsoleteTombstone(s.version, c.level, c.ss, e)
    requires x in All(s') && Visible(x, e.key.user, n)
    ensures x in Stayers(s.version, c) && x.key.sn < e.key.sn
  {
    AllShrinks(s, s', c);
    assert x in All(s) && x != e;
    assert e in All(s) && x.key.sn < e.key.sn <= s.flushed;
    var h := SurvivorStaysBelow(s.version, s'.version, c, e, x);
  }

  // What readers at smallest_snapshot and later see survives the installation exactly when no
  // dropped deletion marker resurrects a value.
  lemma ReadsSurviveIff(s: State, s': State, c: Pending)
    requires Installs(s, s', c)
    ensures SameReads(s, s', c.ss) <==> !exists e :: Resurrects(s, c, e)
  {
    hide Installs, Resurrects;
    forall e | Resurrects(s, c, e) ensures !SameReads(s, s', c.ss) {
      ResurrectionShows(s, s', c, e);
    }
    if !exists e :: Resurrects(s, c, e) {
      forall k, n | n >= c.ss ensures View(All(s'), k, n) == View(All(s), k, n) {
        NoResurrectionNoChange(s, s', c, k, n);
      }
    }
  }

  lemma ResurrectionShows(s: State, s': State, c: Pending, e: Entry)
    requires Installs(s, s', c) && Resurrects(s, c, e)
    ensures View(All(s), e.key.user, c.ss) == None && View(All(s'), e.key.user, c.ss).Some?
    ensures !SameReads(s, s', c.ss)
  {
    AllShrinks(s, s', c);
    var k := e.key.user;
    var x :| IsNewest(Stayers(s.version, c), k, c.ss, x) && x.key.kind.Value?;
    forall y | y in All(s') && Visible(y, k, c.ss) ensures y.key.sn <= x.key.sn {
      UnderTombstone(s, s', c, c.ss, e, y);
    }
    assert IsNewest(All(s'), k, c.ss, x);
    hide Installs, Resurrects, All, Stayers;
    ViewOfNewest(All(s), k, c.ss, e);
    ViewOfNewest(All(s'), k, c.ss, x);
  }

  lemma NoResurrectionNoChange(s: State, s': State, c: Pending, k: UserKey, n: nat)
    requires Installs(s, s', c) && n >= c.ss && !exists e :: Resurrects(s, c, e)
    ensures View(All(s'), k, n) == View(All(s), k, n)
  {
    AllShrinks(s, s', c);
    if e :| IsNewest(All(s), k, n, e) && e !in All(s') {
      NewestDroppedIsTombstone(All(s), s.version, c, k, n, e);
      forall x | IsNewest(All(s'), k, n, x) ensures !x.key.kind.Value? {
        ShownIsResurrected(s, s', c, k, n, e, x);
      }
      hide Installs, All, Resurrects;
      ViewOfNewest(All(s), k, n, e);
    } else {
      hide Installs, All, Resurrects;
      DroppedEntriesView(All(s), All(s'), k, n);
    }
  }

  lemma ShownIsResurrected(s: State, s': State, c: Pending, k: UserKey, n: nat, e: Entry, x: Entry)
    requires Installs(s, s', c) && n >= c.ss && IsNewest(All(s), k, n, e)
    requires e in c.input && ObsoleteTombstone(s.version, c.level, c.ss, e)
    requires IsNewest(All(s'), k, n, x)
    ensures x.key.kind.Value? ==> Resurrects(s, c, e)
  {
    AllShrinks(s, s', c);
    UnderTombstone(s, s', c, n, e, x);
    hide Installs, All, Stayers, Resurrects;
    Resurrection(s, c, k, n, e, x, All(s'));
  }

  lemma Resurrection(s: State, c: Pending, k: UserKey, n: nat, e: Entry, x: Entry, F: iset<Entry>)
    requires n >= c.ss && IsNewest(All(s), k, n, e) && c.level + 1 < |s.version|
    requires e in c.input && ObsoleteTombstone(s.version, c.level, c.ss, e)
    requires IsNewest(F, k, n, x) && Stayers(s.version, c) <= F && x in Stayers(s.version, c) && x.key.sn < e.key.sn
    ensures x.key.kind.Value? ==> Resurrects(s, c, e)
  {
    hide All, Stayers, IsBase;
    assert IsNewest(All(s), k, c.ss, e);
    forall y | y in Stayers(s.version, c) && Visible(y, k, c.ss) ensures y.key.sn <= x.key.sn {
      assert y in F && Visible(y, k, n);
    }
    assert IsNewest(Stayers(s.version, c), k, c.ss, x);
  }

  // ---- Closing the inputs of level + 1 as well ----

  lemma HullExists(files: seq<File>) returns (lo: UserKey, hi: UserKey)
    requires files != []
    ensures IsHull(files, lo, hi)
  {
    if |files| == 1 {
      lo, hi := files[0].smallest.user, files[0].largest.user;
      assert files[0] in files;
    } else {
      var lo', hi' := HullExists(files[1..]);
      assert forall f :: f in files <==> f == files[0] || f in files[1..];
      lo := if files[0].smallest.user < lo' then files[0].smallest.user else lo';
      hi := if files[0].largest.user > hi' then files[0].largest.user else hi';
    }
  }

  // The files of level + 1 that the inputs of `level` reach are a run of the level.
  lemma LowerInputsContiguous(v: Version, level: nat, in0: seq<File>, in1: seq<File>)
    requires Wf(v) && ValidInputs(v, level, in0, in1)
    ensures Contiguous(v[level + 1], in1)
  {
    hide Wf, ClosedInputs, MeetsHull, IsHull, RangesOk;
    var all := v[level + 1];
    LevelRangesOk(v, level + 1);
    assert in0 != [] by {
      InputsNotEmpty(level, v[level], in0);
    }
    var lo, hi := HullExists(in0);
    HullMeets(in0, lo, hi);
    RangeFilterContiguous(all, Some(lo), Some(hi));
    assert forall h :: h in in1 <==> h in OverlappingFiles(all, Some(lo), Some(hi));
  }

  lemma LevelRangesOk(v: Version, i: nat)
    requires Wf(v) && i < |v|
    ensures RangesOk(v[i])
  {
    assert forall f :: f in v[i] ==> WfFile(f);
    FilesRangesOk(v[i]);
  }

  lemma InputsNotEmpty(level: nat, all: seq<File>, chosen: seq<File>)
    requires ClosedInputs(level, all, chosen)
    ensures chosen != []
  {
  }

  // A file that stays behind at level + 1 has no key of the inputs of `level`.
  lemma UpperKeysMiss(v: Version, level: nat, in0: seq<File>, in1: seq<File>, g: File, h: File, x: Entry)
    requires Wf(v) && ValidInputs(v, level, in0, in1)
    requires g in in0 && h in v[level + 1] && h !in in1 && x in h.entries
    ensures forall e :: e in g.entries ==> e.key.user != x.key.user
  {
    assert g in v[level] && WfFile(g) && WfFile(h) && !MeetsHull(h, in0);
    EntryInRange(h, x);
    forall e | e in g.entries ensures e.key.user != x.key.user {
      EntryInRange(g, e);
    }
  }

  // Had SetupOtherInputs closed the inputs of level + 1 under boundary keys too, nothing older
  // than an input would stay behind there, and so no compaction would need a guard.
  lemma ClosureDischargesGuard(v: Version, level: nat, in0: seq<File>, in1: seq<File>, input: seq<Entry>, ss: nat)
    requires Wf(v) && Distinct(TableEntries(v)) && ValidInputs(v, level, in0, in1) && IsMerged(input, in0, in1)
    requires NoBoundaryLeft(v[level + 1], in1)
    ensures TombstonesClosed(v, level, in1, input, ss)
  {
    hide Wf, Distinct, ValidInputs, IsMerged, NoBoundaryLeft, ObsoleteTombstone;
    LevelsBelow(v, level, in0, in1);
    forall h, x, e | h in v[level + 1] && h !in in1 && x in h.entries && e in input && x.key.user == e.key.user
      ensures x.key.sn > e.key.sn
    {
      StayerIsNewer(v, level, in0, in1, input, h, x, e);
    }
  }

  lemma StayerIsNewer(v: Version, level: nat, in0: seq<File>, in1: seq<File>, input: seq<Entry>, h: File, x: Entry, e: Entry)
    requires Wf(v) && Distinct(TableEntries(v)) && ValidInputs(v, level, in0, in1) && IsMerged(input, in0, in1)
    requires NoBoundaryLeft(v[level + 1], in1) && h in v[level + 1] && h !in in1
    requires x in h.entries && e in input && x.key.user == e.key.user
    ensures x.key.sn > e.key.sn
  {
    hide Wf, Distinct, Contiguous, NoBoundaryLeft, MeetsHull, TouchClosed, Newer;
    LowerInputsContiguous(v, level, in0, in1);
    forall g | g in in0 ensures e !in g.entries {
      UpperKeysMiss(v, level, in0, in1, g, h, x);
    }
    var g :| g in in1 && e in g.entries;
    assert ClosedInputs(level + 1, v[level + 1], in1);
    StayBehindIsNewer(v, level + 1, in1, h, g);
    NewerAt(h, g, x, e);
  }

  lemma NewerAt(h: File, g: File, x: Entry, e: Entry)
    requires Newer(h.entries, g.entries) && x in h.entries && e in g.entries && x.key.user == e.key.user
    ensures x.key.sn > e.key.sn
  {
  }

  // With such inputs no dropped deletion marker resurrects a value ...
  lemma ClosedNeverResurrects(s: State, c: Pending)
    requires RunsInv(s) && VersionInv(s) && ValidInputs(s.version, c.level, c.in0, c.in1) && IsMerged(c.input, c.in0, c.in1)
    requires NoBoundaryLeft(s.version[c.level + 1], c.in1)
    ensures !exists e :: Resurrects(s, c, e)
  {
    hide ValidInputs, NoBoundaryLeft, IsMerged, RunsInv;
    TablesDistinct(s);
    LevelsBelow(s.version, c.level, c.in0, c.in1);
    ClosureDischargesGuard(s.version, c.level, c.in0, c.in1, c.input, c.ss);
    GuardedNeverResurrects(s, c);
  }

  lemma TablesDistinct(s: State)
    requires RunsInv(s) && VersionInv(s)
    ensures Distinct(TableEntries(s.version)) && Wf(s.version)
  {
    AllInHistory(s);
  }

  lemma LevelsBelow(v: Version, level: nat, in0: seq<File>, in1: seq<File>)
    requires ValidInputs(v, level, in0, in1)
    ensures level + 1 < |v|
  {
  }

  // What stays behind under a dropped marker is newer, so the marker is not what a reader finds.
  lemma GuardedNeverResurrects(s: State, c: Pending)
    requires c.level + 1 < |s.version| && TombstonesClosed(s.version, c.level, c.in1, c.input, c.ss)
    ensures !exists e :: Resurrects(s, c, e)
  {
    hide All;
    forall e | e in c.input && ObsoleteTombstone(s.version, c.level, c.ss, e) && IsNewest(All(s), e.key.user, c.ss, e)
      ensures forall x :: x in Stayers(s.version, c) ==> !Visible(x, e.key.user, c.ss)
    {
      forall x | x in Stayers(s.version, c) ensures !Visible(x, e.key.user, c.ss) {
        StayersAreThere(s, c, x);
      }
    }
  }

  lemma StayersAreThere(s: State, c: Pending, x: Entry)
    requires x in Stayers(s.version, c)
    ensures x in All(s)
  {
    assert InTables(s.version, x);
  }

  // ... and the guard of the step Begin holds: a database that chose them could take the step.
  lemma ClosedCanBegin(s: State, c: Pending)
    requires Inv(s) && ValidInputs(s.version, c.level, c.in0, c.in1) && IsMerged(c.input, c.in0, c.in1)
    requires NoBoundaryLeft(s.version[c.level + 1], c.in1)
    ensures TombstonesClosed(s.version, c.level, c.in1, c.input, c.ss)
  {
    hide ValidInputs, NoBoundaryLeft, IsMerged, RunsInv, VersionInv;
    TablesDistinct(s);
    ClosureDischargesGuard(s.version, c.level, c.in0, c.in1, c.input, c.ss);
  }

  // ---- A deletion undone ----

  const OLD := Entry(InternalKey(2.0, 1, Value), "old")
  const HIDDEN := Entry(InternalKey(1.0, 2, Value), "hidden")
  const MARKER := Entry(InternalKey(2.0, 3, Deletion), "")
  const NEW := Entry(InternalKey(1.0, 4, Value), "new")

  function Table(number: nat, entries: seq<Entry>): File
    requires entries != []
  {
    File(number, 1, entries[0].key, entries[|entries| - 1].key, entries)
  }

  // Key 2 was deleted while a snapshot held its value: the two entries ended up in two files.
  function SplitVersion(): Version {
    [[], [], [Table(9, [NEW])], [Table(6, [HIDDEN, MARKER]), Table(7, [OLD])], [], [], []]
  }

  function SplitOperations(): seq<Op> {
    [Put(2.0, "old"), Put(1.0, "hidden"), Delete(2.0), Put(1.0, "new")]
  }

  function SplitCompaction(): Pending {
    Pending(2, [Table(9, [NEW])], [Table(6, [HIDDEN, MARKER])], [NEW, HIDDEN, MARKER], 4, [Table(10, [NEW])])
  }

  function SplitState(): State {
    State(SplitOperations(), 4, 4, [], None, SplitVersion(), [], Some(SplitCompaction()), [], 11, 8, 8, 10, 4,
          map[3 := [[OLD], [HIDDEN, MARKER]], 4 := [[NEW]], 8 := []], {5, 6, 7, 9, 10})
  }

  function SplitInstalled(): State {
    SplitState().(version := [[], [], [], [Table(10, [NEW]), Table(7, [OLD])], [], [], []],
                  compaction := None, manifestNext := 11, manifestSequence := 4)
  }

  // The inputs are those SetupOtherInputs chooses for the file of level 2.
  lemma SplitInputs()
    ensures ValidInputs(SplitVersion(), 2, SplitCompaction().in0, SplitCompaction().in1)
    ensures !NoBoundaryLeft(SplitVersion()[3], SplitCompaction().in1)
  {
    var v, c := SplitVersion(), SplitCompaction();
    var A, X, Y := Table(9, [NEW]), Table(6, [HIDDEN, MARKER]), Table(7, [OLD]);
    assert v[2] == c.in0 == [A] && v[3] == [X, Y] && c.in1 == [X];
    SplitMeets(A, X, Y);
    assert X in [X] && IsLargest([X], X.largest);
    assert Y in v[3] && Boundary(Y, X.largest);
    hide SplitVersion, MeetsHull, Table;
    assert forall h :: h in [X, Y] <==> h == X || h == Y;
    assert ClosedInputs(2, [A], [A]) by {
      OneFileClosed(A);
    }
    SplitSeven();
  }

  lemma SplitMeets(A: File, X: File, Y: File)
    requires A == Table(9, [NEW]) && X == Table(6, [HIDDEN, MARKER]) && Y == Table(7, [OLD])
    ensures MeetsHull(X, [A]) && !MeetsHull(Y, [A])
  {
    assert A in [A];
  }

  lemma OneFileClosed(A: File)
    requires WfFile(A)
    ensures ClosedInputs(2, [A], [A])
  {
    EntryInRange(A, A.entries[0]);
    assert forall largest :: IsLargest([A], largest) ==> largest == A.largest;
  }

  lemma SplitFiles(v: Version, i: nat, f: File, low: File)
    requires v == [[], [], [low], [Table(6, [HIDDEN, MARKER]), Table(7, [OLD])], [], [], []] || v == [[], [], [], [low, Table(7, [OLD])], [], [], []]
    requires i < |v| && f in v[i]
    ensures (f == low && i == if v[2] == [] then 3 else 2) || (i == 3 && (f == Table(6, [HIDDEN, MARKER]) || f == Table(7, [OLD])))
  {
  }

  lemma SplitIsOk()
    ensures VersionOk(SplitVersion())
  {
    SplitWf();
    SplitOrder();
    hide SplitVersion, Wf, LsmOrder, UniqueNumbers, BySmallest;
  }

  lemma SplitOrder()
    ensures LsmOrder(SplitVersion()) && UniqueNumbers(SplitVersion())
  {
    hide WfFile, Newer, SplitVersion, Shallower;
    var v := SplitVersion();
    forall i, j, f, g | 0 <= i < |v| && 0 <= j < |v| && f in v[i] && g in v[j]
      ensures Shallower(i, f, j, g) ==> Newer(f.entries, g.entries)
      ensures f.number == g.number ==> i == j && f == g
    {
      SplitPair(i, j, f, g);
    }
  }

  lemma SplitWf()
    ensures Wf(SplitVersion())
    ensures forall i :: 0 <= i < |SplitVersion()| ==> BySmallest(SplitVersion()[i])
  {
    hide WfFile, BySmallest, SortedDisjoint, DistinctNumbers, SplitVersion;
    var v := SplitVersion();
    forall i, f | 0 <= i < |v| && f in v[i] ensures WfFile(f) {
      SplitPair(i, i, f, f);
    }
    SplitSeven();
    forall i | 0 <= i < |v| ensures BySmallest(v[i]) && SortedDisjoint(v[i]) && DistinctNumbers(v[i]) {
      SplitLevel(i);
    }
  }

  lemma SplitSeven()
    ensures |SplitVersion()| == NUM_LEVELS
  {
  }

  lemma SplitPair(i: nat, j: nat, f: File, g: File)
    requires i < |SplitVersion()| && j < |SplitVersion()| && f in SplitVersion()[i] && g in SplitVersion()[j]
    ensures WfFile(f)
    ensures Shallower(i, f, j, g) ==> Newer(f.entries, g.entries)
    ensures f.number == g.number ==> i == j && f == g
  {
    SplitFiles(SplitVersion(), i, f, Table(9, [NEW]));
    SplitFiles(SplitVersion(), j, g, Table(9, [NEW]));
  }

  lemma SplitLevel(i: nat)
    requires i < |SplitVersion()|
    ensures var files := SplitVersion()[i]; BySmallest(files) && SortedDisjoint(files) && DistinctNumbers(files)
  {
    if i == 3 {
      assert SplitVersion()[i] == [Table(6, [HIDDEN, MARKER]), Table(7, [OLD])];
    } else {
      assert |SplitVersion()[i]| <= 1;
    }
  }

  lemma SplitOutputs()
    ensures OutputsOk(SplitVersion(), SplitCompaction())
  {
    var v, c := SplitVersion(), SplitCompaction();
    var A, X, O := Table(9, [NEW]), Table(6, [HIDDEN, MARKER]), Table(10, [NEW]);
    SplitKept();
    assert v[2] == [A] && X in v[3];
    assert forall e :: InLevel([O], e) <==> e == NEW by {
      assert O in [O];
    }
    assert IsMerged(c.input, c.in0, c.in1) by {
      assert A in c.in0 && X in c.in1;
      assert NEW in c.input && HIDDEN in c.input && MARKER in c.input;
    }
    hide Kept, IsMerged, InLevel, SplitVersion;
    SplitSeven();
  }

  lemma SplitKept()
    ensures forall e :: Kept(SplitVersion(), 2, SplitCompaction().input, 4, e) <==> e == NEW
  {
    var v, input := SplitVersion(), SplitCompaction().input;
    assert NEW in input && Hidden(input, 4, HIDDEN);
    assert !Hidden(input, 4, NEW);
    assert forall i :: 4 <= i < |v| ==> v[i] == [];
    assert IsBase(v, 2, 2.0);
    assert ObsoleteTombstone(v, 2, 4, MARKER);
  }

  lemma SplitEntries(v: Version, low: File, x: Entry)
    requires v == [[], [], [low], [Table(6, [HIDDEN, MARKER]), Table(7, [OLD])], [], [], []] || v == [[], [], [], [low, Table(7, [OLD])], [], [], []]
    ensures x in TableEntries(v) <==> x in low.entries || x == OLD || (v[2] != [] && (x == HIDDEN || x == MARKER))
  {
    var X, Y := Table(6, [HIDDEN, MARKER]), Table(7, [OLD]);
    assert v[if v[2] == [] then 3 else 2][0] == low;
    assert v[3][1] == Y && (v[2] != [] ==> v[3][0] == X);
    assert x in low.entries ==> InLevel(v[if v[2] == [] then 3 else 2], x);
    assert x in Y.entries ==> InLevel(v[3], x);
    assert v[2] != [] && x in X.entries ==> InLevel(v[3], x);
  }

  lemma SplitInstalls()
    ensures Installs(SplitState(), SplitInstalled(), SplitCompaction())
  {
    var s, s', c := SplitState(), SplitInstalled(), SplitCompaction();
    SplitInv();
    SplitOutputs();
    SplitInstall();
    hide RunsInv, VersionInv, OutputsOk, Install;
  }

  lemma SplitInv()
    ensures RunsInv(SplitState()) && VersionInv(SplitState())
  {
    SplitIsOk();
    SplitHistory();
    SplitNumbers();
    hide VersionOk, History, TableEntries, SplitVersion, SplitOperations;
    assert |SplitOperations()| == 4 by {
      FourOperations();
    }
  }

  lemma FourOperations()
    ensures |SplitOperations()| == 4
  {
  }

  lemma SplitInstall()
    ensures Install(SplitState(), SplitInstalled())
  {
    SplitApplied();
    FourOperations();
    SplitApart();
    hide Applied, OutputsApart, SplitOperations;
  }

  lemma SplitApart()
    ensures OutputsApart(SplitVersion()[3], SplitCompaction().in1, SplitCompaction().outputs)
  {
    assert forall h :: h in SplitVersion()[3] && h !in SplitCompaction().in1 ==> h == Table(7, [OLD]);
  }

  lemma SplitNumbers()
    ensures forall i, f :: 0 <= i < |SplitVersion()| && f in SplitVersion()[i] ==> f.number < 10
  {
    forall i, f | 0 <= i < |SplitVersion()| && f in SplitVersion()[i] ensures f.number < 10 {
      SplitFiles(SplitVersion(), i, f, Table(9, [NEW]));
    }
  }

  lemma SplitHistory()
    ensures forall e :: e in History(SplitOperations()) <==> e == OLD || e == HIDDEN || e == MARKER || e == NEW
    ensures forall e :: e in TableEntries(SplitVersion()) ==> e in History(SplitOperations()) && e.key.sn <= 4
  {
    forall e | e in TableEntries(SplitVersion()) ensures e == OLD || e == HIDDEN || e == MARKER || e == NEW {
      SplitEntries(SplitVersion(), Table(9, [NEW]), e);
    }
  }

  lemma SplitApplied()
    ensures Applied(SplitVersion(), InstallEdit(SplitCompaction()), SplitInstalled().version)
  {
    var c := SplitCompaction();
    var e := InstallEdit(c);
    assert e.added == [(3, Table(10, [NEW]))];
    assert e.deleted == {(2, 9), (3, 6)};
  }

  // Installing a compaction whose inputs SetupOtherInputs chose brings a deleted value back.
  lemma DeletionUndone()
    ensures var s, s', c := SplitState(), SplitInstalled(), SplitCompaction();
      && Installs(s, s', c) && ValidInputs(s.version, c.level, c.in0, c.in1)
      && Lookup(MapAfter(s.ops, 4), 2.0) == None
      && View(All(s), 2.0, 4) == None
      && View(All(s'), 2.0, 4) == Some("old")
  {
    var s, s', c := SplitState(), SplitInstalled(), SplitCompaction();
    SplitInstalls();
    SplitInputs();
    SplitReads();
  }

  lemma SplitReads()
    ensures Lookup(MapAfter(SplitOperations(), 4), 2.0) == None
    ensures View(All(SplitState()), 2.0, 4) == None
    ensures View(All(SplitInstalled()), 2.0, 4) == Some("old")
  {
    forall x ensures x in All(SplitState()) <==> x == OLD || x == HIDDEN || x == MARKER || x == NEW {
      SplitHistory();
      SplitEntries(SplitState().version, Table(9, [NEW]), x);
    }
    forall x ensures x in All(SplitInstalled()) <==> x == OLD || x == NEW {
      SplitHistory();
      SplitEntries(SplitInstalled().version, Table(10, [NEW]), x);
    }
    hide All, SplitState, SplitInstalled, SplitOperations;
    MarkerIsNewest(All(SplitState()));
    OldIsNewest(All(SplitInstalled()));
    SplitMap();
  }

  lemma MarkerIsNewest(E: iset<Entry>)
    requires forall x :: x in E <==> x == OLD || x == HIDDEN || x == MARKER || x == NEW
    ensures View(E, 2.0, 4) == None
  {
    ViewOfNewest(E, 2.0, 4, MARKER);
  }

  lemma OldIsNewest(E: iset<Entry>)
    requires forall x :: x in E <==> x == OLD || x == NEW
    ensures View(E, 2.0, 4) == Some("old")
  {
    ViewOfNewest(E, 2.0, 4, OLD);
  }

  lemma SplitMap()
    ensures Lookup(MapAfter(SplitOperations(), 4), 2.0) == None
  {
    var ops := SplitOperations();
    assert MapAfter(ops, 3) == MapAfter(ops, 2) - {2.0};
    assert MapAfter(ops, 4) == MapAfter(ops, 3)[1.0 := "new"];
  }

  // ---- A flush into a gap ----

  const LEFT := Entry(InternalKey(1.0, 1, Value), "left")
  const RIGHT := Entry(InternalKey(5.0, 2, Value), "right")
  const MIDDLE := Entry(InternalKey(3.0, 3, Value), "middle")

  function GapVersion(): Version {
    [[], [Table(10, [LEFT]), Table(11, [RIGHT])], [], [], [], [], []]
  }

  // A manual compaction of level 1 takes both files; nothing lies below them.
  function GapCompaction(): Pending {
    Pending(1, [Table(10, [LEFT]), Table(11, [RIGHT])], [], [LEFT, RIGHT], 2, [Table(12, [LEFT, RIGHT])])
  }

  // While it runs, key 3 is flushed to level 2, past the gap.
  function GapFlushed(): Version {
    [[], [Table(10, [LEFT]), Table(11, [RIGHT])], [Table(13, [MIDDLE])], [], [], [], []]
  }

  lemma FlushIntoGap()
    ensures var v, c, f := GapVersion(), GapCompaction(), Table(13, [MIDDLE]);
      && ValidInputs(v, c.level, c.in0, c.in1) && !Covered(c.in0 + c.in1)
      && OutputsApart(v[2], c.in1, c.outputs)
      && (forall i :: 0 <= i <= 2 ==> !LevelOverlaps(v, i, f.smallest.user, f.largest.user))
      && Applied(v, Edit({}, [(2, f)]), GapFlushed())
      && !OutputsApart(GapFlushed()[2], c.in1, c.outputs)
  {
    var v, c, f := GapVersion(), GapCompaction(), Table(13, [MIDDLE]);
    hide ValidInputs, Covered, LevelOverlaps, Applied, OutputsApart;
    GapInputs();
    GapFree();
    GapApplied();
    GapClash();
  }

  lemma GapClash()
    ensures OutputsApart(GapVersion()[2], [], GapCompaction().outputs)
    ensures !OutputsApart(GapFlushed()[2], [], GapCompaction().outputs)
  {
    var f, o := Table(13, [MIDDLE]), Table(12, [LEFT, RIGHT]);
    assert f in GapFlushed()[2] && o in GapCompaction().outputs && !Apart(o, f);
  }

  lemma GapInputs()
    ensures ValidInputs(GapVersion(), 1, GapCompaction().in0, [])
    ensures !Covered(GapCompaction().in0 + [])
  {
    var A, B := Table(10, [LEFT]), Table(11, [RIGHT]);
    assert GapVersion()[1] == [A, B] == GapCompaction().in0 && GapVersion()[2] == [];
    assert [A, B] + [] == [A, B] && A in [A, B] && B in [A, B] && Spans(A, B, 3.0);
    assert IsLargest([A, B], B.largest);
    forall largest | IsLargest([A, B], largest) ensures largest == B.largest {
    }
  }

  lemma GapFree()
    ensures forall i :: 0 <= i <= 2 ==> !LevelOverlaps(GapVersion(), i, 3.0, 3.0)
  {
    assert GapVersion()[0] == [] && GapVersion()[2] == [];
  }

  lemma GapApplied()
    ensures Applied(GapVersion(), Edit({}, [(2, Table(13, [MIDDLE]))]), GapFlushed())
  {
    var v, v', e := GapVersion(), GapFlushed(), Edit({}, [(2, Table(13, [MIDDLE]))]);
    assert v[1] == v'[1] && |v[1]| == 2 && |v'[2]| == 1;
    hide Table;
    assert e.added[0] == (2, Table(13, [MIDDLE]));
    assert forall i :: 0 <= i < NUM_LEVELS && i != 2 ==> v[i] == v'[i];
  }
}
