/**
  Trivial moves and compactions keep the invariant; what a compaction may do to reads.
 */
module LsmCompaction {
  import opened Wrappers
  import opened Keys
  import opened VersionedMap
  import opened Versions
  import opened VersionEdits
  import opened Overlap
  import opened CompactionInputs
  import opened CompactionLoop
  import opened Lsm
  import opened LsmWrites

  lemma InTable(v: Version, i: nat, f: File, x: Entry)
    requires i < |v| && f in v[i] && x in f.entries
    ensures x in TableEntries(v)
  {
    assert InLevel(v[i], x);
  }

  lemma FindTable(v: Version, x: Entry) returns (i: nat, f: File)
    requires x in TableEntries(v)
    ensures i < |v| && f in v[i] && x in f.entries
  {
    i :| 0 <= i < |v| && InLevel(v[i], x);
    f :| f in v[i] && x in f.entries;
  }

  // ---- Trivial move ----

  function MoveEdit(level: nat, f: File): Edit {
    Edit({(level, f.number)}, [(level + 1, f)])
  }

  lemma NotMeetingIsApart(f: File, g: File)
    requires WfFile(f) && WfFile(g) && !MeetsHull(g, [f])
    ensures g.largest.user < f.smallest.user || f.largest.user < g.smallest.user
    ensures Apart(f, g)
  {
    assert f in [f];
    EntryInRange(f, f.entries[0]);
    EntryInRange(g, g.entries[0]);
  }

  lemma MoveFits(v: Version, level: nat, f: File)
    requires VersionOk(v) && Distinct(TableEntries(v)) && ValidInputs(v, level, [f], [])
    ensures Fits(v, MoveEdit(level, f), level + 1)
  {
    hide Newer, Apart, Distinct, TableEntries;
    var e := MoveEdit(level, f);
    assert f in [f] && f in v[level];
    forall i, g | 0 <= i < |v| && Remains(v, e, i, g)
      ensures f.number != g.number
      ensures i < level + 1 ==> Newer(g.entries, f.entries)
      ensures level + 1 < i ==> Newer(f.entries, g.entries)
      ensures i == level + 1 ==> Apart(f, g)
    {
      MoveAgainst(v, level, f, i, g);
    }
  }

  lemma MoveAgainst(v: Version, level: nat, f: File, i: nat, g: File)
    requires VersionOk(v) && Distinct(TableEntries(v)) && ValidInputs(v, level, [f], [])
    requires i < |v| && g in v[i] && f in v[level] && f.number != g.number
    ensures i < level + 1 ==> Newer(g.entries, f.entries)
    ensures level + 1 < i ==> Newer(f.entries, g.entries)
    ensures i == level + 1 ==> Apart(f, g)
  {
    hide ClosedInputs, MeetsHull, Newer, Apart;
    if i == level {
      StayBehindIsNewer(v, level, [f], g, f);
    } else if i == level + 1 {
      NotMeetingIsApart(f, g);
    } else {
      assert Shallower(i, g, level, f) || Shallower(level, f, i, g);
    }
  }

  lemma MovedStays(v: Version, v': Version, level: nat, f: File, x: Entry)
    requires UniqueNumbers(v) && level + 1 < |v| && f in v[level] && Applied(v, MoveEdit(level, f), v')
    requires x in TableEntries(v)
    ensures x in TableEntries(v')
  {
    var e := MoveEdit(level, f);
    var i, g := FindTable(v, x);
    if g == f {
      assert e.added[0] == (level + 1, f);
      AddedEntry(v, e, v', level + 1, f, x);
    } else {
      RemainingEntry(v, e, v', i, g, x);
    }
  }

  lemma MovedFrom(v: Version, v': Version, level: nat, f: File, x: Entry)
    requires level + 1 < |v| && f in v[level] && Applied(v, MoveEdit(level, f), v')
    requires x in TableEntries(v')
    ensures x in TableEntries(v)
  {
    var i, g := EntryOrigin(v, MoveEdit(level, f), level + 1, v', x);
    if Remains(v, MoveEdit(level, f), i, g) {
      InTable(v, i, g, x);
    } else {
      InTable(v, level, f, x);
    }
  }

  lemma MoveKeepsEntries(v: Version, v': Version, level: nat, f: File)
    requires UniqueNumbers(v) && level + 1 < |v| && f in v[level] && Applied(v, MoveEdit(level, f), v')
    ensures TableEntries(v') == TableEntries(v)
  {
    forall x ensures x in TableEntries(v') <==> x in TableEntries(v) {
      if x in TableEntries(v) {
        MovedStays(v, v', level, f, x);
      } else if x in TableEntries(v') {
        MovedFrom(v, v', level, f, x);
      }
    }
  }

  lemma MoveKeepsVersion(v: Version, v': Version, level: nat, f: File)
    requires VersionOk(v) && Distinct(TableEntries(v)) && ValidInputs(v, level, [f], [])
    requires Applied(v, MoveEdit(level, f), v')
    ensures VersionOk(v') && TableEntries(v') == TableEntries(v)
    ensures forall n: nat :: InVersion(v', n) ==> InVersion(v, n)
  {
    assert f in [f] && f in v[level];
    MoveFits(v, level, f);
    EditKeepsVersionOk(v, MoveEdit(level, f), level + 1, v');
    MoveKeepsEntries(v, v', level, f);
    EditedNumbers(v, MoveEdit(level, f), level + 1, v');
    assert InVersion(v, f.number);
  }

  lemma MoveKeepsInv(s: State, s': State, level: nat, f: File)
    requires Inv(s) && Move(s, s', level, f)
    ensures Inv(s')
  {
    AllInHistory(s);
    assert Distinct(TableEntries(s.version));
    MoveKeepsVersion(s.version, s'.version, level, f);
    assert All(s') == All(s);
    VersionNumbers(s, s');
    assert forall n: nat :: LiveTable(s', n) ==> LiveTable(s, n);
  }

  lemma VersionNumbers(s: State, s': State)
    requires VersionInv(s) && s'.manifestNext >= s.manifestNext
    requires forall n: nat :: InVersion(s'.version, n) ==> InVersion(s.version, n) || n < s'.manifestNext
    ensures forall i, f :: 0 <= i < |s'.version| && f in s'.version[i] ==> f.number < s'.manifestNext
  {
    forall i, f | 0 <= i < |s'.version| && f in s'.version[i] ensures f.number < s'.manifestNext {
      assert InVersion(s'.version, f.number);
    }
  }

  // ---- Begin ----

  // At the start, everything left at level + 1 lies outside the inputs.
  lemma BeginFitsBelow(v: Version, level: nat, in0: seq<File>, in1: seq<File>, input: seq<Entry>)
    requires Wf(v) && ValidInputs(v, level, in0, in1) && IsMerged(input, in0, in1)
    ensures FitsBelow(v[level + 1], in1, input)
  {
    forall h | h in v[level + 1] && h !in in1 ensures OutsideInput(h, input) {
      assert WfFile(h);
      EntryInRange(h, h.entries[0]);
      if forall f :: f in in0 ==> f.largest.user < h.smallest.user {
        forall e | e in input ensures Less(e.key, h.smallest) {
          InputBefore(v, level, in0, in1, input, h, e);
        }
      } else {
        assert forall f :: f in in0 ==> h.largest.user < f.smallest.user;
        forall e | e in input ensures Less(h.largest, e.key) {
          InputAfter(v, level, in0, in1, input, h, e);
        }
      }
    }
  }

  lemma FilesInOrder(files: seq<File>, g: File, h: File)
    requires SortedDisjoint(files) && g in files && h in files && WfFile(g) && WfFile(h)
    requires g.smallest.user < h.smallest.user || g.largest.user < h.largest.user
    ensures Less(g.largest, h.smallest) || g == h
  {
    EntryInRange(g, g.entries[0]);
    EntryInRange(h, h.entries[0]);
    DisjointIsApart(files);
  }

  lemma InputBefore(v: Version, level: nat, in0: seq<File>, in1: seq<File>, input: seq<Entry>, h: File, e: Entry)
    requires Wf(v) && ValidInputs(v, level, in0, in1) && IsMerged(input, in0, in1)
    requires h in v[level + 1] && h !in in1 && e in input
    requires forall f :: f in in0 ==> f.largest.user < h.smallest.user
    ensures Less(e.key, h.smallest)
  {
    hide ClosedInputs, Sorted;
    if InLevel(in0, e) {
      var f :| f in in0 && e in f.entries;
      InputsInVersion(v, level, in0, in1);
      EntryInRange(f, e);
    } else {
      var g :| g in in1 && e in g.entries;
      EntryInRange(g, e);
      assert MeetsHull(g, in0);
      FilesInOrder(v[level + 1], g, h);
    }
  }

  lemma InputsInVersion(v: Version, level: nat, in0: seq<File>, in1: seq<File>)
    requires ValidInputs(v, level, in0, in1)
    ensures forall f :: f in in0 ==> f in v[level]
  {
  }

  lemma InputAfter(v: Version, level: nat, in0: seq<File>, in1: seq<File>, input: seq<Entry>, h: File, e: Entry)
    requires Wf(v) && ValidInputs(v, level, in0, in1) && IsMerged(input, in0, in1)
    requires h in v[level + 1] && h !in in1 && e in input
    requires forall f :: f in in0 ==> h.largest.user < f.smallest.user
    ensures Less(h.largest, e.key)
  {
    hide ClosedInputs, Sorted;
    if InLevel(in0, e) {
      var f :| f in in0 && e in f.entries;
      InputsInVersion(v, level, in0, in1);
      EntryInRange(f, e);
    } else {
      var g :| g in in1 && e in g.entries;
      EntryInRange(g, e);
      assert MeetsHull(g, in0);
      FilesInOrder(v[level + 1], h, g);
    }
  }

  lemma BeginOk(v: Version, c: Pending, nextFile: nat)
    requires VersionOk(v) && Distinct(TableEntries(v)) && ValidInputs(v, c.level, c.in0, c.in1)
    requires IsMerged(c.input, c.in0, c.in1)
    requires forall e :: InLevel(c.outputs, e) <==> Kept(v, c.level, c.input, c.ss, e)
    requires SortedDisjoint(c.outputs) && (forall f :: f in c.outputs ==> WfFile(f))
    ensures OutputsOk(v, c) && FitsBelow(v[c.level + 1], c.in1, c.input)
  {
    BeginFitsBelow(v, c.level, c.in0, c.in1, c.input);
    forall f, g | f in v[c.level] && f !in c.in0 && g in c.in0 ensures Newer(f.entries, g.entries) {
      StayBehindIsNewer(v, c.level, c.in0, f, g);
    }
  }

  lemma BeginFresh(s: State, s': State, c: Pending)
    requires VersionInv(s) && Begin(s, s', c)
    ensures FreshNumbers(s.version, c, s'.nextFile)
  {
    assert forall f :: f in c.outputs ==> s.nextFile <= f.number < s'.nextFile;
  }

  lemma BeginKeepsInv(s: State, s': State, c: Pending)
    requires Inv(s) && Begin(s, s', c)
    ensures Inv(s')
    ensures OutputsApart(s'.version[c.level + 1], c.in1, c.outputs)
  {
    AllInHistory(s);
    assert Distinct(TableEntries(s.version));
    BeginOk(s.version, c, s.nextFile);
    OutsideIsApart(s.version, c);
    BeginFresh(s, s', c);
    BeginKeepsTables(s, s', c);
    BeginKeepsRest(s, s', c);
  }

  lemma BeginKeepsRest(s: State, s': State, c: Pending)
    requires RunsInv(s) && VersionInv(s) && ReadsPreserved(s) && SnapshotInv(s) && LogInv(s) && Begin(s, s', c)
    ensures RunsInv(s') && VersionInv(s') && ReadsPreserved(s') && SnapshotInv(s') && LogInv(s')
  {
    assert All(s') == All(s);
  }

  lemma BeginKeepsTables(s: State, s': State, c: Pending)
    requires TablesInv(s) && Begin(s, s', c)
    ensures TablesInv(s')
  {
    forall n: nat | LiveTable(s', n) ensures n in s'.tables && n < s'.nextFile {
      if f :| f in c.outputs && f.number == n {
        assert f.number < s'.nextFile;
      } else {
        assert LiveTable(s, n);
      }
    }
  }

  // ---- Install ----

  lemma OutputFromInput(v: Version, c: Pending, o: File, x: Entry) returns (i: nat, g: File)
    requires OutputsOk(v, c) && o in c.outputs && x in o.entries
    ensures x in c.input && Kept(v, c.level, c.input, c.ss, x)
    ensures x in g.entries && i < |v| && g in v[i]
    ensures (i == c.level && g in c.in0) || (i == c.level + 1 && g in c.in1)
  {
    assert InLevel(c.outputs, x);
    if InLevel(c.in0, x) {
      g :| g in c.in0 && x in g.entries;
      i := c.level;
    } else {
      g :| g in c.in1 && x in g.entries;
      i := c.level + 1;
    }
  }

  lemma OutputOrder(v: Version, c: Pending, o: File, i: nat, g: File, a: Entry, b: Entry)
    requires LsmOrder(v) && OutputsOk(v, c) && o in c.outputs && i < |v| && i != c.level + 1 && g in v[i]
    requires i == c.level ==> g !in c.in0
    requires a in g.entries && b in o.entries && a.key.user == b.key.user
    ensures if i < c.level + 1 then a.key.sn > b.key.sn else b.key.sn > a.key.sn
  {
    var j, h := OutputFromInput(v, c, o, b);
    if i == j {
      assert Newer(g.entries, h.entries);
    } else {
      assert Shallower(i, g, j, h) || Shallower(j, h, i, g);
    }
  }

  lemma OutputApart(c: Pending, o: File, g: File)
    requires WfFile(o) && WfFile(g) && OutsideInput(g, c.input)
    requires forall x :: x in o.entries ==> x in c.input
    ensures Apart(o, g)
  {
    assert o.entries[0] in c.input && o.entries[|o.entries| - 1] in c.input;
  }

  // Outputs lie inside the input range, so what lies outside it lies apart from them.
  lemma OutsideIsApart(v: Version, c: Pending)
    requires Wf(v) && OutputsOk(v, c) && FitsBelow(v[c.level + 1], c.in1, c.input)
    ensures OutputsApart(v[c.level + 1], c.in1, c.outputs)
  {
    forall h, o | h in v[c.level + 1] && h !in c.in1 && o in c.outputs ensures Apart(o, h) {
      forall x | x in o.entries ensures x in c.input {
        var j, g := OutputFromInput(v, c, o, x);
      }
      assert WfFile(h);
      OutputApart(c, o, h);
    }
  }

  // A compaction whose inputs form one interval of user keys can be installed whatever was
  // flushed while it ran.
  lemma CoveredCanInstall(s: State)
    requires Inv(s) && s.compaction.Some? && Covered(s.compaction.value.in0 + s.compaction.value.in1)
    ensures OutputsApart(s.version[s.compaction.value.level + 1], s.compaction.value.in1, s.compaction.value.outputs)
  {
    OutsideIsApart(s.version, s.compaction.value);
  }

  // The assertion of the Builder is exactly what an installation needs.
  lemma InstallSoundIff(v: Version, v': Version, c: Pending, nextFile: nat)
    requires VersionOk(v) && OutputsOk(v, c) && FreshNumbers(v, c, nextFile) && Applied(v, InstallEdit(c), v')
    ensures VersionOk(v') <==> OutputsApart(v[c.level + 1], c.in1, c.outputs)
  {
    if OutputsApart(v[c.level + 1], c.in1, c.outputs) {
      InstallKeepsVersion(v, v', c, nextFile);
    }
    if VersionOk(v') {
      forall h, o | h in v[c.level + 1] && h !in c.in1 && o in c.outputs ensures Apart(o, h) {
        DeletedAreInputs(v, c, c.level + 1, h);
        OutputInstalled(v, v', c, o);
        assert h in v'[c.level + 1] && h != o;
        DisjointIsApart(v'[c.level + 1]);
      }
    }
  }

  lemma OutputInstalled(v: Version, v': Version, c: Pending, o: File)
    requires c.level + 1 < NUM_LEVELS && Applied(v, InstallEdit(c), v') && o in c.outputs
    ensures o in v'[c.level + 1]
  {
    var n :| 0 <= n < |c.outputs| && c.outputs[n] == o;
    assert InstallEdit(c).added[n] == (c.level + 1, o);
  }

  lemma DeletedAreInputs(v: Version, c: Pending, i: nat, g: File)
    requires UniqueNumbers(v) && OutputsOk(v, c) && i < |v| && g in v[i]
    ensures Remains(v, InstallEdit(c), i, g) <==>
              !(i == c.level && g in c.in0) && !(i == c.level + 1 && g in c.in1)
  {
  }

  lemma InstallAgainst(v: Version, c: Pending, o: File, i: nat, g: File)
    requires VersionOk(v) && OutputsOk(v, c) && o in c.outputs && i < |v| && Remains(v, InstallEdit(c), i, g)
    requires OutputsApart(v[c.level + 1], c.in1, c.outputs)
    ensures i < c.level + 1 ==> Newer(g.entries, o.entries)
    ensures c.level + 1 < i ==> Newer(o.entries, g.entries)
    ensures i == c.level + 1 ==> Apart(o, g)
  {
    DeletedAreInputs(v, c, i, g);
    hide InstallEdit, Remains, Kept, Sorted;
    if i != c.level + 1 {
      forall a, b | a in g.entries && b in o.entries && a.key.user == b.key.user
        ensures if i < c.level + 1 then a.key.sn > b.key.sn else b.key.sn > a.key.sn
      {
        OutputOrder(v, c, o, i, g, a, b);
      }
    }
  }

  lemma InstallFits(v: Version, c: Pending, nextFile: nat)
    requires VersionOk(v) && OutputsOk(v, c) && FreshNumbers(v, c, nextFile)
    requires OutputsApart(v[c.level + 1], c.in1, c.outputs)
    ensures Fits(v, InstallEdit(c), c.level + 1)
  {
    var e := InstallEdit(c);
    assert forall p :: p in e.added ==> p.0 == c.level + 1 && p.1 in c.outputs;
    DisjointIsApart(c.outputs);
    forall p, q | p in e.added && q in e.added && p != q ensures p.1.number != q.1.number && Apart(p.1, q.1) {
      assert p.1 != q.1;
    }
    forall p, i, g | p in e.added && 0 <= i < |v| && Remains(v, e, i, g)
      ensures p.1.number != g.number
      ensures i < c.level + 1 ==> Newer(g.entries, p.1.entries)
      ensures c.level + 1 < i ==> Newer(p.1.entries, g.entries)
      ensures i == c.level + 1 ==> Apart(p.1, g)
    {
      InstallAgainst(v, c, p.1, i, g);
    }
  }

  lemma InstalledFromOld(v: Version, v': Version, c: Pending, x: Entry)
    requires OutputsOk(v, c) && AddsAt(InstallEdit(c), c.level + 1) && Applied(v, InstallEdit(c), v')
    ensures x in TableEntries(v') ==> x in TableEntries(v)
  {
    if x in TableEntries(v') {
      var i, f := EntryOrigin(v, InstallEdit(c), c.level + 1, v', x);
      if Remains(v, InstallEdit(c), i, f) {
        InTable(v, i, f, x);
      } else {
        var j, g := OutputFromInput(v, c, f, x);
        InTable(v, j, g, x);
      }
    }
  }

  // After the installation, exactly the entries the loop dropped are gone.
  lemma OnlyDroppedAreGone(v: Version, v': Version, c: Pending, x: Entry)
    requires UniqueNumbers(v) && OutputsOk(v, c) && Applied(v, InstallEdit(c), v')
    requires x in TableEntries(v) && x !in TableEntries(v')
    ensures x in c.input && !Kept(v, c.level, c.input, c.ss, x)
  {
    if InLevel(c.outputs, x) {
      OutputStays(v, v', c, x);
    }
    var i, f := FindTable(v, x);
    GoneIsInput(v, v', c, x, i, f);
  }

  lemma GoneIsInput(v: Version, v': Version, c: Pending, x: Entry, i: nat, f: File)
    requires UniqueNumbers(v) && OutputsOk(v, c) && Applied(v, InstallEdit(c), v')
    requires i < |v| && f in v[i] && x in f.entries && x !in TableEntries(v')
    ensures x in c.input
  {
    if Remains(v, InstallEdit(c), i, f) {
      RemainingEntry(v, InstallEdit(c), v', i, f, x);
    }
    DeletedAreInputs(v, c, i, f);
    assert InLevel(c.in0, x) || InLevel(c.in1, x);
  }

  lemma OutputStays(v: Version, v': Version, c: Pending, x: Entry)
    requires c.level + 1 < NUM_LEVELS && Applied(v, InstallEdit(c), v') && InLevel(c.outputs, x)
    ensures InTables(v', x)
  {
    var e := InstallEdit(c);
    var o :| o in c.outputs && x in o.entries;
    var n :| 0 <= n < |c.outputs| && c.outputs[n] == o;
    assert e.added[n] == (c.level + 1, o);
    AddedEntry(v, e, v', c.level + 1, o, x);
  }

  // ---- What an installation does to reads ----

  // Where an entry that is still there after the installation lies.
  lemma InstalledOrigin(v: Version, v': Version, c: Pending, x: Entry) returns (i: nat, f: File)
    requires UniqueNumbers(v) && OutputsOk(v, c) && Applied(v, InstallEdit(c), v') && x in TableEntries(v')
    ensures x in f.entries
    ensures i < |v| && ((i == c.level + 1 && f in c.outputs) ||
             (f in v[i] && !(i == c.level && f in c.in0) && !(i == c.level + 1 && f in c.in1)))
  {
    i, f := EntryOrigin(v, InstallEdit(c), c.level + 1, v', x);
    if Remains(v, InstallEdit(c), i, f) {
      DeletedAreInputs(v, c, i, f);
    }
  }

  // If the loop drops the newest visible entry of a key, it is an obsolete deletion marker.
  lemma NewestDroppedIsTombstone(E: iset<Entry>, v: Version, c: Pending, k: UserKey, n: nat, e: Entry)
    requires Distinct(E) && IsNewest(E, k, n, e) && n >= c.ss
    requires forall x :: x in c.input ==> x in E
    requires e in c.input && !Kept(v, c.level, c.input, c.ss, e)
    ensures ObsoleteTombstone(v, c.level, c.ss, e)
  {
    forall x | x in c.input && x.key.user == e.key.user && x.key.sn <= c.ss ensures !Less(x.key, e.key) {
      assert x in E && e in E && Visible(x, k, n);
    }
  }

  // An older entry of the key of a dropped deletion marker survives only in files that stay
  // behind at level + 1.
  lemma SurvivorStaysBelow(v: Version, v': Version, c: Pending, e: Entry, x: Entry) returns (h: File)
    requires LsmOrder(v) && Wf(v) && UniqueNumbers(v) && OutputsOk(v, c) && Applied(v, InstallEdit(c), v')
    requires e in c.input && ObsoleteTombstone(v, c.level, c.ss, e)
    requires x in TableEntries(v') && x.key.user == e.key.user && x.key.sn < e.key.sn
    ensures h in v[c.level + 1] && h !in c.in1 && x in h.entries
  {
    var i, f := InstalledOrigin(v, v', c, x);
    h := f;
    if f in c.outputs && i == c.level + 1 {
      assert InLevel(c.outputs, x);
      assert Hidden(c.input, c.ss, x);
    } else {
      OlderIsDeeper(v, c, e, i, f, x);
      if i >= c.level + 2 {
        EntryInRange(f, x);
      }
    }
  }

  lemma OlderIsDeeper(v: Version, c: Pending, e: Entry, i: nat, f: File, x: Entry)
    requires LsmOrder(v) && OutputsOk(v, c) && e in c.input && i < |v| && f in v[i] && x in f.entries
    requires !(i == c.level && f in c.in0) && !(i == c.level + 1 && f in c.in1)
    requires x.key.user == e.key.user && x.key.sn < e.key.sn
    ensures i > c.level
  {
    if InLevel(c.in0, e) {
      var g :| g in c.in0 && e in g.entries;
      assert i < c.level ==> Shallower(i, f, c.level, g);
      assert i <= c.level ==> Newer(f.entries, g.entries);
    } else {
      var g :| g in c.in1 && e in g.entries;
      assert i <= c.level ==> Shallower(i, f, c.level + 1, g);
    }
  }

  lemma InstallKeepsVersion(v: Version, v': Version, c: Pending, nextFile: nat)
    requires VersionOk(v) && OutputsOk(v, c) && FreshNumbers(v, c, nextFile)
    requires OutputsApart(v[c.level + 1], c.in1, c.outputs) && Applied(v, InstallEdit(c), v')
    ensures VersionOk(v')
    ensures forall n: nat :: InVersion(v', n) ==> InVersion(v, n) || exists f :: f in c.outputs && f.number == n
  {
    InstallFits(v, c, nextFile);
    EditedNumbers(v, InstallEdit(c), c.level + 1, v');
    assert forall p :: p in InstallEdit(c).added ==> p.1 in c.outputs;
    hide OutputsOk, Fits, Applied, FreshNumbers, OutputsApart, VersionOk, InVersion;
    EditKeepsVersionOk(v, InstallEdit(c), c.level + 1, v');
  }

  lemma InstallKeepsReads(s: State, s': State)
    requires RunsInv(s) && VersionInv(s) && ReadsPreserved(s) && s.compaction.Some? && Install(s, s')
    requires OutputsOk(s.version, s.compaction.value) && s.compaction.value.ss <= SmallestSnapshot(s)
    requires TombstonesClosed(s.version, s.compaction.value.level, s.compaction.value.in1, s.compaction.value.input, s.compaction.value.ss)
    ensures ReadsPreserved(s')
    ensures forall x :: x in TableEntries(s'.version) ==> x in TableEntries(s.version)
  {
    var c := s.compaction.value;
    AllInHistory(s);
    forall x | x in TableEntries(s'.version) ensures x in TableEntries(s.version) {
      InstalledFromOld(s.version, s'.version, c, x);
    }
    forall k, n | n >= SmallestSnapshot(s') ensures View(All(s'), k, n) == View(History(s'.ops), k, n) {
      assert View(All(s), k, n) == View(History(s.ops), k, n);
      forall e | IsNewest(All(s), k, n, e) && e !in All(s')
        ensures e.key.kind.Deletion? && forall x :: x in All(s') ==> !Visible(x, k, n)
      {
        DroppedNewest(s, s', c, k, n, e);
      }
      DroppedEntriesView(All(s), All(s'), k, n);
    }
  }

  lemma InputInTables(v: Version, c: Pending)
    requires OutputsOk(v, c)
    ensures forall x :: x in c.input ==> x in TableEntries(v)
  {
    forall x | x in c.input ensures x in TableEntries(v) {
      if InLevel(c.in0, x) {
        var g :| g in c.in0 && x in g.entries;
        InTable(v, c.level, g, x);
      } else {
        var g :| g in c.in1 && x in g.entries;
        InTable(v, c.level + 1, g, x);
      }
    }
  }

  lemma DroppedNewest(s: State, s': State, c: Pending, k: UserKey, n: nat, e: Entry)
    requires VersionInv(s) && Distinct(All(s)) && s.compaction == Some(c) && Install(s, s')
    requires OutputsOk(s.version, c) && c.ss <= n
    requires TombstonesClosed(s.version, c.level, c.in1, c.input, c.ss)
    requires forall x :: x in TableEntries(s'.version) ==> x in TableEntries(s.version)
    requires IsNewest(All(s), k, n, e) && e !in All(s')
    ensures e.key.kind.Deletion? && forall x :: x in All(s') ==> !Visible(x, k, n)
  {
    InputInTables(s.version, c);
    OnlyDroppedAreGone(s.version, s'.version, c, e);
    NewestDroppedIsTombstone(All(s), s.version, c, k, n, e);
    forall x | x in All(s') ensures !Visible(x, k, n) {
      if Visible(x, k, n) {
        assert x in All(s) && x.key.sn != e.key.sn;
        assert e.key.sn <= s.flushed;
        var h := SurvivorStaysBelow(s.version, s'.version, c, e, x);
      }
    }
  }

  lemma InstallKeepsInv(s: State, s': State)
    requires Inv(s) && Install(s, s')
    ensures Inv(s')
  {
    var c := s.compaction.value;
    InstallKeepsVersion(s.version, s'.version, c, s.nextFile);
    InstallKeepsReads(s, s');
    InstallKeepsTables(s, s');
  }

  lemma InstallKeepsTables(s: State, s': State)
    requires VersionInv(s) && TablesInv(s) && s.compaction.Some? && Install(s, s')
    requires forall n: nat :: InVersion(s'.version, n) ==> InVersion(s.version, n) || exists f :: f in s.compaction.value.outputs && f.number == n
    ensures TablesInv(s')
    ensures forall i, f :: 0 <= i < |s'.version| && f in s'.version[i] ==> f.number < s'.manifestNext
  {
    forall n: nat | LiveTable(s', n) ensures LiveTable(s, n) {
    }
    forall i, f | 0 <= i < |s'.version| && f in s'.version[i] ensures f.number < s'.manifestNext {
      assert InVersion(s'.version, f.number);
      assert LiveTable(s, f.number);
    }
  }
}
