/**
  Flushing the immutable memtable keeps the invariant, also while a compaction is in flight.
 */
module LsmFlush {
  import opened Wrappers
  import opened Keys
  import opened VersionedMap
  import opened Versions
  import opened VersionEdits
  import opened Overlap
  import opened CompactionInputs
  import opened CompactionLoop
  import opened Lsm
  import opened LsmWrites

  function FlushEdit(s: State, level: nat, f: File): Edit
    requires s.imm.Some?
  {
    Edit({}, if s.imm.value != [] then [(level, f)] else [])
  }

  // The new table touches no file of levels 0 .. level.
  ghost predicate PlacedClear(v: Version, level: nat, f: File) {
    level > 0 ==> forall i, g :: 0 <= i <= level && i < |v| && g in v[i] ==>
                    g.largest.user < f.smallest.user || f.largest.user < g.smallest.user
  }

  // The new table: well formed, newer than every table, and clear of what it passes.
  ghost predicate NewTable(s: State, level: nat, f: File) {
    && WfFile(f)
    && f.number == s.nextFile
    && (forall e :: e in f.entries <==> e in History(s.ops) && s.flushed < e.key.sn <= s.switched)
    && PlacedClear(s.version, level, f)
  }

  lemma FlushedIsNewTable(s: State, s': State, level: nat, f: File)
    requires RunsInv(s) && VersionInv(s) && Flush(s, s', level, f) && s.imm.value != []
    ensures NewTable(s, level, f)
  {
    HistoryDistinct(s.ops);
    forall i, g | level > 0 && 0 <= i <= level && i < |s.version| && g in s.version[i]
      ensures g.largest.user < f.smallest.user || f.largest.user < g.smallest.user
    {
      assert !LevelOverlaps(s.version, i, f.smallest.user, f.largest.user);
    }
  }

  lemma NewTableIsNewer(s: State, level: nat, f: File, i: nat, g: File)
    requires VersionInv(s) && NewTable(s, level, f) && i < |s.version| && g in s.version[i]
    ensures Newer(f.entries, g.entries)
  {
    forall b | b in g.entries ensures b.key.sn <= s.flushed {
      assert InLevel(s.version[i], b) && b in TableEntries(s.version);
    }
  }

  // Files whose key ranges do not meet hold no common user key, and lie apart.
  lemma ClearOf(f: File, g: File)
    requires WfFile(f) && WfFile(g)
    requires g.largest.user < f.smallest.user || f.largest.user < g.smallest.user
    ensures Newer(g.entries, f.entries) && Apart(f, g)
    ensures forall a, b :: a in f.entries && b in g.entries ==> a.key.user != b.key.user
  {
    forall a, b | a in f.entries && b in g.entries ensures a.key.user != b.key.user {
      EntryInRange(f, a);
      EntryInRange(g, b);
    }
  }

  lemma NewTableAgainst(s: State, level: nat, f: File, i: nat, g: File)
    requires VersionInv(s) && NewTable(s, level, f) && i < |s.version| && g in s.version[i]
    ensures Newer(f.entries, g.entries) && f.number > g.number
    ensures i <= level && level > 0 ==> Newer(g.entries, f.entries) && Apart(f, g)
  {
    NewTableIsNewer(s, level, f, i, g);
    if i <= level && level > 0 {
      ClearOf(f, g);
    }
  }

  lemma NewTableFits(s: State, level: nat, f: File)
    requires VersionInv(s) && NewTable(s, level, f) && level < NUM_LEVELS
    ensures Fits(s.version, Edit({}, [(level, f)]), level)
  {
    var e := Edit({}, [(level, f)]);
    forall p, i, g | p in e.added && 0 <= i < |s.version| && Remains(s.version, e, i, g)
      ensures p.1.number != g.number
      ensures i < level ==> Newer(g.entries, p.1.entries)
      ensures level < i ==> Newer(p.1.entries, g.entries)
      ensures i == level && level > 0 ==> Apart(p.1, g)
      ensures i == level == 0 ==> p.1.number > g.number && Newer(p.1.entries, g.entries)
    {
      NewTableAgainst(s, level, f, i, g);
    }
  }

  lemma FlushFits(s: State, s': State, level: nat, f: File)
    requires RunsInv(s) && VersionInv(s) && Flush(s, s', level, f)
    ensures Fits(s.version, FlushEdit(s, level, f), level)
  {
    if s.imm.value != [] {
      FlushedIsNewTable(s, s', level, f);
      NewTableFits(s, level, f);
    }
  }

  // v' is v with the files `extra` added at `level`.
  ghost predicate Grew(v: Version, v': Version, level: nat, extra: seq<File>) {
    && |v| == |v'| == NUM_LEVELS && level < NUM_LEVELS
    && (forall i, g :: 0 <= i < |v| && g in v[i] ==> g in v'[i])
    && (forall g :: g in extra ==> g in v'[level])
    && (forall i, g {:trigger g in v'[i]} :: 0 <= i < |v'| && g in v'[i] ==> g in v[i] || (i == level && g in extra))
  }

  lemma GrewFrom(v: Version, v': Version, level: nat, extra: seq<File>, i: nat, g: File)
    requires Grew(v, v', level, extra) && i < NUM_LEVELS && g in v'[i]
    ensures g in v[i] || (i == level && g in extra)
  {
  }

  function FreshFiles(s: State, f: File): seq<File>
    requires s.imm.Some?
  {
    if s.imm.value != [] then [f] else []
  }

  lemma FlushGrows(s: State, s': State, level: nat, f: File)
    requires Flush(s, s', level, f)
    ensures Grew(s.version, s'.version, level, FreshFiles(s, f))
  {
    var e := FlushEdit(s, level, f);
    assert forall i, g :: (i, g) in e.added <==> i == level && g in FreshFiles(s, f);
    assert forall i, g :: 0 <= i < NUM_LEVELS ==> (Remains(s.version, e, i, g) <==> g in s.version[i]);
  }

  lemma GrownEntries(v: Version, v': Version, level: nat, extra: seq<File>)
    requires Grew(v, v', level, extra)
    ensures forall x :: x in TableEntries(v') <==> x in TableEntries(v) || InLevel(extra, x)
  {
    forall x ensures x in TableEntries(v') <==> x in TableEntries(v) || InLevel(extra, x) {
      if x in TableEntries(v) {
        var i :| 0 <= i < |v| && InLevel(v[i], x);
        var g :| g in v[i] && x in g.entries;
        assert g in v'[i] && InLevel(v'[i], x);
      }
      if InLevel(extra, x) {
        var g :| g in extra && x in g.entries;
        assert g in v'[level] && InLevel(v'[level], x);
      }
      if x in TableEntries(v') {
        var i :| 0 <= i < |v'| && InLevel(v'[i], x);
        var g :| g in v'[i] && x in g.entries;
        assert g in v[i] ==> InLevel(v[i], x);
      }
    }
  }

  lemma FlushKeepsVersion(s: State, s': State, level: nat, f: File)
    requires RunsInv(s) && VersionInv(s) && Flush(s, s', level, f)
    ensures VersionOk(s'.version)
  {
    FlushFits(s, s', level, f);
    EditKeepsVersionOk(s.version, FlushEdit(s, level, f), level, s'.version);
  }

  lemma FlushedTables(s: State, s': State, level: nat, f: File)
    requires RunsInv(s) && Flush(s, s', level, f)
    ensures forall x :: x in TableEntries(s'.version) <==> x in TableEntries(s.version) || x in s.imm.value
  {
    var extra := FreshFiles(s, f);
    FlushGrows(s, s', level, f);
    GrownEntries(s.version, s'.version, level, extra);
    assert forall x :: InLevel(extra, x) <==> x in s.imm.value by {
      assert s.imm.value != [] ==> f in extra;
    }
  }

  lemma FlushKeepsContents(s: State, s': State, level: nat, f: File)
    requires RunsInv(s) && VersionInv(s) && Flush(s, s', level, f)
    ensures RunsInv(s') && VersionInv(s')
    ensures All(s') == All(s)
  {
    FlushKeepsVersion(s, s', level, f);
    FlushedTables(s, s', level, f);
    FlushGrows(s, s', level, f);
    GrownNumbers(s.version, s'.version, level, FreshFiles(s, f), s'.manifestNext);
  }

  lemma GrownNumbers(v: Version, v': Version, level: nat, extra: seq<File>, bound: nat)
    requires Grew(v, v', level, extra)
    requires forall i, g :: 0 <= i < |v| && g in v[i] ==> g.number < bound
    requires forall g :: g in extra ==> g.number < bound
    ensures forall i, g :: 0 <= i < |v'| && g in v'[i] ==> g.number < bound
  {
    forall i, g | 0 <= i < |v'| && g in v'[i] ensures g.number < bound {
      GrewFrom(v, v', level, extra, i, g);
    }
  }

  lemma GrownTables(s: State, s': State, level: nat, extra: seq<File>)
    requires TablesInv(s) && Grew(s.version, s'.version, level, extra)
    requires s'.pinned == s.pinned && s'.compaction == s.compaction
    requires s'.nextFile >= s.nextFile && s.tables <= s'.tables
    requires forall g :: g in extra ==> g.number in s'.tables && g.number < s'.nextFile
    ensures TablesInv(s')
  {
    forall n: nat | LiveTable(s', n) ensures n in s'.tables && n < s'.nextFile {
      if InVersion(s'.version, n) {
        var i, g :| 0 <= i < |s'.version| && g in s'.version[i] && g.number == n;
        if g in s.version[i] {
          assert InVersion(s.version, n) && LiveTable(s, n);
        }
      } else {
        assert LiveTable(s, n);
      }
    }
  }

  // ---- The compaction in flight ----

  lemma InputPlace(v: Version, c: Pending, e: Entry) returns (i: nat, g: File)
    requires OutputsOk(v, c) && e in c.input
    ensures e in g.entries && i < |v| && g in v[i]
    ensures (i == c.level && g in c.in0) || (i == c.level + 1 && g in c.in1)
    ensures g in c.in0 + c.in1
  {
    if InLevel(c.in0, e) {
      g :| g in c.in0 && e in g.entries;
      i := c.level;
    } else {
      g :| g in c.in1 && e in g.entries;
      i := c.level + 1;
    }
  }

  // A table flushed to `level` below both input levels misses every key being compacted.
  lemma FlushMissesInputs(v: Version, c: Pending, level: nat, f: File, e: Entry)
    requires Wf(v) && CompactionOk(v, c) && PlacedClear(v, level, f)
    requires e in c.input && level >= c.level + 1
    ensures e.key.user < f.smallest.user || f.largest.user < e.key.user
  {
    var i, g := InputPlace(v, c, e);
    EntryInRange(g, e);
  }

  lemma GrownBase(v: Version, v': Version, c: Pending, level: nat, extra: seq<File>, e: Entry)
    requires Wf(v) && CompactionOk(v, c) && Grew(v, v', level, extra) && e in c.input
    requires forall f :: f in extra ==> PlacedClear(v, level, f)
    ensures IsBase(v', c.level, e.key.user) <==> IsBase(v, c.level, e.key.user)
  {
    var k := e.key.user;
    if IsBase(v, c.level, k) {
      forall i, g | c.level + 2 <= i < |v'| && g in v'[i] ensures !(g.smallest.user <= k <= g.largest.user) {
        if g !in v[i] {
          FlushMissesInputs(v, c, level, g, e);
        }
      }
    }
    if IsBase(v', c.level, k) {
      forall i, g | c.level + 2 <= i < |v| && g in v[i] ensures !(g.smallest.user <= k <= g.largest.user) {
        assert g in v'[i];
      }
    }
  }

  // With no gap between the inputs, a table that misses every input lies outside all of them.
  lemma OutsideCovered(v: Version, c: Pending, f: File)
    requires Wf(v) && CompactionOk(v, c) && Covered(c.in0 + c.in1) && WfFile(f)
    requires forall g :: g in c.in0 + c.in1 ==> g.largest.user < f.smallest.user || f.largest.user < g.smallest.user
    ensures OutsideInput(f, c.input)
  {
    EntryInRange(f, f.entries[0]);
    if e1 :| e1 in c.input && !Less(f.largest, e1.key) {
      var i1, g1 := InputPlace(v, c, e1);
      EntryInRange(g1, e1);
      forall e2 | e2 in c.input ensures Less(e2.key, f.smallest) {
        var i2, g2 := InputPlace(v, c, e2);
        EntryInRange(g2, e2);
        if f.largest.user < g2.smallest.user {
          assert Spans(g1, g2, f.smallest.user);
        }
      }
    }
  }

  lemma GrownStayers(v: Version, v': Version, c: Pending, level: nat, extra: seq<File>)
    requires Wf(v) && CompactionOk(v, c) && Grew(v, v', level, extra)
    requires forall f :: f in extra ==> WfFile(f) && PlacedClear(v, level, f)
    requires forall f, i, g :: f in extra && 0 <= i < |v| && g in v[i] ==> Newer(f.entries, g.entries)
    ensures StayersNewer(v'[c.level], c.in0)
    ensures Covered(c.in0 + c.in1) ==> FitsBelow(v'[c.level + 1], c.in1, c.input)
  {
    if level == c.level + 1 && Covered(c.in0 + c.in1) {
      forall f | f in extra ensures OutsideInput(f, c.input) {
        OutsideCovered(v, c, f);
      }
    }
  }

  lemma GrownTombstones(v: Version, v': Version, c: Pending, level: nat, extra: seq<File>)
    requires Wf(v) && CompactionOk(v, c) && Grew(v, v', level, extra)
    requires forall f :: f in extra ==> WfFile(f) && PlacedClear(v, level, f)
    ensures TombstonesClosed(v', c.level, c.in1, c.input, c.ss)
    ensures forall e :: Kept(v', c.level, c.input, c.ss, e) <==> Kept(v, c.level, c.input, c.ss, e)
  {
    forall e | e in c.input ensures IsBase(v', c.level, e.key.user) <==> IsBase(v, c.level, e.key.user) {
      GrownBase(v, v', c, level, extra, e);
    }
    forall h, x, e | h in v'[c.level + 1] && h !in c.in1 && x in h.entries && e in c.input && ObsoleteTombstone(v', c.level, c.ss, e)
      ensures x.key.user == e.key.user ==> x.key.sn > e.key.sn
    {
      GrewFrom(v, v', level, extra, c.level + 1, h);
      if h in v[c.level + 1] {
        assert ObsoleteTombstone(v, c.level, c.ss, e);
      } else {
        FlushMissesInputs(v, c, level, h, e);
        EntryInRange(h, x);
      }
    }
  }

  lemma FlushKeepsPending(s: State, s': State, level: nat, f: File)
    requires RunsInv(s) && VersionInv(s) && PendingInv(s) && Flush(s, s', level, f)
    ensures PendingInv(s')
  {
    if s.compaction.Some? {
      FlushGrows(s, s', level, f);
      forall g | g in FreshFiles(s, f) ensures NewTable(s, level, g) {
        FlushedIsNewTable(s, s', level, f);
      }
      forall g, i, h | g in FreshFiles(s, f) && 0 <= i < |s.version| && h in s.version[i] ensures Newer(g.entries, h.entries) {
        NewTableIsNewer(s, level, g, i, h);
      }
      GrownPending(s.version, s'.version, s.compaction.value, level, FreshFiles(s, f), s.nextFile);
    }
  }

  lemma GrownPending(v: Version, v': Version, c: Pending, level: nat, extra: seq<File>, nextFile: nat)
    requires Wf(v) && CompactionOk(v, c) && FreshNumbers(v, c, nextFile) && Grew(v, v', level, extra)
    requires forall f :: f in extra ==> WfFile(f) && PlacedClear(v, level, f) && f.number == nextFile
    requires forall f, i, g :: f in extra && 0 <= i < |v| && g in v[i] ==> Newer(f.entries, g.entries)
    ensures CompactionOk(v', c) && FreshNumbers(v', c, nextFile + 1)
  {
    GrownStayers(v, v', c, level, extra);
    GrownTombstones(v, v', c, level, extra);
  }

  lemma FlushKeepsInv(s: State, s': State, level: nat, f: File)
    requires Inv(s) && Flush(s, s', level, f)
    ensures Inv(s')
  {
    FlushKeepsContents(s, s', level, f);
    FlushGrows(s, s', level, f);
    GrownTables(s, s', level, FreshFiles(s, f));
    FlushKeepsPending(s, s', level, f);
    FlushKeepsReads(s, s', level, f);
  }

  lemma FlushKeepsReads(s: State, s': State, level: nat, f: File)
    requires ReadsPreserved(s) && SnapshotInv(s) && LogInv(s) && Flush(s, s', level, f)
    requires All(s') == All(s)
    ensures ReadsPreserved(s') && SnapshotInv(s') && LogInv(s')
  {
    assert Run(s.ops, s.switched, s.switched) == [];
  }
}
