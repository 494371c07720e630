/**
  A crash followed by Open is a step that keeps the invariant, loses no operation, and rebuilds
  every current read.
 */
module LsmRecovery {
  import opened Wrappers
  import opened Keys
  import opened VersionedMap
  import opened Versions
  import opened VersionEdits
  import opened Lsm
  import opened LsmWrites
  import opened LsmFlush
  import opened Recovery

  // The tables written during recovery, all at level 0.
  function RecoveryEdit(added: seq<File>): Edit {
    Edit({}, seq(|added|, i requires 0 <= i < |added| => (0, added[i])))
  }

  // The database that Open hands out.
  ghost function Opened(ops: seq<Op>, d: Disk, r: Replayed, mid: nat, last: nat, v: Version): State {
    var log := if r.mem.None? then r.nextFile else last;
    var next := if r.mem.None? then r.nextFile + 1 else r.nextFile;
    State(ops, mid, mid, if r.mem.Some? then r.mem.value else [], None, v, [], None, [], next, log,
          if r.saveManifest then log else d.logNumber,
          if r.saveManifest then next else d.manifestNext,
          if r.saveManifest then |ops| else d.manifestSequence,
          if r.mem.None? then d.logs[log := []] else d.logs,
          d.tables + FileNumbers(r.added))
  }

  // Recover, and the rest of Open up to DeleteObsoleteFiles.  A log or a MANIFEST is gone on with
  // only if what is added to it will be read.
  ghost predicate Reopen(s: State, s': State, d: Disk, r: Replayed, mid: nat, last: nat) {
    && CrashImage(s, d)
    && Rebuilt(s, d, r, mid, last)
    && (r.mem.Some? ==> last !in d.torn)
    && (!r.saveManifest ==> !d.manifestTorn)
    && (if r.saveManifest then Applied(d.version, RecoveryEdit(r.added), s'.version) else s'.version == d.version)
    && s' == Opened(s.ops, d, r, mid, last, s'.version)
  }

  lemma RecoveredAdds(added: seq<File>)
    ensures AddsAt(RecoveryEdit(added), 0) && RecoveryEdit(added).deleted == {}
    ensures forall p :: p in RecoveryEdit(added).added <==> p.0 == 0 && p.1 in added
  {
    var e := RecoveryEdit(added);
    assert forall i :: 0 <= i < |added| ==> e.added[i] == (0, added[i]);
    forall f | f in added ensures (0, f) in e.added {
      var i :| 0 <= i < |added| && added[i] == f;
      assert e.added[i] == (0, f);
    }
  }

  lemma RecoveredOrdered(ops: seq<Op>, added: seq<File>, first: nat, nextFile: nat, base: nat, mid: nat, f: File, g: File)
    requires TablesCover(ops, added, first, nextFile, base, mid) && f in added && g in added && f != g
    ensures f.number != g.number
    ensures f.number > g.number ==> Newer(f.entries, g.entries)
  {
    var i :| 0 <= i < |added| && added[i] == f;
    var j :| 0 <= j < |added| && added[j] == g;
    assert i < j || j < i;
  }

  // Recovered tables are newer than every table of the version.
  lemma RecoveredIsNewer(s: State, added: seq<File>, first: nat, nextFile: nat, mid: nat, f: File, i: nat, g: File)
    requires VersionInv(s) && TablesCover(s.ops, added, first, nextFile, s.flushed, mid) && first > s.manifestNext
    requires f in added && i < |s.version| && g in s.version[i]
    ensures f.number > g.number && Newer(f.entries, g.entries)
  {
    forall a, b | a in f.entries && b in g.entries ensures a.key.sn > b.key.sn {
      assert InLevel(added, a);
      assert InLevel(s.version[i], b) && b in TableEntries(s.version);
    }
  }

  lemma RecoveredFits(s: State, added: seq<File>, first: nat, nextFile: nat, mid: nat)
    requires VersionInv(s) && TablesCover(s.ops, added, first, nextFile, s.flushed, mid) && first > s.manifestNext
    ensures Fits(s.version, RecoveryEdit(added), 0)
  {
    var e := RecoveryEdit(added);
    RecoveredAdds(added);
    hide RecoveryEdit;
    forall p, q | p in e.added && q in e.added && p != q
      ensures p.1.number != q.1.number && (p.1.number > q.1.number ==> Newer(p.1.entries, q.1.entries))
    {
      RecoveredOrdered(s.ops, added, first, nextFile, s.flushed, mid, p.1, q.1);
    }
    forall p, i, g | p in e.added && 0 <= i < |s.version| && Remains(s.version, e, i, g)
      ensures p.1.number > g.number && Newer(p.1.entries, g.entries)
    {
      RecoveredIsNewer(s, added, first, nextFile, mid, p.1, i, g);
    }
  }

  lemma RecoveredGrows(v: Version, added: seq<File>, v': Version)
    requires Applied(v, RecoveryEdit(added), v')
    ensures Grew(v, v', 0, added)
  {
    RecoveredAdds(added);
    hide RecoveryEdit;
  }

  // Whether or not a new MANIFEST record is written, the version afterwards is the old one
  // with the recovered tables at level 0.
  lemma ReopenVersion(s: State, s': State, d: Disk, r: Replayed, mid: nat, last: nat)
    requires VersionInv(s) && Reopen(s, s', d, r, mid, last)
    ensures VersionOk(s'.version) && Grew(s.version, s'.version, 0, r.added)
  {
    hide Applied, TablesCover, HoldsRange, Opened;
    if r.saveManifest {
      RecoveredFits(s, r.added, d.manifestNext + 1, r.nextFile, mid);
      EditKeepsVersionOk(s.version, RecoveryEdit(r.added), 0, s'.version);
      RecoveredGrows(s.version, r.added, s'.version);
    }
  }

  lemma ReopenContents(s: State, s': State, d: Disk, r: Replayed, mid: nat, last: nat)
    requires RunsInv(s) && VersionInv(s) && Reopen(s, s', d, r, mid, last)
    ensures RunsInv(s') && VersionInv(s')
    ensures All(s') == All(s)
  {
    ReopenVersion(s, s', d, r, mid, last);
    hide VersionOk, Grew, Applied;
    GrownEntries(s.version, s'.version, 0, r.added);
    ReopenNumbers(s, s', d, r, mid, last);
    ReopenRuns(s, s', d, r, mid, last);
  }

  lemma ReopenNumbers(s: State, s': State, d: Disk, r: Replayed, mid: nat, last: nat)
    requires VersionInv(s) && Reopen(s, s', d, r, mid, last) && Grew(s.version, s'.version, 0, r.added)
    ensures forall i, g :: 0 <= i < |s'.version| && g in s'.version[i] ==> g.number < s'.manifestNext
    ensures s'.manifestNext <= s'.nextFile
  {
    hide VersionOk;
    GrownNumbers(s.version, s'.version, 0, r.added, s'.manifestNext);
  }

  lemma ReopenRuns(s: State, s': State, d: Disk, r: Replayed, mid: nat, last: nat)
    requires RunsInv(s) && Reopen(s, s', d, r, mid, last)
    ensures RunsInv(s')
  {
    HistoryDistinct(s.ops);
  }

  lemma ReopenLogs(s: State, s': State, d: Disk, r: Replayed, mid: nat, last: nat)
    requires LogInv(s) && Reopen(s, s', d, r, mid, last)
    ensures LogInv(s')
  {
    hide TablesCover, HoldsRange, Applied;
    if r.mem.None? {
      var log := r.nextFile;
      ImageReplays(s, d, log);
      ReplayFrame(d.logs, s'.logs, d.logNumber, log);
      NothingLogged(s.ops);
    } else {
      NothingLogged(s.ops);
    }
  }

  lemma NothingLogged(ops: seq<Op>)
    ensures forall n :: 0 <= n <= |ops| ==> Run(ops, n, n) == []
  {
  }

  lemma ReopenTables(s: State, s': State, d: Disk, r: Replayed, mid: nat, last: nat)
    requires VersionInv(s) && Reopen(s, s', d, r, mid, last) && Grew(s.version, s'.version, 0, r.added)
    ensures TablesInv(s')
  {
    forall n: nat | LiveTable(s', n) ensures n in s'.tables && n < s'.nextFile {
      var i, g :| 0 <= i < |s'.version| && g in s'.version[i] && g.number == n;
      GrewFrom(s.version, s'.version, 0, r.added, i, g);
      assert g in s.version[i] ==> InVersion(s.version, n);
    }
  }

  lemma ReopenKeepsInv(s: State, s': State, d: Disk, r: Replayed, mid: nat, last: nat)
    requires Inv(s) && Reopen(s, s', d, r, mid, last)
    ensures Inv(s') && s'.ops == s.ops && All(s') == All(s)
  {
    ReopenContents(s, s', d, r, mid, last);
    ReopenVersion(s, s', d, r, mid, last);
    ReopenLogs(s, s', d, r, mid, last);
    ReopenTables(s, s', d, r, mid, last);
    ReopenReads(s, s');
  }

  // No snapshot survives: only the last sequence number is left to read at.
  lemma ReopenReads(s: State, s': State)
    requires ReadsPreserved(s) && SnapshotInv(s)
    requires s'.ops == s.ops && s'.snapshots == [] && All(s') == All(s)
    ensures ReadsPreserved(s') && SnapshotInv(s')
  {
  }

  lemma LastIntact(s: State, d: Disk, r: Replayed, mid: nat, last: nat)
    requires Rebuilt(s, d, r, mid, last) && NewestIntact(d)
    ensures last !in d.torn
  {
  }
}
