/**
  Steps that do not change the version: writes, memtable switches, snapshots, iterators and
  the deletion of obsolete files keep the invariant.
 */
module LsmWrites {
  import opened Wrappers
  import opened Keys
  import opened VersionedMap
  import opened Versions
  import opened VersionEdits
  import opened Lsm

  lemma RunContents(ops: seq<Op>, a: nat, b: nat)
    requires a <= b <= |ops|
    ensures forall e :: e in Run(ops, a, b) <==> e in History(ops) && a < e.key.sn <= b
  {
    var run := Run(ops, a, b);
    forall e | e in History(ops) && a < e.key.sn <= b ensures e in run {
      assert run[e.key.sn - 1 - a] == e;
    }
    forall i | 0 <= i < |run| ensures run[i] in History(ops) && a < run[i].key.sn <= b {
      assert run[i] == EntryOf(ops[a + i], a + i + 1);
    }
  }

  lemma HistoryGrows(ops: seq<Op>, batch: seq<Op>)
    ensures forall e :: e in History(ops) <==> e in History(ops + batch) && e.key.sn <= |ops|
  {
    assert forall i :: 0 <= i < |ops| ==> (ops + batch)[i] == ops[i];
  }

  lemma AllInHistory(s: State)
    requires RunsInv(s) && VersionInv(s)
    ensures Distinct(All(s)) && Distinct(History(s.ops))
    ensures All(s) <= History(s.ops)
  {
    HistoryDistinct(s.ops);
  }

  lemma {:induction false} ReplayFrame(logs: map<nat, seq<seq<Entry>>>, logs': map<nat, seq<seq<Entry>>>, lo: nat, hi: nat)
    requires forall n :: lo <= n < hi ==> (n in logs <==> n in logs') && (n in logs ==> logs[n] == logs'[n])
    ensures Replay(logs, lo, hi) == Replay(logs', lo, hi)
    decreases hi - lo
  {
    if lo < hi {
      ReplayFrame(logs, logs', lo, hi - 1);
    }
  }

  lemma WriteKeepsRuns(s: State, s': State, batch: seq<Op>)
    requires RunsInv(s) && VersionInv(s) && Write(s, s', batch)
    ensures RunsInv(s') && VersionInv(s')
  {
    HistoryGrows(s.ops, batch);
    RunContents(s.ops + batch, |s.ops|, |s.ops| + |batch|);
  }

  lemma WriteKeepsReads(s: State, s': State, batch: seq<Op>)
    requires RunsInv(s) && VersionInv(s) && SnapshotInv(s) && ReadsPreserved(s) && Write(s, s', batch)
    ensures ReadsPreserved(s')
  {
    WriteKeepsRuns(s, s', batch);
    AllInHistory(s');
    HistoryGrows(s.ops, batch);
    var N := After(s'.ops, |s.ops|);
    assert All(s') == All(s) + N;
    assert History(s'.ops) == History(s.ops) + N;
    assert SmallestSnapshot(s) <= SmallestSnapshot(s');
    forall k, n | n >= SmallestSnapshot(s') ensures View(All(s'), k, n) == View(History(s'.ops), k, n) {
      assert View(All(s), k, n) == View(History(s.ops), k, n);
      NewerEntriesAgree(All(s), History(s.ops), N, k, n);
    }
  }

  lemma WriteKeepsLogs(s: State, s': State, batch: seq<Op>)
    requires LogInv(s) && Write(s, s', batch)
    ensures LogInv(s')
  {
    var record := Run(s'.ops, |s.ops|, |s'.ops|);
    assert s'.logs[s.log] == s.logs[s.log] + [record];
    assert (s.logs[s.log] + [record])[..|s.logs[s.log]|] == s.logs[s.log];
    RunPrefix(s.ops, batch, s.switched, |s.ops|);
    RunPrefix(s.ops, batch, s.flushed, s.switched);
    assert Run(s'.ops, s.switched, |s.ops|) + record == Run(s'.ops, s.switched, |s'.ops|);
    ReplayFrame(s.logs, s'.logs, s.logNumber, s.log);
  }

  lemma RunPrefix(ops: seq<Op>, batch: seq<Op>, a: nat, b: nat)
    requires a <= b <= |ops|
    ensures Run(ops + batch, a, b) == Run(ops, a, b)
  {
  }

  lemma WriteKeepsInv(s: State, s': State, batch: seq<Op>)
    requires Inv(s) && Write(s, s', batch)
    ensures Inv(s')
  {
    WriteKeepsRuns(s, s', batch);
    WriteKeepsReads(s, s', batch);
    WriteKeepsLogs(s, s', batch);
    SameTables(s, s');
  }

  // Steps that leave the version, the compaction, the pinned versions and the table files
  // alone leave their invariants alone.
  lemma SameTables(s: State, s': State)
    requires TablesInv(s) && PendingInv(s)
    requires s'.version == s.version && s'.compaction == s.compaction && s'.pinned == s.pinned && s'.tables == s.tables
    requires s'.nextFile >= s.nextFile && SmallestSnapshot(s') >= SmallestSnapshot(s)
    ensures TablesInv(s') && PendingInv(s')
  {
    assert forall n: nat :: LiveTable(s', n) <==> LiveTable(s, n);
  }

  lemma SwitchKeepsInv(s: State, s': State)
    requires Inv(s) && Switch(s, s')
    ensures Inv(s')
  {
    SwitchKeepsLogs(s, s');
    SameTables(s, s');
    assert All(s') == All(s);
  }

  lemma SwitchKeepsLogs(s: State, s': State)
    requires RunsInv(s) && LogInv(s) && Switch(s, s')
    ensures LogInv(s')
  {
    assert ImmEntries(s) == [];
    NothingUnflushed(s);
    ReplayFrame(s.logs, s'.logs, s.logNumber, s.log + 1);
    ReplayGap(s'.logs, s.logNumber, s.log + 1, s.nextFile);
    assert Run(s.ops, s.flushed, s.switched) == [];
  }

  // Without an immutable memtable, everything before the switch is in tables.
  lemma NothingUnflushed(s: State)
    requires RunsInv(s) && ImmEntries(s) == []
    ensures s.flushed == s.switched
  {
    var n := s.flushed;
    if n < |s.ops| {
      var e := EntryOf(s.ops[n], n + 1);
      assert InHistory(s.ops, e) && e.key.sn == n + 1;
      assert n < s.switched ==> e in ImmEntries(s);
    }
  }

  lemma {:induction false} ReplayGap(logs: map<nat, seq<seq<Entry>>>, lo: nat, mid: nat, hi: nat)
    requires lo <= mid <= hi && forall n :: mid <= n < hi ==> n !in logs
    ensures Replay(logs, lo, hi) == Replay(logs, lo, mid)
    decreases hi - mid
  {
    if mid < hi {
      ReplayGap(logs, lo, mid, hi - 1);
    }
  }

  lemma GetSnapshotKeepsInv(s: State, s': State)
    requires Inv(s) && GetSnapshot(s, s')
    ensures Inv(s')
  {
    SameTables(s, s');
  }

  lemma ReleaseSnapshotKeepsInv(s: State, s': State, i: nat)
    requires Inv(s) && ReleaseSnapshot(s, s', i)
    ensures Inv(s')
  {
    SameTables(s, s');
  }

  lemma PinKeepsInv(s: State, s': State)
    requires Inv(s) && Pin(s, s')
    ensures Inv(s')
  {
    assert forall n: nat :: LiveTable(s', n) <==> LiveTable(s, n);
  }

  lemma UnpinKeepsInv(s: State, s': State, i: nat)
    requires Inv(s) && Unpin(s, s', i)
    ensures Inv(s')
  {
    assert forall v :: v in s'.pinned ==> v in s.pinned;
    assert forall n: nat :: LiveTable(s', n) ==> LiveTable(s, n);
  }

  // Garbage collection touches no table of a live version and no log that recovery needs.
  lemma CollectKeepsInv(s: State, s': State)
    requires Inv(s) && Collect(s, s')
    ensures Inv(s')
    ensures Replay(s'.logs, s'.logNumber, s'.log + 1) == Replay(s.logs, s.logNumber, s.log + 1)
  {
    ReplayFrame(s.logs, s'.logs, s.logNumber, s.log);
    ReplayFrame(s.logs, s'.logs, s.logNumber, s.log + 1);
    assert forall n: nat :: LiveTable(s', n) <==> LiveTable(s, n);
    assert All(s') == All(s);
  }
}
