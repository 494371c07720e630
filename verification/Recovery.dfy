/**
  Opening a database after a crash: log replay (RecoverLogFile and the log part of Recover in
  db/db_impl.cc).
 */
module Recovery {
  import opened Wrappers
  import opened Keys
  import opened VersionedMap
  import opened Versions
  import opened VersionEdits
  import opened MemTable
  import opened Lsm
  import opened LsmWrites

  // What is left on disk: of each log, and of the MANIFEST, the records that are complete.  A file
  // is torn when its last bytes would swallow a record added behind them (LogReuse.Swallows).
  datatype Disk = Disk(version: Version, logNumber: nat, manifestNext: nat, manifestSequence: nat,
                       logs: map<nat, seq<seq<Entry>>>, tables: set<nat>, torn: set<nat>, manifestTorn: bool)

  ghost function Whole(d: Disk): Disk {
    d.(torn := {}, manifestTorn := false)
  }

  // The log that reuse_logs would go on with is not torn.
  ghost predicate NewestIntact(d: Disk) {
    forall n :: n in d.torn && n in d.logs ==> exists m :: m in d.logs && m > n
  }

  function DiskOf(s: State): Disk {
    Disk(s.version, s.logNumber, s.manifestNext, s.manifestSequence, s.logs, s.tables, {}, false)
  }

  // Progress of log replay: tables written so far, and the memtable taken over from the last log.
  datatype Replayed = Replayed(added: seq<File>, nextFile: nat, maxSequence: nat, saveManifest: bool,
                               mem: Option<seq<Entry>>)

  ghost predicate HoldsRange(ops: seq<Op>, es: seq<Entry>, a: nat, b: nat) {
    Sorted(es) && forall e :: e in es <==> e in History(ops) && a < e.key.sn <= b
  }

  // The tables hold operations base+1 .. mid, later tables newer ones under larger numbers.
  ghost predicate TablesCover(ops: seq<Op>, added: seq<File>, first: nat, nextFile: nat, base: nat, mid: nat) {
    && (forall f :: f in added ==> WfFile(f) && first <= f.number < nextFile)
    && (forall e :: InLevel(added, e) <==> e in History(ops) && base < e.key.sn <= mid)
    && (forall i, j :: 0 <= i < j < |added| ==> added[i].number < added[j].number && Newer(added[j].entries, added[i].entries))
  }

  // WriteLevel0Table during recovery; an empty memtable leaves no table.
  method WriteLevel0Table(added: seq<File>, nextFile: nat, mem: seq<Entry>, ghost ops: seq<Op>, ghost first: nat,
                          ghost base: nat, ghost mid: nat, ghost to: nat)
    returns (added': seq<File>, nextFile': nat)
    requires base <= mid <= to && |ops| < MAX_SEQUENCE
    requires TablesCover(ops, added, first, nextFile, base, mid) && HoldsRange(ops, mem, mid, to) && first <= nextFile
    ensures TablesCover(ops, added', first, nextFile', base, to) && nextFile' == nextFile + 1
    ensures mem == [] ==> added' == added
  {
    nextFile' := nextFile + 1;
    if mem == [] {
      added' := added;
      EmptyRange(ops, mid, to);
    } else {
      var size: nat := *;
      var f := File(nextFile, size, mem[0].key, mem[|mem| - 1].key, mem);
      added' := added + [f];
      OneMoreTable(ops, added, f, first, base, mid, to);
    }
  }

  lemma EmptyRange(ops: seq<Op>, mid: nat, to: nat)
    requires HoldsRange(ops, [], mid, to)
    ensures forall e :: e in History(ops) ==> !(mid < e.key.sn <= to)
  {
  }

  lemma OneMoreTable(ops: seq<Op>, added: seq<File>, f: File, first: nat, base: nat, mid: nat, to: nat)
    requires base <= mid <= to && |ops| < MAX_SEQUENCE && first <= f.number
    requires TablesCover(ops, added, first, f.number, base, mid) && HoldsRange(ops, f.entries, mid, to)
    requires f.entries != [] && f.smallest == f.entries[0].key && f.largest == f.entries[|f.entries| - 1].key
    ensures TablesCover(ops, added + [f], first, f.number + 1, base, to)
  {
    hide History, InLevel, Newer, WfFile, HoldsRange;
    NewTableWf(ops, f, mid, to);
    CoverOneMore(ops, added, f, base, mid, to);
    var all := added + [f];
    forall i | 0 <= i < |added| ensures Newer(f.entries, added[i].entries) && all[i] == added[i] && added[i] in added {
      NewTableNewer(ops, added, f, base, mid, to, i);
    }
    forall i, j | 0 <= i < j < |all| ensures all[i].number < all[j].number && Newer(all[j].entries, all[i].entries) {
      assert j < |added| ==> all[j] == added[j];
    }
  }

  lemma NewTableWf(ops: seq<Op>, f: File, mid: nat, to: nat)
    requires |ops| < MAX_SEQUENCE && HoldsRange(ops, f.entries, mid, to)
    requires f.entries != [] && f.smallest == f.entries[0].key && f.largest == f.entries[|f.entries| - 1].key
    ensures WfFile(f)
  {
    HistoryDistinct(ops);
  }

  lemma NewTableNewer(ops: seq<Op>, added: seq<File>, f: File, base: nat, mid: nat, to: nat, i: nat)
    requires forall e :: InLevel(added, e) <==> e in History(ops) && base < e.key.sn <= mid
    requires HoldsRange(ops, f.entries, mid, to) && i < |added|
    ensures Newer(f.entries, added[i].entries)
  {
    hide History;
    forall b | b in added[i].entries ensures b.key.sn <= mid {
      assert InLevel(added, b);
    }
  }

  lemma CoverOneMore(ops: seq<Op>, added: seq<File>, f: File, base: nat, mid: nat, to: nat)
    requires base <= mid <= to
    requires forall e :: InLevel(added, e) <==> e in History(ops) && base < e.key.sn <= mid
    requires HoldsRange(ops, f.entries, mid, to)
    ensures forall e :: InLevel(added + [f], e) <==> e in History(ops) && base < e.key.sn <= to
  {
    forall e ensures InLevel(added + [f], e) <==> InLevel(added, e) || e in f.entries {
      if InLevel(added, e) {
        var g :| g in added && e in g.entries;
        assert g in added + [f];
      }
      assert f in added + [f];
    }
  }

  // One record joins the memtable.
  method ReplayRecord(mem: seq<Entry>, record: seq<Entry>, ghost ops: seq<Op>, ghost mid: nat, ghost p: nat)
    returns (mem': seq<Entry>)
    requires mid <= p && p + |record| <= |ops| && record == Run(ops, p, p + |record|)
    requires HoldsRange(ops, mem, mid, p)
    ensures HoldsRange(ops, mem', mid, p + |record|)
  {
    hide InHistory;
    RunContents(ops, p, p + |record|);
    assert forall i :: 0 <= i < |record| ==> record[i] == EntryOf(ops[p + i], p + i + 1);
    assert forall i :: 0 <= i < |record| ==> record[i] in record && record[i].key.sn == p + i + 1;
    mem' := InsertInto(mem, record);
  }

  // RecoverLogFile.  When the memtable is full is not modelled: any choice is allowed.
  method RecoverLogFile(records: seq<seq<Entry>>, last: bool, reuseLogs: bool, r: Replayed,
                        ghost ops: seq<Op>, ghost first: nat, ghost base: nat, ghost from: nat, ghost to: nat)
    returns (r': Replayed)
    requires base <= from <= to <= |ops| < MAX_SEQUENCE && Flatten(records) == Run(ops, from, to)
    requires r.mem.None? && first <= r.nextFile && TablesCover(ops, r.added, first, r.nextFile, base, from)
    requires r.added != [] ==> r.saveManifest
    requires r.maxSequence <= from
    ensures r'.nextFile >= r.nextFile
    ensures TablesCover(ops, r'.added, first, r'.nextFile, base, if r'.mem.Some? then from else to)
    ensures r'.mem.None? && from < to ==> r'.saveManifest
    ensures r'.mem.Some? ==> HoldsRange(ops, r'.mem.value, from, to) && r'.saveManifest == r.saveManifest && last && reuseLogs
    ensures r'.added != [] ==> r'.saveManifest
    ensures r.saveManifest ==> r'.saveManifest
    ensures r'.maxSequence == if from < to then to else r.maxSequence
  {
    hide HoldsRange, TablesCover, Run, Flatten;
    NothingYet(ops);
    NothingFlat();
    var added, nextFile, maxSequence, saveManifest := r.added, r.nextFile, r.maxSequence, r.saveManifest;
    var mem: Option<seq<Entry>> := None;
    var compactions := 0;
    ghost var mid, p := from, from;
    for i := 0 to |records|
      invariant from <= mid <= p <= to && p == from + |Flatten(records[..i])|
      invariant nextFile >= r.nextFile && TablesCover(ops, added, first, nextFile, base, mid)
      invariant if mem.Some? then HoldsRange(ops, mem.value, mid, p) else mid == p
      invariant compactions == 0 ==> mid == from && added == r.added && saveManifest == r.saveManifest
      invariant added != [] ==> saveManifest
      invariant r.saveManifest ==> saveManifest
      invariant compactions > 0 ==> saveManifest
      invariant maxSequence == if from < p then p else r.maxSequence
    {
      RecordRun(ops, records, i, from, to);
      if mem.None? {
        mem := Some([]);
      }
      var m := ReplayRecord(mem.value, records[i], ops, mid, p);
      mem := Some(m);
      if records[i] != [] {
        var lastSeq := records[i][|records[i]| - 1].key.sn;
        RunLast(ops, p, p + |records[i]|);
        if lastSeq > maxSequence {
          maxSequence := lastSeq;
        }
      }
      p := p + |records[i]|;
      var full: bool := *;
      if full {
        compactions := compactions + 1;
        saveManifest := true;
        added, nextFile := WriteLevel0Table(added, nextFile, m, ops, first, base, mid, p);
        mid := p;
        mem := None;
      }
    }
    assert records[..|records|] == records;
    WholeLength(ops, from, to);
    if reuseLogs && last && compactions == 0 {
      r' := Replayed(added, nextFile, maxSequence, saveManifest, Some(if mem.Some? then mem.value else []));
    } else {
      if mem.Some? {
        saveManifest := true;
        added, nextFile := WriteLevel0Table(added, nextFile, mem.value, ops, first, base, mid, p);
      }
      r' := Replayed(added, nextFile, maxSequence, saveManifest, None);
    }
  }

  lemma RunLast(ops: seq<Op>, a: nat, b: nat)
    requires a < b <= |ops|
    ensures |Run(ops, a, b)| == b - a && Run(ops, a, b)[b - a - 1].key.sn == b
  {
    var k := b - a - 1;
    assert Run(ops, a, b)[k] == EntryOf(ops[a + k], a + k + 1);
  }

  lemma WholeLength(ops: seq<Op>, from: nat, to: nat)
    requires from <= to <= |ops|
    ensures |Run(ops, from, to)| == to - from
  {
  }

  lemma NothingFlat()
    ensures Flatten([]) == []
  {
  }

  lemma NothingYet(ops: seq<Op>)
    ensures forall a: nat :: HoldsRange(ops, [], a, a)
  {
  }

  // Record i of a log that replays to operations from+1 .. to.
  lemma {:induction false} RecordRun(ops: seq<Op>, records: seq<seq<Entry>>, i: nat, from: nat, to: nat)
    requires i < |records| && from <= to <= |ops| && Flatten(records) == Run(ops, from, to)
    ensures var p := from + |Flatten(records[..i])|;
            && p + |records[i]| <= to && records[i] == Run(ops, p, p + |records[i]|)
            && Flatten(records[..i + 1]) == Flatten(records[..i]) + records[i]
  {
    assert records[..i + 1][..i] == records[..i];
    FlattenPrefix(records, i + 1);
    var p := from + |Flatten(records[..i])|;
    var pre := Flatten(records[..i]) + records[i];
    assert pre == Flatten(records)[..|pre|];
    assert forall j :: 0 <= j < |records[i]| ==> records[i][j] == pre[|Flatten(records[..i])| + j];
  }

  lemma {:induction false} FlattenPrefix(records: seq<seq<Entry>>, n: nat)
    requires n <= |records|
    ensures Flatten(records[..n]) <= Flatten(records)
    decreases |records| - n
  {
    if n == |records| {
      assert records[..n] == records;
    } else {
      FlattenPrefix(records, n + 1);
      assert records[..n + 1][..n] == records[..n];
    }
  }

  // ---- Recover: all logs, in ascending order ----

  // What a crash may leave of state s, at any point inside a step too: the MANIFEST and the logs
  // it asks for are there, and so are the tables of the version.  Beyond them there may be orphan
  // tables, logs that were about to be deleted, new logs nothing was written to, and behind the
  // records of any log or the MANIFEST the beginning of one that was not acknowledged.
  ghost predicate CrashImage(s: State, d: Disk) {
    && d.version == s.version && d.logNumber == s.logNumber
    && d.manifestNext == s.manifestNext && d.manifestSequence == s.manifestSequence
    && (forall n :: s.logNumber <= n <= s.log ==>
          (n in d.logs <==> n in s.logs) && (n in s.logs ==> d.logs[n] == s.logs[n]))
    && (forall n :: n in d.logs && n > s.log ==> d.logs[n] == [])
    && forall n: nat :: InVersion(s.version, n) ==> n in d.tables
  }

  lemma {:induction false} ReplayPrefix(logs: map<nat, seq<seq<Entry>>>, lo: nat, mid: nat, hi: nat)
    requires mid <= hi
    ensures Replay(logs, lo, mid) <= Replay(logs, lo, hi)
    decreases hi - mid
  {
    if mid < hi {
      ReplayPrefix(logs, lo, mid, hi - 1);
    }
  }

  lemma {:induction false} ReplayNothing(logs: map<nat, seq<seq<Entry>>>, lo: nat, mid: nat, hi: nat)
    requires lo <= mid <= hi && forall n :: mid <= n < hi && n in logs ==> logs[n] == []
    ensures Replay(logs, lo, hi) == Replay(logs, lo, mid)
    decreases hi - mid
  {
    if mid < hi {
      ReplayNothing(logs, lo, mid, hi - 1);
    }
  }

  // The logs on disk hold exactly the operations that are in no table.
  lemma ImageReplays(s: State, d: Disk, hi: nat)
    requires LogInv(s) && CrashImage(s, d) && hi > s.log
    ensures s.flushed <= |s.ops|
    ensures Replay(d.logs, d.logNumber, hi) == Run(s.ops, s.flushed, |s.ops|)
  {
    ReplayNothing(d.logs, d.logNumber, s.log + 1, hi);
    ReplayFrame(s.logs, d.logs, s.logNumber, s.log + 1);
    assert Run(s.ops, s.flushed, s.switched) + Run(s.ops, s.switched, |s.ops|) == Run(s.ops, s.flushed, |s.ops|);
  }

  lemma RunPart(ops: seq<Op>, a: nat, b: nat, part: seq<Entry>)
    requires a <= b <= |ops| && part <= Run(ops, a, b)
    ensures a + |part| <= b && part == Run(ops, a, a + |part|)
  {
  }

  lemma RunSplit(ops: seq<Op>, base: nat, from: nat, part: seq<Entry>, x: seq<Entry>)
    requires base <= from <= |ops| && part == Run(ops, base, from) + x && part <= Run(ops, base, |ops|)
    ensures from + |x| <= |ops| && x == Run(ops, from, from + |x|) && part == Run(ops, base, from + |x|)
  {
    RunPart(ops, base, |ops|, part);
    forall i | 0 <= i < |x| ensures x[i] == EntryOf(ops[from + i], from + i + 1) {
      assert part[from - base + i] == x[i];
    }
  }

  // One log's share.
  lemma LogHolds(ops: seq<Op>, logs: map<nat, seq<seq<Entry>>>, lo: nat, n: nat, hi: nat, base: nat, from: nat)
    requires base <= from <= |ops| && lo <= n < hi && n in logs
    requires Replay(logs, lo, hi) == Run(ops, base, |ops|) && Replay(logs, lo, n) == Run(ops, base, from)
    ensures var to := from + |Flatten(logs[n])|;
            to <= |ops| && Flatten(logs[n]) == Run(ops, from, to) && Replay(logs, lo, n + 1) == Run(ops, base, to)
  {
    ReplayPrefix(logs, lo, n + 1, hi);
    hide Run, Flatten;
    var x := Flatten(logs[n]);
    assert Replay(logs, lo, n + 1) == Run(ops, base, from) + x;
    hide Replay;
    RunSplit(ops, base, from, Replay(logs, lo, n + 1), x);
  }

  ghost predicate IsListing(ns: seq<nat>, logs: map<nat, seq<seq<Entry>>>, lo: nat) {
    && (forall i, j :: 0 <= i < j < |ns| ==> ns[i] < ns[j])
    && forall n :: n in ns <==> n in logs && n >= lo
  }

  // The logs to replay, sorted.
  method LogsToReplay(logs: map<nat, seq<seq<Entry>>>, minLog: nat) returns (ns: seq<nat>)
    ensures IsListing(ns, logs, minLog)
  {
    ns := [];
    var rest := set n | n in logs && n >= minLog;
    while rest != {}
      invariant forall i, j :: 0 <= i < j < |ns| ==> ns[i] < ns[j]
      invariant forall n, m :: n in ns && m in rest ==> n < m
      invariant forall n :: n in ns || n in rest <==> n in logs && n >= minLog
      decreases rest
    {
      var least := Least(rest);
      assert forall n :: n in ns ==> n < least;
      assert forall i :: 0 <= i < |ns| ==> ns[i] in ns;
      ns, rest := ns + [least], rest - {least};
    }
  }

  method Least(numbers: set<nat>) returns (least: nat)
    requires numbers != {}
    ensures least in numbers && forall n :: n in numbers ==> least <= n
  {
    least :| least in numbers;
    var rest := numbers - {least};
    while rest != {}
      invariant least in numbers && forall n :: n in numbers && n !in rest ==> least <= n
      decreases rest
    {
      var n :| n in rest;
      if n < least {
        least := n;
      }
      rest := rest - {n};
    }
  }

  // Where the replay stands: operations base+1 .. mid are in new level-0 tables, and the rest of
  // what is logged, if any, is in the memtable taken over from log `last`.
  ghost predicate Rebuilt(s: State, d: Disk, r: Replayed, mid: nat, last: nat) {
    && s.flushed <= mid <= |s.ops|
    && TablesCover(s.ops, r.added, d.manifestNext + 1, r.nextFile, s.flushed, mid)
    && (forall n :: n in d.logs ==> n <= last < r.nextFile) && d.manifestNext < r.nextFile
    && last in d.logs && d.logNumber <= last
    && (!r.saveManifest ==> r.added == [] && mid == s.flushed)
    && r.maxSequence == (if s.flushed < |s.ops| then |s.ops| else 0)
    && match r.mem
       case None => mid == |s.ops|
       case Some(mem) =>
         && HoldsRange(s.ops, mem, mid, |s.ops|)
         && Flatten(d.logs[last]) == Run(s.ops, mid, |s.ops|)
         && Replay(d.logs, d.logNumber, last) == Run(s.ops, s.flushed, mid)
  }

  // All logs before `next` are replayed, and nothing is taken over.
  ghost predicate Midway(s: State, d: Disk, r: Replayed, mid: nat, next: nat) {
    && s.flushed <= mid <= |s.ops| && r.mem.None?
    && Replay(d.logs, d.logNumber, next) == Run(s.ops, s.flushed, mid)
    && d.manifestNext + 1 <= r.nextFile
    && TablesCover(s.ops, r.added, d.manifestNext + 1, r.nextFile, s.flushed, mid)
    && (!r.saveManifest ==> r.added == [] && mid == s.flushed)
    && r.maxSequence == if s.flushed < mid then mid else 0
  }

  // The last log became the log of the opened database.
  ghost predicate TakenOver(s: State, d: Disk, r: Replayed, mid: nat, last: nat) {
    && s.flushed <= mid <= |s.ops| && r.mem.Some? && last in d.logs
    && HoldsRange(s.ops, r.mem.value, mid, |s.ops|)
    && Flatten(d.logs[last]) == Run(s.ops, mid, |s.ops|)
    && Replay(d.logs, d.logNumber, last) == Run(s.ops, s.flushed, mid)
    && d.manifestNext + 1 <= r.nextFile
    && TablesCover(s.ops, r.added, d.manifestNext + 1, r.nextFile, s.flushed, mid)
    && (!r.saveManifest ==> r.added == [] && mid == s.flushed)
    && r.maxSequence == if s.flushed < |s.ops| then |s.ops| else 0
  }

  method ReplayLog(d: Disk, n: nat, isLast: bool, reuseLogs: bool, r: Replayed, ghost s: State, ghost mid: nat,
                   ghost next: nat, ghost last: nat)
    returns (r': Replayed, ghost mid': nat)
    requires |s.ops| < MAX_SEQUENCE && s.flushed <= |s.ops| && n in d.logs && d.logNumber <= next <= n <= last
    requires isLast ==> n == last
    requires Replay(d.logs, d.logNumber, last + 1) == Run(s.ops, s.flushed, |s.ops|)
    requires forall m :: next <= m < n ==> m !in d.logs
    requires Midway(s, d, r, mid, next)
    ensures if r'.mem.None? then Midway(s, d, r', mid', n + 1) else isLast && reuseLogs && TakenOver(s, d, r', mid', last)
    ensures r'.nextFile >= r.nextFile && n < r'.nextFile
    ensures r.saveManifest ==> r'.saveManifest
  {
    hide HoldsRange, TablesCover, Run, Flatten, Replay;
    ReplayGap(d.logs, d.logNumber, next, n);
    LogHolds(s.ops, d.logs, d.logNumber, n, last + 1, s.flushed, mid);
    ghost var to := mid + |Flatten(d.logs[n])|;
    r' := RecoverLogFile(d.logs[n], isLast, reuseLogs, r, s.ops, d.manifestNext + 1, s.flushed, mid, to);
    TablesCoverMore(s.ops, r'.added, d.manifestNext + 1, r'.nextFile, n, s.flushed, if r'.mem.Some? then mid else to);
    // MarkFileNumberUsed
    r' := r'.(nextFile := if r'.nextFile <= n then n + 1 else r'.nextFile);
    mid' := if r'.mem.None? then to else mid;
    if r'.mem.Some? {
      WholeRun(s.ops, s.flushed, to);
    }
  }

  lemma WholeRun(ops: seq<Op>, base: nat, to: nat)
    requires base <= to <= |ops|
    ensures Run(ops, base, to) == Run(ops, base, |ops|) ==> to == |ops|
  {
  }

  lemma TablesCoverMore(ops: seq<Op>, added: seq<File>, first: nat, nextFile: nat, n: nat, base: nat, mid: nat)
    requires TablesCover(ops, added, first, nextFile, base, mid)
    ensures TablesCover(ops, added, first, if nextFile <= n then n + 1 else nextFile, base, mid)
  {
  }

  // The log part of Recover.
  method RecoverLogs(d: Disk, reuseLogs: bool, reuseManifest: bool, ghost s: State)
    returns (r: Replayed, ghost mid: nat, last: nat)
    requires LogInv(s) && |s.ops| < MAX_SEQUENCE && CrashImage(s, d)
    ensures Rebuilt(s, d, r, mid, last)
    ensures !reuseManifest ==> r.saveManifest
    ensures r.mem.Some? ==> reuseLogs
  {
    hide HoldsRange, TablesCover, Run, Flatten, Replay, Midway, TakenOver, LogInv, CrashImage, IsListing, Rebuilt;
    var ns := LogsToReplay(d.logs, d.logNumber);
    LastListed(s, d, ns);
    last := ns[|ns| - 1];
    ImageReplays(s, d, last + 1);
    r := Replayed([], d.manifestNext + 1, 0, !reuseManifest, None);
    mid := s.flushed;
    ghost var next := d.logNumber;
    StartMidway(s, d, r);
    for i := 0 to |ns|
      invariant next == if i == 0 then d.logNumber else ns[i - 1] + 1
      invariant i < |ns| ==> r.mem.None?
      invariant if r.mem.None? then Midway(s, d, r, mid, next) else TakenOver(s, d, r, mid, last)
      invariant forall j :: 0 <= j < i ==> ns[j] < r.nextFile
      invariant !reuseManifest ==> r.saveManifest
      invariant r.mem.Some? ==> reuseLogs
    {
      var n := ns[i];
      Unlisted(d, ns, i);
      r, mid := ReplayLog(d, n, i == |ns| - 1, reuseLogs, r, s, mid, next, last);
      next := n + 1;
    }
    RebuiltAtEnd(s, d, r, mid, last);
  }

  lemma LastListed(s: State, d: Disk, ns: seq<nat>)
    requires LogInv(s) && CrashImage(s, d) && IsListing(ns, d.logs, d.logNumber)
    ensures |ns| > 0 && s.log <= ns[|ns| - 1] && ns[|ns| - 1] in d.logs && s.flushed <= |s.ops|
    ensures forall n :: n in d.logs && n >= d.logNumber ==> n <= ns[|ns| - 1]
  {
    assert s.log in d.logs && s.log in ns;
    assert ns[|ns| - 1] in ns;
  }

  lemma Unlisted(d: Disk, ns: seq<nat>, i: nat)
    requires IsListing(ns, d.logs, d.logNumber) && i < |ns|
    ensures ns[i] in d.logs && d.logNumber <= ns[i] <= ns[|ns| - 1]
    ensures i > 0 ==> d.logNumber <= ns[i - 1] < ns[i]
    ensures forall m :: (if i == 0 then d.logNumber else ns[i - 1] + 1) <= m < ns[i] ==> m !in d.logs
  {
    assert ns[i] in ns && (i > 0 ==> ns[i - 1] in ns);
    forall m | m in ns ensures m >= ns[i] || (i > 0 && m <= ns[i - 1]) {
      var j :| 0 <= j < |ns| && ns[j] == m;
    }
  }

  lemma StartMidway(s: State, d: Disk, r: Replayed)
    requires s.flushed <= |s.ops| && r == Replayed([], d.manifestNext + 1, 0, r.saveManifest, None)
    ensures Midway(s, d, r, s.flushed, d.logNumber)
  {
  }

  lemma RebuiltAtEnd(s: State, d: Disk, r: Replayed, mid: nat, last: nat)
    requires LogInv(s) && CrashImage(s, d) && s.log <= last && last in d.logs && last < r.nextFile
    requires forall n :: n in d.logs && n >= d.logNumber ==> n <= last
    requires if r.mem.None? then Midway(s, d, r, mid, last + 1) else TakenOver(s, d, r, mid, last)
    ensures Rebuilt(s, d, r, mid, last)
  {
    hide HoldsRange, TablesCover;
    ImageReplays(s, d, last + 1);
    WholeRun(s.ops, s.flushed, mid);
  }
}
