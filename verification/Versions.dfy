/**
  Versions: the files of the seven levels, the order they are kept in, and point lookups
  (Version::Get and FindFile in db/version_set.cc, MemTable::Get in db/memtable.cc).
 */
module Versions {
  import opened Wrappers
  import opened Keys
  import opened VersionedMap

  const NUM_LEVELS: nat := 7

  // FileMetaData together with the entries of the table it describes.
  datatype File = File(number: nat, size: nat, smallest: InternalKey, largest: InternalKey, entries: seq<Entry>)

  type Version = seq<seq<File>>

  ghost predicate WfFile(f: File) {
    && |f.entries| > 0
    && Sorted(f.entries)
    && f.smallest == f.entries[0].key
    && f.largest == f.entries[|f.entries| - 1].key
    && forall e :: e in f.entries ==> e.key.sn < MAX_SEQUENCE
  }

  lemma EntryInRange(f: File, e: Entry)
    requires WfFile(f) && e in f.entries
    ensures AtMost(f.smallest, e.key) && AtMost(e.key, f.largest)
    ensures f.smallest.user <= e.key.user <= f.largest.user
  {
    var i :| 0 <= i < |f.entries| && f.entries[i] == e;
    assert i == 0 || Less(f.entries[0].key, e.key);
    assert i == |f.entries| - 1 || Less(e.key, f.entries[|f.entries| - 1].key);
  }

  // For every user key, the entries of A are newer than those of B.
  ghost predicate Newer(A: seq<Entry>, B: seq<Entry>) {
    forall a, b :: a in A && b in B && a.key.user == b.key.user ==> a.key.sn > b.key.sn
  }

  ghost predicate SortedDisjoint(files: seq<File>) {
    forall i, j :: 0 <= i < j < |files| ==> Less(files[i].largest, files[j].smallest)
  }

  ghost predicate DistinctNumbers(files: seq<File>) {
    forall i, j :: 0 <= i < j < |files| ==> files[i].number != files[j].number
  }

  // f (at level i) is searched before g (at level j).
  predicate Shallower(i: nat, f: File, j: nat, g: File) {
    i < j || (i == 0 && j == 0 && f.number > g.number)
  }

  ghost predicate Wf(v: Version) {
    && |v| == NUM_LEVELS
    && (forall i, f :: 0 <= i < |v| && f in v[i] ==> WfFile(f))
    && DistinctNumbers(v[0])
    && (forall i :: 1 <= i < |v| ==> SortedDisjoint(v[i]))
  }

  // What Version::Get relies on ("entries never hop across levels").
  ghost predicate LsmOrder(v: Version) {
    forall i, j, f, g :: 0 <= i < |v| && 0 <= j < |v| && f in v[i] && g in v[j] && Shallower(i, f, j, g) ==>
      Newer(f.entries, g.entries)
  }

  ghost predicate InLevel(files: seq<File>, e: Entry) {
    exists f :: f in files && e in f.entries
  }

  ghost predicate InTables(v: Version, e: Entry) {
    exists i :: 0 <= i < |v| && InLevel(v[i], e)
  }

  ghost function TableEntries(v: Version): iset<Entry> {
    iset e | InTables(v, e)
  }

  ghost function Contents(es: seq<Entry>): iset<Entry> {
    iset e | e in es
  }

  // ---- Looking in one sorted run: a memtable, or a table file ----

  // Index of the first entry at or after target.
  function SeekIndex(es: seq<Entry>, target: InternalKey): (i: nat)
    ensures i <= |es|
    ensures forall j :: 0 <= j < i ==> Less(es[j].key, target)
    ensures i < |es| ==> !Less(es[i].key, target)
  {
    if es == [] || !Less(es[0].key, target) then 0 else 1 + SeekIndex(es[1..], target)
  }

  lemma SeekIndexIs(es: seq<Entry>, target: InternalKey, n: nat)
    requires n <= |es| && forall j :: 0 <= j < n ==> Less(es[j].key, target)
    requires n < |es| ==> !Less(es[n].key, target)
    ensures SeekIndex(es, target) == n
  {
  }

  // MemTable::Get, and SaveValue applied to what a table lookup yields.
  function Probe(es: seq<Entry>, k: UserKey, s: nat): Outcome {
    var i := SeekIndex(es, SeekKey(k, s));
    if i < |es| && es[i].key.user == k then
      if es[i].key.kind.Value? then Found(es[i].value) else Deleted
    else Missing
  }

  // Probing a sorted run finds its newest visible entry, if it has one.
  lemma ProbeResolves(es: seq<Entry>, k: UserKey, s: nat)
    requires Sorted(es)
    ensures Resolves(Contents(es), k, s, Probe(es, k, s))
  {
    var i := SeekIndex(es, SeekKey(k, s));
    forall x | x in es && Visible(x, k, s)
      ensures i < |es| && es[i].key.user == k && x.key.sn <= es[i].key.sn <= s
    {
      var j :| 0 <= j < |es| && es[j] == x;
      assert i <= j;
      assert i < j ==> Less(es[i].key, es[j].key);
    }
    if i < |es| && es[i].key.user == k {
      assert es[i] in Contents(es);
      assert IsNewest(Contents(es), k, s, es[i]);
    }
  }

  // ---- FindFile ----

  // The earliest index whose file has its largest key at or after `key`.
  method FindFile(files: seq<File>, key: InternalKey) returns (index: nat)
    requires SortedDisjoint(files)
    requires forall f :: f in files ==> WfFile(f)
    ensures index <= |files|
    ensures forall i :: 0 <= i < index ==> Less(files[i].largest, key)
    ensures forall i :: index <= i < |files| ==> !Less(files[i].largest, key)
  {
    var left, right := 0, |files|;
    while left < right
      invariant 0 <= left <= right <= |files|
      invariant forall i :: 0 <= i < left ==> Less(files[i].largest, key)
      invariant forall i :: right <= i < |files| ==> !Less(files[i].largest, key)
    {
      var mid := (left + right) / 2;
      LargestKeysAscend(files);
      if Less(files[mid].largest, key) {
        left := mid + 1;
      } else {
        right := mid;
      }
    }
    index := right;
  }

  lemma LargestKeysAscend(files: seq<File>)
    requires SortedDisjoint(files)
    requires forall f :: f in files ==> WfFile(f)
    ensures forall i, j :: 0 <= i < j < |files| ==> Less(files[i].largest, files[j].largest)
  {
    forall i, j | 0 <= i < j < |files| ensures Less(files[i].largest, files[j].largest) {
      var f := files[j];
      assert f in files;
      EntryInRange(f, f.entries[0]);
    }
  }

  // ---- Version::Get ----

  ghost predicate NewestFirst(files: seq<File>) {
    forall i, j :: 0 <= i < j < |files| ==> files[i].number >= files[j].number
  }

  // std::sort(..., NewestFirst)
  function InsertNewestFirst(f: File, sorted: seq<File>): (r: seq<File>)
    ensures forall g :: g in r <==> g == f || g in sorted
    ensures |r| == |sorted| + 1
    ensures NewestFirst(sorted) ==> NewestFirst(r)
  {
    if sorted == [] || f.number >= sorted[0].number then [f] + sorted
    else
      var rest := InsertNewestFirst(f, sorted[1..]);
      assert NewestFirst(sorted) ==> forall g :: g in rest ==> g.number <= sorted[0].number;
      [sorted[0]] + rest
  }

  method SortNewestFirst(files: seq<File>) returns (sorted: seq<File>)
    ensures forall f :: f in sorted <==> f in files
    ensures NewestFirst(sorted)
  {
    sorted := [];
    for i := 0 to |files|
      invariant forall f :: f in sorted <==> f in files[..i]
      invariant NewestFirst(sorted)
    {
      sorted := InsertNewestFirst(files[i], sorted);
    }
  }

  // `files` is enough to look up k at s in this level: at level 0 every file that holds a visible
  // entry is listed; in a deeper level one file is listed, and no other file has anything newer.
  ghost predicate CoversLevel(level: nat, all: seq<File>, k: UserKey, s: nat, files: seq<File>) {
    && (forall f :: f in files ==> f in all)
    && NewestFirst(files)
    && forall f, e :: f in all && e in f.entries && Visible(e, k, s) ==>
         if level == 0 then f in files
         else |files| == 1 && HasVisible(files[0], k, s) &&
              (f == files[0] || forall x :: x in files[0].entries && Visible(x, k, s) ==> x.key.sn >= e.key.sn)
  }

  ghost predicate HasVisible(f: File, k: UserKey, s: nat) {
    exists x :: x in f.entries && Visible(x, k, s)
  }

  // The files of one level that a lookup of k at s reads, in order.
  method FilesToSearch(v: Version, level: nat, k: UserKey, s: nat) returns (files: seq<File>)
    requires Wf(v) && level < NUM_LEVELS
    ensures CoversLevel(level, v[level], k, s, files)
  {
    files := [];
    if level == 0 {
      var overlapping := [];
      for i := 0 to |v[0]|
        invariant forall f :: f in overlapping <==> f in v[0][..i] && f.smallest.user <= k <= f.largest.user
      {
        var f := v[0][i];
        if f.smallest.user <= k <= f.largest.user {
          overlapping := overlapping + [f];
        }
      }
      assert v[0][..|v[0]|] == v[0];
      files := SortNewestFirst(overlapping);
      forall f, e | f in v[0] && e in f.entries && Visible(e, k, s) ensures f in files {
        EntryInRange(f, e);
      }
    } else {
      var index := FindFile(v[level], SeekKey(k, s));
      if index < |v[level]| && v[level][index].smallest.user <= k {
        files := [v[level][index]];
      }
      forall f, e | f in v[level] && e in f.entries && Visible(e, k, s)
        ensures files == [v[level][index]] && HasVisible(files[0], k, s)
        ensures f == files[0] || forall x :: x in files[0].entries && Visible(x, k, s) ==> x.key.sn >= e.key.sn
      {
        FirstCandidate(v[level], index, k, s, f, e);
      }
    }
  }

  // In a sorted, disjoint level, the first file that reaches the lookup key holds the newest
  // visible entry of that user key, if any file of the level does.
  lemma FirstCandidate(files: seq<File>, index: nat, k: UserKey, s: nat, f: File, e: Entry)
    requires SortedDisjoint(files)
    requires forall f :: f in files ==> WfFile(f)
    requires index <= |files|
    requires forall i :: 0 <= i < index ==> Less(files[i].largest, SeekKey(k, s))
    requires index < |files| ==> !Less(files[index].largest, SeekKey(k, s))
    requires f in files && e in f.entries && Visible(e, k, s)
    ensures index < |files| && files[index].smallest.user <= k
    ensures f == files[index] || forall x :: x in files[index].entries && Visible(x, k, s) ==> x.key.sn >= e.key.sn
    ensures HasVisible(files[index], k, s)
  {
    var i :| 0 <= i < |files| && files[i] == f;
    EntryInRange(f, e);
    assert index <= i;
    var c := files[index];
    assert c in files;
    var last := c.entries[|c.entries| - 1];
    EntryInRange(c, last);
    if index < i {
      assert Less(c.largest, f.smallest);
      assert Visible(last, k, s);
      forall x | x in c.entries && Visible(x, k, s) ensures x.key.sn >= e.key.sn {
        EntryInRange(c, x);
      }
    }
  }

  ghost predicate NothingVisible(files: seq<File>, k: UserKey, s: nat) {
    forall f, e :: f in files && e in f.entries ==> !Visible(e, k, s)
  }

  // Version::Get: level by level, stopping at the first file that knows the key.
  method Get(v: Version, k: UserKey, s: nat) returns (o: Outcome)
    requires Wf(v) && LsmOrder(v)
    ensures Resolves(TableEntries(v), k, s, o)
  {
    o := Missing;
    for level := 0 to NUM_LEVELS
      invariant o.Missing?
      invariant forall i :: 0 <= i < level ==> NothingVisible(v[i], k, s)
    {
      var files := FilesToSearch(v, level, k, s);
      for n := 0 to |files|
        invariant o.Missing?
        invariant NothingVisible(files[..n], k, s)
      {
        var f := files[n];
        assert f in files && f in v[level];
        assert WfFile(f);
        o := Probe(f.entries, k, s);
        ProbeResolves(f.entries, k, s);
        if !o.Missing? {
          forall e | IsNewest(Contents(f.entries), k, s, e) ensures IsNewest(TableEntries(v), k, s, e) {
            FirstHitIsNewest(v, level, files, n, k, s, e);
          }
          return;
        }
        assert forall e :: e in f.entries ==> e in Contents(f.entries);
        assert files[..n + 1] == files[..n] + [f];
      }
      LevelHasNothing(v, level, files, k, s);
    }
  }

  lemma LevelHasNothing(v: Version, level: nat, files: seq<File>, k: UserKey, s: nat)
    requires level < |v| && CoversLevel(level, v[level], k, s, files)
    requires NothingVisible(files[..|files|], k, s)
    ensures NothingVisible(v[level], k, s)
  {
    assert files[..|files|] == files;
    assert files != [] ==> files[0] in files;
    assert forall f :: f in files ==> !HasVisible(f, k, s);
  }

  // Everything shallower, and every file searched before, has nothing visible: then the
  // newest visible entry of this file is the newest visible entry of the whole version.
  lemma FirstHitIsNewest(v: Version, level: nat, files: seq<File>, n: nat, k: UserKey, s: nat, e: Entry)
    requires Wf(v) && LsmOrder(v) && level < NUM_LEVELS && n < |files|
    requires forall i :: 0 <= i < level ==> NothingVisible(v[i], k, s)
    requires CoversLevel(level, v[level], k, s, files) && NothingVisible(files[..n], k, s)
    requires IsNewest(Contents(files[n].entries), k, s, e)
    ensures IsNewest(TableEntries(v), k, s, e)
  {
    assert files[n] in files && files[n] in v[level];
    assert InLevel(v[level], e);
    forall x | x in TableEntries(v) && Visible(x, k, s) ensures x.key.sn <= e.key.sn {
      var i :| 0 <= i < |v| && InLevel(v[i], x);
      var g :| g in v[i] && x in g.entries;
      OlderElsewhere(v, level, files, n, k, s, e, i, g, x);
    }
  }

  lemma OlderElsewhere(v: Version, level: nat, files: seq<File>, n: nat, k: UserKey, s: nat, e: Entry,
                       i: nat, g: File, x: Entry)
    requires Wf(v) && LsmOrder(v) && level < NUM_LEVELS && n < |files|
    requires forall i :: 0 <= i < level ==> NothingVisible(v[i], k, s)
    requires CoversLevel(level, v[level], k, s, files) && NothingVisible(files[..n], k, s)
    requires IsNewest(Contents(files[n].entries), k, s, e)
    requires i < |v| && g in v[i] && x in g.entries && Visible(x, k, s)
    ensures x.key.sn <= e.key.sn
  {
    var f := files[n];
    assert f in files && f in v[level];
    assert i >= level;
    if i > level {
      assert Shallower(level, f, i, g);
    } else if g == f {
      assert x in Contents(f.entries);
    } else if level == 0 {
      assert forall m :: 0 <= m < n ==> files[m] in files[..n];
      var m :| 0 <= m < |files| && files[m] == g;
      assert Shallower(0, f, 0, g);
    }
  }
}
