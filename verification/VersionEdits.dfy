/**
  Version edits and what applying one does to the levels (VersionEdit in db/version_edit.h,
  VersionSet::Builder in db/version_set.cc).  How the Builder computes the result is in module
  ManifestBuilder.
 */
module VersionEdits {
  import opened Keys
  import opened VersionedMap
  import opened Versions

  // Deleted (level, number) pairs and added (level, file) pairs.
  datatype Edit = Edit(deleted: set<(nat, nat)>, added: seq<(nat, File)>)

  // BySmallestKey
  predicate FileBefore(a: File, b: File) {
    Less(a.smallest, b.smallest) || (a.smallest == b.smallest && a.number < b.number)
  }

  ghost predicate BySmallest(files: seq<File>) {
    forall i, j :: 0 <= i < j < |files| ==> FileBefore(files[i], files[j])
  }

  ghost predicate Remains(v: Version, e: Edit, level: nat, f: File)
    requires level < |v|
  {
    f in v[level] && (level, f.number) !in e.deleted
  }

  ghost predicate Applied(v: Version, e: Edit, v': Version) {
    && |v| == |v'| == NUM_LEVELS
    && forall i :: 0 <= i < NUM_LEVELS ==>
         BySmallest(v'[i]) && forall f :: f in v'[i] <==> Remains(v, e, i, f) || (i, f) in e.added
  }

  // A file number names one file, in one level.
  ghost predicate UniqueNumbers(v: Version) {
    forall i, j, f, g :: 0 <= i < |v| && 0 <= j < |v| && f in v[i] && g in v[j] && f.number == g.number ==> i == j && f == g
  }

  ghost predicate VersionOk(v: Version) {
    && Wf(v) && LsmOrder(v) && UniqueNumbers(v)
    && forall i :: 0 <= i < |v| ==> BySmallest(v[i])
  }

  predicate Apart(f: File, g: File) {
    Less(f.largest, g.smallest) || Less(g.largest, f.smallest)
  }

  ghost predicate PairwiseApart(files: seq<File>) {
    forall f, g :: f in files && g in files && f != g ==> Apart(f, g)
  }

  lemma SortedAndApart(files: seq<File>)
    requires BySmallest(files) && PairwiseApart(files)
    requires forall f :: f in files ==> WfFile(f)
    ensures SortedDisjoint(files)
  {
    forall i, j | 0 <= i < j < |files| ensures Less(files[i].largest, files[j].smallest) {
      var f, g := files[i], files[j];
      assert f in files && g in files && FileBefore(f, g) && f != g;
      EntryInRange(f, f.entries[0]);
      EntryInRange(g, g.entries[0]);
    }
  }

  lemma DisjointIsApart(files: seq<File>)
    requires SortedDisjoint(files)
    ensures PairwiseApart(files)
  {
  }

  ghost predicate AddsAt(e: Edit, T: nat) {
    T < NUM_LEVELS && forall p :: p in e.added ==> p.0 == T
  }

  // An edit that deletes some files and adds others at level T keeps a version well formed
  // and in LSM order when the added files fit among what remains.
  ghost predicate Fits(v: Version, e: Edit, T: nat) {
    && |v| == NUM_LEVELS && AddsAt(e, T)
    && (forall p :: p in e.added ==> WfFile(p.1))
    && (forall p, q :: p in e.added && q in e.added && p != q ==>
          && p.1.number != q.1.number
          && (T > 0 ==> Apart(p.1, q.1))
          && (T == 0 && p.1.number > q.1.number ==> Newer(p.1.entries, q.1.entries)))
    && (forall p, i, g :: p in e.added && 0 <= i < |v| && Remains(v, e, i, g) ==>
          && p.1.number != g.number
          && (i < T ==> Newer(g.entries, p.1.entries))
          && (T < i ==> Newer(p.1.entries, g.entries))
          && (i == T && T > 0 ==> Apart(p.1, g))
          && (i == T == 0 ==> p.1.number > g.number && Newer(p.1.entries, g.entries)))
  }

  lemma FileOrigin(v: Version, e: Edit, T: nat, v': Version, i: nat, f: File)
    requires AddsAt(e, T) && Applied(v, e, v') && i < NUM_LEVELS && f in v'[i]
    ensures Remains(v, e, i, f) || (i == T && (T, f) in e.added)
  {
  }

  lemma EditKeepsWf(v: Version, e: Edit, T: nat, v': Version)
    requires VersionOk(v) && Fits(v, e, T) && Applied(v, e, v')
    ensures Wf(v') && UniqueNumbers(v')
  {
    forall i, f | 0 <= i < |v'| && f in v'[i] ensures WfFile(f) {
      FileOrigin(v, e, T, v', i, f);
    }
    EditKeepsNumbers(v, e, T, v');
    forall i | 1 <= i < |v'| ensures SortedDisjoint(v'[i]) {
      EditKeepsLevel(v, e, T, v', i);
    }
    forall i, j | 0 <= i < j < |v'[0]| ensures v'[0][i].number != v'[0][j].number {
      assert FileBefore(v'[0][i], v'[0][j]);
    }
  }

  lemma EditKeepsNumbers(v: Version, e: Edit, T: nat, v': Version)
    requires VersionOk(v) && Fits(v, e, T) && Applied(v, e, v')
    ensures UniqueNumbers(v')
  {
    hide LsmOrder, Wf;
    forall i, j, f, g | 0 <= i < |v'| && 0 <= j < |v'| && f in v'[i] && g in v'[j] && f.number == g.number
      ensures i == j && f == g
    {
      FileOrigin(v, e, T, v', i, f);
      FileOrigin(v, e, T, v', j, g);
    }
  }

  lemma EditKeepsLevel(v: Version, e: Edit, T: nat, v': Version, i: nat)
    requires VersionOk(v) && Fits(v, e, T) && Applied(v, e, v') && 1 <= i < |v'|
    ensures SortedDisjoint(v'[i])
  {
    hide LsmOrder, UniqueNumbers;
    forall f, g | f in v'[i] && g in v'[i] && f != g ensures Apart(f, g) {
      FileOrigin(v, e, T, v', i, f);
      FileOrigin(v, e, T, v', i, g);
      DisjointIsApart(v[i]);
    }
    SortedAndApart(v'[i]);
  }

  lemma EditKeepsOrder(v: Version, e: Edit, T: nat, v': Version)
    requires VersionOk(v) && Fits(v, e, T) && Applied(v, e, v')
    ensures LsmOrder(v')
  {
    forall i, j, f, g | 0 <= i < |v'| && 0 <= j < |v'| && f in v'[i] && g in v'[j] && Shallower(i, f, j, g)
      ensures Newer(f.entries, g.entries)
    {
      FileOrigin(v, e, T, v', i, f);
      FileOrigin(v, e, T, v', j, g);
    }
  }

  lemma EditKeepsVersionOk(v: Version, e: Edit, T: nat, v': Version)
    requires VersionOk(v) && Fits(v, e, T) && Applied(v, e, v')
    ensures VersionOk(v')
  {
    EditKeepsWf(v, e, T, v');
    EditKeepsOrder(v, e, T, v');
  }

  // The files of the edited version are old files and added ones.
  ghost predicate InVersion(v: Version, n: nat) {
    exists i, f :: 0 <= i < |v| && f in v[i] && f.number == n
  }

  lemma EditedNumbers(v: Version, e: Edit, T: nat, v': Version)
    requires AddsAt(e, T) && Applied(v, e, v')
    ensures forall n: nat :: InVersion(v', n) ==> InVersion(v, n) || exists p :: p in e.added && p.1.number == n
  {
    forall n: nat | InVersion(v', n) ensures InVersion(v, n) || exists p :: p in e.added && p.1.number == n {
      var i, f :| 0 <= i < |v'| && f in v'[i] && f.number == n;
      FileOrigin(v, e, T, v', i, f);
    }
  }

  // Where an entry of the edited version comes from.
  lemma EntryOrigin(v: Version, e: Edit, T: nat, v': Version, x: Entry) returns (i: nat, f: File)
    requires AddsAt(e, T) && Applied(v, e, v') && InTables(v', x)
    ensures i < NUM_LEVELS && x in f.entries
    ensures Remains(v, e, i, f) || (i == T && (T, f) in e.added)
  {
    i :| 0 <= i < |v'| && InLevel(v'[i], x);
    f :| f in v'[i] && x in f.entries;
    FileOrigin(v, e, T, v', i, f);
  }

  lemma RemainingEntry(v: Version, e: Edit, v': Version, i: nat, f: File, x: Entry)
    requires Applied(v, e, v') && i < NUM_LEVELS && Remains(v, e, i, f) && x in f.entries
    ensures InTables(v', x)
  {
    assert f in v'[i] && InLevel(v'[i], x);
  }

  lemma AddedEntry(v: Version, e: Edit, v': Version, i: nat, f: File, x: Entry)
    requires Applied(v, e, v') && i < NUM_LEVELS && (i, f) in e.added && x in f.entries
    ensures InTables(v', x)
  {
    assert f in v'[i] && InLevel(v'[i], x);
  }
}
