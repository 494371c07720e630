/**
  VersionSet::Builder (db/version_set.cc): accumulating edits, merging them with the base
  version, and replaying a whole MANIFEST through one builder (VersionSet::Recover).
 */
module ManifestBuilder {
  import opened Keys
  import opened Versions
  import opened VersionEdits

  ghost predicate Arranged(v: Version) {
    |v| == NUM_LEVELS && forall i :: 0 <= i < NUM_LEVELS ==> BySmallest(v[i])
  }

  // Position of the first file from `from` on that comes after f (std::upper_bound).
  method UpperBound(files: seq<File>, from: nat, f: File) returns (pos: nat)
    requires BySmallest(files) && from <= |files|
    ensures from <= pos <= |files|
    ensures forall i :: from <= i < pos ==> !FileBefore(f, files[i])
    ensures forall i :: pos <= i < |files| ==> FileBefore(f, files[i])
  {
    var left, right := from, |files|;
    while left < right
      invariant from <= left <= right <= |files|
      invariant forall i :: from <= i < left ==> !FileBefore(f, files[i])
      invariant forall i :: right <= i < |files| ==> FileBefore(f, files[i])
    {
      var mid := (left + right) / 2;
      if FileBefore(f, files[mid]) {
        right := mid;
      } else {
        left := mid + 1;
      }
    }
    pos := left;
  }

  // std::set<FileMetaData*, BySmallestKey>::insert
  function InsertFile(files: seq<File>, f: File): (r: seq<File>)
    ensures forall g :: g in r ==> g == f || g in files
    ensures forall g :: g in files ==> g in r
    ensures BySmallest(files) ==> BySmallest(r)
    ensures (forall g :: g in files ==> g.number != f.number) ==> f in r
  {
    if files == [] then [f]
    else if FileBefore(f, files[0]) then [f] + files
    else if !FileBefore(files[0], f) then files  // an equivalent file is already there
    else
      var rest := InsertFile(files[1..], f);
      assert BySmallest(files) ==> forall g :: g in rest ==> FileBefore(files[0], g);
      [files[0]] + rest
  }

  // The files of one level that a builder with this state would save.
  ghost predicate Saved(base: seq<File>, deleted: set<nat>, added: seq<File>, f: File) {
    (f in base || f in added) && f.number !in deleted
  }

  // SaveTo, one level: merge the base files with the added ones, dropping the deleted.
  method SaveLevel(base: seq<File>, deleted: set<nat>, added: seq<File>) returns (files: seq<File>)
    requires BySmallest(base) && BySmallest(added)
    requires forall f, g :: f in base && g in added ==> f.number != g.number
    ensures BySmallest(files)
    ensures forall f :: f in files <==> Saved(base, deleted, added, f)
  {
    files := [];
    var b := 0;
    for a := 0 to |added|
      invariant Merged(base, deleted, added, b, a, files)
    {
      var pos := UpperBound(base, b, added[a]);
      while b < pos
        invariant b <= pos && Merged(base, deleted, added, b, a, files)
      {
        TakeBase(base, deleted, added, b, a, files);
        files := MaybeAddFile(files, deleted, base[b]);
        b := b + 1;
      }
      TakeAdded(base, deleted, added, b, a, files);
      files := MaybeAddFile(files, deleted, added[a]);
    }
    while b < |base|
      invariant Merged(base, deleted, added, b, |added|, files)
    {
      TakeBase(base, deleted, added, b, |added|, files);
      files := MaybeAddFile(files, deleted, base[b]);
      b := b + 1;
    }
    assert base[..|base|] == base && added[..|added|] == added;
  }

  // base[..b] and added[..a] are merged; what is left comes after everything merged.
  ghost predicate Merged(base: seq<File>, deleted: set<nat>, added: seq<File>, b: nat, a: nat, files: seq<File>) {
    && b <= |base| && a <= |added|
    && BySmallest(files)
    && (forall f :: f in files <==> Saved(base[..b], deleted, added[..a], f))
    && (forall f, i :: f in files && b <= i < |base| ==> FileBefore(f, base[i]))
    && (forall f, i :: f in files && a <= i < |added| ==> FileBefore(f, added[i]))
  }

  lemma TakeBase(base: seq<File>, deleted: set<nat>, added: seq<File>, b: nat, a: nat, files: seq<File>)
    requires BySmallest(base) && BySmallest(added)
    requires forall f, g :: f in base && g in added ==> f.number != g.number
    requires b < |base| && Merged(base, deleted, added, b, a, files)
    requires a < |added| ==> !FileBefore(added[a], base[b])
    ensures forall g :: g in files ==> FileBefore(g, base[b])
    ensures Merged(base, deleted, added, b + 1, a, MaybeAddFile(files, deleted, base[b]))
  {
    assert base[..b + 1] == base[..b] + [base[b]];
    assert base[b] in base && (a < |added| ==> added[a] in added);
  }

  lemma TakeAdded(base: seq<File>, deleted: set<nat>, added: seq<File>, b: nat, a: nat, files: seq<File>)
    requires BySmallest(base) && BySmallest(added)
    requires a < |added| && Merged(base, deleted, added, b, a, files)
    requires forall i :: b <= i < |base| ==> FileBefore(added[a], base[i])
    ensures forall g :: g in files ==> FileBefore(g, added[a])
    ensures Merged(base, deleted, added, b, a + 1, MaybeAddFile(files, deleted, added[a]))
  {
    assert added[..a + 1] == added[..a] + [added[a]];
  }

  function MaybeAddFile(files: seq<File>, deleted: set<nat>, f: File): (r: seq<File>)
    requires BySmallest(files) && forall g :: g in files ==> FileBefore(g, f)
    ensures BySmallest(r)
    ensures forall g :: g in r <==> g in files || (g == f && f.number !in deleted)
  {
    assert forall i :: 0 <= i < |files| ==> files[i] in files;
    if f.number in deleted then files else files + [f]
  }

  // A sorted list is determined by its members.
  lemma {:induction false} SameMembersSameList(a: seq<File>, b: seq<File>)
    requires BySmallest(a) && BySmallest(b)
    requires forall f :: f in a <==> f in b
    ensures a == b
  {
    assert a != [] ==> a[0] in a;
    assert b != [] ==> b[0] in b;
    if a != [] && b != [] {
      assert a[0] in b && b[0] in a;
      assert a[0] == b[0];
      forall f ensures f in a[1..] <==> f in b[1..] {
        assert f in a[1..] <==> f in a && f != a[0];
        assert f in b[1..] <==> f in b && f != b[0];
      }
      SameMembersSameList(a[1..], b[1..]);
    }
  }

  // ---- What a sequence of edits amounts to ----

  // Numbers deleted from a level and not added there again since.
  ghost function DeletedAt(edits: seq<Edit>, level: nat): set<nat> {
    if edits == [] then {}
    else
      var e := edits[|edits| - 1];
      DeletedAt(edits[..|edits| - 1], level) + (set p | p in e.deleted && p.0 == level :: p.1)
      - (set p | p in e.added && p.0 == level :: p.1.number)
  }

  ghost predicate AddedAt(edits: seq<Edit>, level: nat, f: File) {
    exists i :: 0 <= i < |edits| && (level, f) in edits[i].added
  }

  // Each (level, number) is added at most once, and not at all if the base has it.
  ghost predicate OnceEach(base: Version, edits: seq<Edit>) {
    && |base| == NUM_LEVELS
    && (forall i, p :: 0 <= i < |edits| && p in edits[i].added ==> p.0 < NUM_LEVELS)
    && (forall i, j, p, q ::
          (0 <= i < |edits| && 0 <= j < |edits| && p in edits[i].added && q in edits[j].added && p.0 == q.0 &&
           p.1.number == q.1.number) ==> i == j && p == q)
    && (forall i, j, m :: 0 <= i < |edits| && 0 <= j < m < |edits[i].added| ==> edits[i].added[j] != edits[i].added[m])
    && (forall i, p, f :: 0 <= i < |edits| && p in edits[i].added && p.0 < |base| && f in base[p.0] ==> f.number != p.1.number)
  }

  // The same for one edit.
  ghost predicate Once(base: Version, e: Edit) {
    && |base| == NUM_LEVELS
    && (forall p :: p in e.added ==> p.0 < NUM_LEVELS)
    && (forall p, q :: p in e.added && q in e.added && p.0 == q.0 && p.1.number == q.1.number ==> p == q)
    && (forall j, m :: 0 <= j < m < |e.added| ==> e.added[j] != e.added[m])
    && (forall p, f :: p in e.added && p.0 < |base| && f in base[p.0] ==> f.number != p.1.number)
  }

  lemma OneEdit(base: Version, e: Edit)
    requires Once(base, e)
    ensures OnceEach(base, [e])
  {
    var edits := [e];
    assert forall i :: 0 <= i < |edits| ==> edits[i] == e;
  }

  lemma OnceEachPrefix(base: Version, edits: seq<Edit>, n: nat)
    requires OnceEach(base, edits) && n <= |edits|
    ensures OnceEach(base, edits[..n])
  {
  }

  ghost predicate SavedLevel(base: Version, edits: seq<Edit>, level: nat, files: seq<File>)
    requires level < |base|
  {
    && BySmallest(files)
    && forall f :: f in files <==> (f in base[level] || AddedAt(edits, level, f)) && f.number !in DeletedAt(edits, level)
  }

  // Applying the edits one after the other, each to the live version.
  ghost predicate Stepwise(versions: seq<Version>, edits: seq<Edit>) {
    && |versions| == |edits| + 1
    && forall i :: 0 <= i < |edits| ==> Applied(versions[i], edits[i], versions[i + 1])
  }

  // Stepwise application leaves in each level what one pass over all edits says.
  lemma {:induction false} StepwiseLevels(versions: seq<Version>, edits: seq<Edit>, level: nat)
    requires Stepwise(versions, edits) && OnceEach(versions[0], edits) && level < NUM_LEVELS
    requires BySmallest(versions[0][level])
    ensures |versions[|edits|]| == NUM_LEVELS
    ensures SavedLevel(versions[0], edits, level, versions[|edits|][level])
  {
    if edits != [] {
      var n := |edits| - 1;
      var before, last := edits[..n], edits[n];
      OnceEachPrefix(versions[0], edits, n);
      StepwiseLevels(versions[..n + 1], before, level);
      var v, v' := versions[n], versions[n + 1];
      assert versions[..n + 1][n] == v;
      forall f ensures f in v'[level] <==>
          (f in versions[0][level] || AddedAt(edits, level, f)) && f.number !in DeletedAt(edits, level)
      {
        LastEdit(versions[0], edits, level, f);
        assert f in v'[level] <==> Remains(v, last, level, f) || (level, f) in last.added;
      }
    }
  }

  // How the last edit changes the account of one file.
  lemma LastEdit(base: Version, edits: seq<Edit>, level: nat, f: File)
    requires edits != [] && OnceEach(base, edits) && level < NUM_LEVELS
    ensures
      var n := |edits| - 1;
      (f in base[level] || AddedAt(edits, level, f)) && f.number !in DeletedAt(edits, level) <==>
        (level, f) in edits[n].added ||
        ((f in base[level] || AddedAt(edits[..n], level, f)) && f.number !in DeletedAt(edits[..n], level) &&
          (level, f.number) !in edits[n].deleted)
  {
    hide DeletedAt, AddedAt, OnceEach;
    var n := |edits| - 1;
    var last := edits[n];
    assert edits == edits[..n] + [last];
    LastAccount(edits[..n], last, level);
    if (level, f) !in last.added && exists p :: p in last.added && p.0 == level && p.1.number == f.number {
      var p :| p in last.added && p.0 == level && p.1.number == f.number;
      NotAddedBefore(base, edits, p, level, f);
    }
  }

  lemma NotAddedBefore(base: Version, edits: seq<Edit>, p: (nat, File), level: nat, f: File)
    requires edits != [] && OnceEach(base, edits) && level < NUM_LEVELS
    requires p in edits[|edits| - 1].added && p.0 == level && p.1.number == f.number && p.1 != f
    ensures f !in base[level] && !AddedAt(edits[..|edits| - 1], level, f)
  {
    var n := |edits| - 1;
    assert forall i :: 0 <= i < n ==> edits[..n][i] == edits[i];
    assert forall i :: 0 <= i < n && (level, f) in edits[i].added ==> i == n;
  }

  // What the builder has gathered, level by level, is what the edits say.
  ghost predicate AccountsFor(base: Version, deleted: seq<set<nat>>, added: seq<seq<File>>, all: seq<Edit>) {
    && |base| == |deleted| == |added| == NUM_LEVELS
    && forall level :: 0 <= level < NUM_LEVELS ==>
         BySmallest(base[level]) && BySmallest(added[level]) &&
         deleted[level] == DeletedAt(all, level) &&
         forall f :: f in added[level] <==> AddedAt(all, level, f)
  }

  class Builder {
    const base: Version
    var deleted: seq<set<nat>>
    var added: seq<seq<File>>
    ghost var edits: seq<Edit>

    ghost predicate Accounts(all: seq<Edit>)
      reads this
    {
      AccountsFor(base, deleted, added, all)
    }

    ghost predicate Valid()
      reads this
    {
      Accounts(edits)
    }

    constructor (base: Version)
      requires Arranged(base)
      ensures Valid() && this.base == base && edits == []
    {
      this.base := base;
      deleted := seq(NUM_LEVELS, _ => {});
      added := seq(NUM_LEVELS, _ => []);
      edits := [];
    }

    method Apply(edit: Edit)
      requires Valid() && OnceEach(base, edits + [edit])
      modifies this
      ensures Valid() && edits == old(edits) + [edit]
    {
      hide AccountsFor, OnceEach;
      DeletionsAccounted(base, deleted, added, edits, edit);
      deleted := WithDeletions(deleted, edit);
      for i := 0 to |edit.added|
        invariant edits == old(edits) && Accounts(edits + [Partly(edit, i)])
      {
        var level, f := edit.added[i].0, edit.added[i].1;
        AdditionAccounted(base, deleted, added, edits, edit, i);
        deleted := deleted[level := deleted[level] - {f.number}];
        added := added[level := InsertFile(added[level], f)];
      }
      assert Partly(edit, |edit.added|) == edit;
      edits := edits + [edit];
    }

    // SaveTo
    method SaveTo() returns (v: Version)
      requires Valid() && OnceEach(base, edits)
      ensures |v| == NUM_LEVELS
      ensures forall level :: 0 <= level < NUM_LEVELS ==> SavedLevel(base, edits, level, v[level])
    {
      v := [];
      for level := 0 to NUM_LEVELS
        invariant |v| == level
        invariant forall l :: 0 <= l < level ==> SavedLevel(base, edits, l, v[l])
      {
        forall f, g | f in base[level] && g in added[level] ensures f.number != g.number {
          var i :| 0 <= i < |edits| && (level, g) in edits[i].added;
        }
        var files := SaveLevel(base[level], deleted[level], added[level]);
        assert SavedLevel(base, edits, level, files);
        v := v + [files];
      }
    }
  }

  // The edit with its first i additions only.
  ghost function Partly(edit: Edit, i: nat): Edit
    requires i <= |edit.added|
  {
    Edit(edit.deleted, edit.added[..i])
  }

  lemma LastAccount(edits: seq<Edit>, e: Edit, level: nat)
    ensures DeletedAt(edits + [e], level) ==
              DeletedAt(edits, level) + (set p | p in e.deleted && p.0 == level :: p.1) - (set p | p in e.added && p.0 == level :: p.1.number)
    ensures forall f :: AddedAt(edits + [e], level, f) <==> AddedAt(edits, level, f) || (level, f) in e.added
  {
    var all := edits + [e];
    assert all[..|edits|] == edits && all[|edits|] == e;
    forall f ensures AddedAt(all, level, f) <==> AddedAt(edits, level, f) || (level, f) in e.added {
      if AddedAt(edits, level, f) {
        var i :| 0 <= i < |edits| && (level, f) in edits[i].added;
        assert all[i] == edits[i];
      }
      if (level, f) in e.added {
        assert (level, f) in all[|edits|].added;
      }
    }
  }

  lemma StartEdit(edits: seq<Edit>, edit: Edit)
    ensures forall l: nat :: DeletedAt(edits + [Partly(edit, 0)], l) == DeletedAt(edits, l) + set p | p in edit.deleted && p.0 == l :: p.1
    ensures forall l: nat, f {:trigger AddedAt(edits, l, f)} :: AddedAt(edits + [Partly(edit, 0)], l, f) <==> AddedAt(edits, l, f)
  {
    forall l: nat
      ensures DeletedAt(edits + [Partly(edit, 0)], l) == DeletedAt(edits, l) + set p | p in edit.deleted && p.0 == l :: p.1
    {
      LastAccount(edits, Partly(edit, 0), l);
    }
    forall l: nat, f ensures AddedAt(edits + [Partly(edit, 0)], l, f) <==> AddedAt(edits, l, f) {
      LastAccount(edits, Partly(edit, 0), l);
    }
  }

  function WithDeletions(deleted: seq<set<nat>>, edit: Edit): seq<set<nat>> {
    seq(|deleted|, l requires 0 <= l < |deleted| => deleted[l] + set p | p in edit.deleted && p.0 == l :: p.1)
  }

  lemma DeletionsAccounted(base: Version, deleted: seq<set<nat>>, added: seq<seq<File>>, edits: seq<Edit>, edit: Edit)
    requires AccountsFor(base, deleted, added, edits)
    ensures AccountsFor(base, WithDeletions(deleted, edit), added, edits + [Partly(edit, 0)])
  {
    StartEdit(edits, edit);
    hide DeletedAt, AddedAt, Partly, BySmallest;
  }

  lemma AdditionAccounted(base: Version, deleted: seq<set<nat>>, added: seq<seq<File>>, edits: seq<Edit>, edit: Edit, i: nat)
    requires i < |edit.added| && OnceEach(base, edits + [edit])
    requires AccountsFor(base, deleted, added, edits + [Partly(edit, i)])
    ensures edit.added[i].0 < NUM_LEVELS == |deleted| == |added|
    ensures var level, f := edit.added[i].0, edit.added[i].1;
      AccountsFor(base, deleted[level := deleted[level] - {f.number}], added[level := InsertFile(added[level], f)],
                  edits + [Partly(edit, i + 1)])
  {
    var level, f := edit.added[i].0, edit.added[i].1;
    assert (edits + [edit])[|edits|] == edit;
    NewNumber(base, edits, edit, i, added[level]);
    AddStep(edits, edit, i);
    hide DeletedAt, AddedAt, Partly, BySmallest, OnceEach;
  }

  lemma AddStepAt(edits: seq<Edit>, edit: Edit, i: nat, l: nat)
    requires i < |edit.added|
    ensures DeletedAt(edits + [Partly(edit, i + 1)], l) ==
              DeletedAt(edits + [Partly(edit, i)], l) - (if l == edit.added[i].0 then {edit.added[i].1.number} else {})
    ensures forall f :: AddedAt(edits + [Partly(edit, i + 1)], l, f) <==>
              AddedAt(edits + [Partly(edit, i)], l, f) || (l, f) == edit.added[i]
  {
    var e, e' := Partly(edit, i), Partly(edit, i + 1);
    assert e'.added == e.added + [edit.added[i]];
    LastAccount(edits, e, l);
    LastAccount(edits, e', l);
    AddedNumbers(e.added, edit.added[i], l);
    hide DeletedAt, AddedAt;
  }

  lemma AddedNumbers(added: seq<(nat, File)>, p: (nat, File), l: nat)
    ensures (set q | q in added + [p] && q.0 == l :: q.1.number) ==
            (set q | q in added && q.0 == l :: q.1.number) + (if l == p.0 then {p.1.number} else {})
  {
    var now := set q | q in added + [p] && q.0 == l :: q.1.number;
    if l == p.0 {
      assert p in added + [p];
    }
    forall q | q in added && q.0 == l ensures q.1.number in now {
      assert q in added + [p];
    }
  }

  lemma AddStep(edits: seq<Edit>, edit: Edit, i: nat)
    requires i < |edit.added|
    ensures forall l: nat :: DeletedAt(edits + [Partly(edit, i + 1)], l) ==
              DeletedAt(edits + [Partly(edit, i)], l) - (if l == edit.added[i].0 then {edit.added[i].1.number} else {})
    ensures forall l: nat, f {:trigger AddedAt(edits + [Partly(edit, i)], l, f)} :: AddedAt(edits + [Partly(edit, i + 1)], l, f) <==>
              AddedAt(edits + [Partly(edit, i)], l, f) || (l, f) == edit.added[i]
  {
    forall l: nat
      ensures DeletedAt(edits + [Partly(edit, i + 1)], l) ==
              DeletedAt(edits + [Partly(edit, i)], l) - (if l == edit.added[i].0 then {edit.added[i].1.number} else {})
    {
      AddStepAt(edits, edit, i, l);
    }
    forall l: nat, f ensures AddedAt(edits + [Partly(edit, i + 1)], l, f) <==>
              AddedAt(edits + [Partly(edit, i)], l, f) || (l, f) == edit.added[i]
    {
      AddStepAt(edits, edit, i, l);
    }
  }

  // A file about to be inserted has a number no earlier addition to its level has.
  lemma NewNumber(base: Version, edits: seq<Edit>, edit: Edit, i: nat, files: seq<File>)
    requires OnceEach(base, edits + [edit]) && i < |edit.added|
    requires forall f :: f in files <==> AddedAt(edits + [Partly(edit, i)], edit.added[i].0, f)
    ensures forall f :: f in files ==> f.number != edit.added[i].1.number
  {
    var all, p := edits + [edit], edit.added[i];
    assert all[|edits|] == edit && p in edit.added;
    LastAccount(edits, Partly(edit, i), p.0);
    forall f | f in files ensures f.number != p.1.number {
      if AddedAt(edits, p.0, f) {
        var j :| 0 <= j < |edits| && (p.0, f) in edits[j].added;
        assert (p.0, f) in all[j].added;
      } else {
        var j :| 0 <= j < i && edit.added[j] == (p.0, f);
        assert all[|edits|].added[j] != all[|edits|].added[i];
      }
    }
  }

  // ---- Applying one edit, writing a snapshot record, replaying a MANIFEST ----

  // The part of LogAndApply that computes the next version.
  method ApplyEdit(v: Version, edit: Edit) returns (v': Version)
    requires Arranged(v)
    requires OnceEach(v, [edit])
    ensures Applied(v, edit, v')
  {
    var b := new Builder(v);
    assert [] + [edit] == [edit];
    b.Apply(edit);
    v' := b.SaveTo();
    forall l, f | 0 <= l < NUM_LEVELS ensures f in v'[l] <==> Remains(v, edit, l, f) || (l, f) in edit.added {
      LastEdit(v, [edit], l, f);
      assert [edit][..0] == [] && DeletedAt([], l) == {};
    }
  }

  function EmptyVersion(): Version {
    seq(NUM_LEVELS, _ => [])
  }

  // WriteSnapshot: one record that adds every file of the current version.
  method WriteSnapshot(v: Version) returns (edit: Edit)
    requires Arranged(v)
    ensures edit.deleted == {}
    ensures forall p :: p in edit.added <==> p.0 < NUM_LEVELS && p.1 in v[p.0]
    ensures Applied(EmptyVersion(), edit, v)
  {
    var added: seq<(nat, File)> := [];
    for level := 0 to NUM_LEVELS
      invariant forall p :: p in added <==> p.0 < level && p.1 in v[p.0]
    {
      for i := 0 to |v[level]|
        invariant forall p :: p in added <==> (p.0 < level && p.1 in v[p.0]) || (p.0 == level && p.1 in v[level][..i])
      {
        added := added + [(level, v[level][i])];
      }
      assert v[level][..|v[level]|] == v[level];
    }
    edit := Edit({}, added);
  }

  // VersionSet::Recover: one builder over an empty version takes every record.
  method ReplayManifest(records: seq<Edit>) returns (v: Version)
    requires OnceEach(EmptyVersion(), records)
    ensures forall versions :: Stepwise(versions, records) && versions[0] == EmptyVersion() ==> v == versions[|records|]
  {
    var b := new Builder(EmptyVersion());
    for i := 0 to |records|
      invariant b.Valid() && b.base == EmptyVersion() && b.edits == records[..i]
    {
      assert records[..i + 1] == records[..i] + [records[i]];
      OnceEachPrefix(EmptyVersion(), records, i + 1);
      b.Apply(records[i]);
    }
    assert records[..|records|] == records;
    v := b.SaveTo();
    forall versions | Stepwise(versions, records) && versions[0] == EmptyVersion() ensures v == versions[|records|] {
      ReplayedIsLive(versions, records, v);
    }
  }

  lemma ReplayedIsLive(versions: seq<Version>, records: seq<Edit>, v: Version)
    requires OnceEach(EmptyVersion(), records) && Stepwise(versions, records) && versions[0] == EmptyVersion()
    requires |v| == NUM_LEVELS && forall level :: 0 <= level < NUM_LEVELS ==> SavedLevel(EmptyVersion(), records, level, v[level])
    ensures v == versions[|records|]
  {
    var live := versions[|records|];
    StepwiseLevels(versions, records, 0);
    forall level | 0 <= level < NUM_LEVELS ensures v[level] == live[level] {
      StepwiseLevels(versions, records, level);
      SameMembersSameList(v[level], live[level]);
    }
  }
}
