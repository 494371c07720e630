/**
  Choosing what to compact and where to flush (PickCompaction, CompactRange, SetupOtherInputs,
  PickLevelForMemTableOutput in db/version_set.cc).
 */
module CompactionInputs {
  import opened Wrappers
  import opened Keys
  import opened VersionedMap
  import opened Versions
  import opened Overlap

  const MAX_MEM_COMPACT_LEVEL: nat := 2

  // The chosen files of a level can leave it without leaving older entries of their keys behind.
  ghost predicate ClosedInputs(level: nat, all: seq<File>, chosen: seq<File>) {
    && chosen != []
    && (forall f :: f in chosen ==> f in all)
    && if level == 0 then TouchClosed(all, chosen) else Contiguous(all, chosen) && NoBoundaryLeft(all, chosen)
  }

  // The inputs of a compaction of `level`: closed there, and with every overlapping file below.
  ghost predicate ValidInputs(v: Version, level: nat, in0: seq<File>, in1: seq<File>) {
    && level + 1 < NUM_LEVELS == |v|
    && ClosedInputs(level, v[level], in0)
    && forall h :: h in in1 <==> h in v[level + 1] && MeetsHull(h, in0)
  }

  // Nothing that stays behind in the level is older than what leaves it.
  lemma StayBehindIsNewer(v: Version, level: nat, chosen: seq<File>, f: File, g: File)
    requires Wf(v) && Distinct(TableEntries(v)) && level < NUM_LEVELS
    requires ClosedInputs(level, v[level], chosen)
    requires f in v[level] && f !in chosen && g in chosen
    ensures Newer(f.entries, g.entries)
  {
    hide Wf, ClosedInputs, Distinct;
    forall a, b | a in f.entries && b in g.entries && a.key.user == b.key.user ensures a.key.sn > b.key.sn {
      StayBehindComesFirst(v, level, chosen, f, g, a, b);
      StoredOnce(v, level, f, g, a, b);
    }
  }

  lemma StayBehindComesFirst(v: Version, level: nat, chosen: seq<File>, f: File, g: File, a: Entry, b: Entry)
    requires Wf(v) && level < NUM_LEVELS && ClosedInputs(level, v[level], chosen)
    requires f in v[level] && f !in chosen && g in chosen
    requires a in f.entries && b in g.entries && a.key.user == b.key.user
    ensures Less(a.key, b.key) && |v| == NUM_LEVELS && g in v[level]
  {
    assert WfFile(f) && WfFile(g);
    EntryInRange(f, a);
    EntryInRange(g, b);
    hide WfFile;
    assert Touch(f, g) && level > 0;
    var largest := LargestExists(chosen);
    StaysBefore(v[level], chosen, f, g, largest);
  }

  lemma StoredOnce(v: Version, level: nat, f: File, g: File, a: Entry, b: Entry)
    requires Distinct(TableEntries(v)) && level < |v| && f in v[level] && g in v[level]
    requires a in f.entries && b in g.entries && a.key.user == b.key.user && Less(a.key, b.key)
    ensures a.key.sn > b.key.sn
  {
    assert a in TableEntries(v) && b in TableEntries(v) by {
      assert InLevel(v[level], a) && InLevel(v[level], b);
    }
  }

  lemma LargestExists(files: seq<File>) returns (largest: InternalKey)
    requires files != []
    ensures IsLargest(files, largest)
  {
    if |files| == 1 {
      largest := files[0].largest;
      assert files[0] in files;
    } else {
      var rest := LargestExists(files[1..]);
      largest := if Less(rest, files[0].largest) then files[0].largest else rest;
      var l :| l in files[1..] && l.largest == rest;
      assert l in files && files[0] in files;
      assert forall f :: f in files ==> f == files[0] || f in files[1..];
    }
  }

  // A file that stays behind and shares a user key with a chosen one lies before it.
  lemma StaysBefore(all: seq<File>, chosen: seq<File>, f: File, g: File, largest: InternalKey)
    requires SortedDisjoint(all) && forall h :: h in all ==> WfFile(h)
    requires Contiguous(all, chosen) && NoBoundaryLeft(all, chosen) && IsLargest(chosen, largest)
    requires forall h :: h in chosen ==> h in all
    requires f in all && f !in chosen && g in chosen && Touch(f, g)
    ensures Less(f.largest, g.smallest)
  {
    var l :| l in chosen && l.largest == largest;
    assert WfFile(f) && WfFile(g) && WfFile(l);
    Ordered(all, f, g);
    Ordered(all, f, l);
    hide SortedDisjoint;
    EntryInRange(f, f.entries[0]);
    EntryInRange(g, g.entries[0]);
    hide WfFile;
    assert Less(g.largest, f.smallest) && Less(l.largest, f.smallest) ==> Boundary(f, largest);
  }

  lemma Ordered(all: seq<File>, f: File, g: File)
    requires SortedDisjoint(all) && f in all && g in all && f != g
    ensures Less(f.largest, g.smallest) || Less(g.largest, f.smallest)
  {
  }

  // [lo, hi] is the smallest user-key interval around the files.
  ghost predicate IsHull(files: seq<File>, lo: UserKey, hi: UserKey) {
    && (exists f :: f in files && f.smallest.user == lo)
    && (exists f :: f in files && f.largest.user == hi)
    && (forall f :: f in files ==> lo <= f.smallest.user && f.largest.user <= hi)
  }

  lemma HullMeets(files: seq<File>, lo: UserKey, hi: UserKey)
    requires IsHull(files, lo, hi)
    ensures forall h :: Overlaps(h, Some(lo), Some(hi)) <==> MeetsHull(h, files)
  {
  }

  method GetRange(files: seq<File>) returns (smallest: InternalKey, largest: InternalKey)
    requires files != []
    ensures IsHull(files, smallest.user, largest.user)
  {
    smallest, largest := files[0].smallest, files[0].largest;
    assert files[0] in files[..1];
    for i := 1 to |files|
      invariant exists f :: f in files[..i] && f.smallest == smallest
      invariant exists f :: f in files[..i] && f.largest == largest
      invariant forall f :: f in files[..i] ==> AtMost(smallest, f.smallest) && AtMost(f.largest, largest)
    {
      assert files[..i + 1] == files[..i] + [files[i]];
      assert files[i] in files[..i + 1];
      if Less(files[i].smallest, smallest) {
        smallest := files[i].smallest;
      }
      if Less(largest, files[i].largest) {
        largest := files[i].largest;
      }
    }
    assert files[..|files|] == files;
  }

  function TotalFileSize(files: seq<File>): nat {
    if files == [] then 0 else files[0].size + TotalFileSize(files[1..])
  }

  lemma {:induction false} TotalOfParts(a: seq<File>, b: seq<File>)
    ensures TotalFileSize(a + b) == TotalFileSize(a) + TotalFileSize(b)
    ensures forall f :: TotalFileSize([f]) == f.size
  {
    if a == [] {
      assert a + b == b;
    } else {
      TotalOfParts(a[1..], b);
      assert (a + b)[1..] == a[1..] + b;
    }
  }

  lemma FilesRangesOk(files: seq<File>)
    requires forall f :: f in files ==> WfFile(f)
    ensures RangesOk(files)
  {
    forall f | f in files ensures AtMost(f.smallest, f.largest) {
      EntryInRange(f, f.entries[0]);
    }
  }

  lemma RangeFilterContiguous(all: seq<File>, lo: Option<UserKey>, hi: Option<UserKey>)
    requires RangesOk(all)
    ensures Contiguous(all, OverlappingFiles(all, lo, hi))
  {
  }

  // A level-0 set that is least overlap-closed leaves nothing behind that it touches.
  lemma LeastIsTouchClosed(all: seq<File>, lo: Option<UserKey>, hi: Option<UserKey>, chosen: seq<File>)
    requires IsLeastClosed(all, lo, hi, chosen)
    ensures TouchClosed(all, chosen)
  {
    forall f, g | f in all && g in chosen && Touch(f, g) ensures f in chosen {
      assert g in (set f | f in chosen) && Touch(g, f);
    }
  }

  lemma {:induction false} AllMeetCovered(A: seq<File>, B: seq<File>)
    requires Covered(A) && forall h :: h in B ==> MeetsHull(h, A)
    ensures Covered(A + B)
  {
    forall i | 0 <= i < |B| ensures MeetsHull(B[i], A + B[..i]) {
      assert MeetsHull(B[i], A);
    }
    assert A + B[..0] == A;
    ChainCovered(A, B, 0);
  }

  // What the picked files must satisfy before SetupOtherInputs completes them.
  ghost predicate Picked(v: Version, level: nat, files: seq<File>) {
    && level + 1 < NUM_LEVELS == |v|
    && files != []
    && (forall f :: f in files ==> f in v[level])
    && if level == 0 then TouchClosed(v[0], files) else Contiguous(v[level], files)
  }

  // The files of the level that meet a range: at level 0, the least set that takes in whatever its
  // own files meet.
  ghost predicate AllMeeting(level: nat, files: seq<File>, begin: Option<UserKey>, end: Option<UserKey>, r: seq<File>) {
    exists lo, hi :: OverlapResult(level, files, begin, end, r, lo, hi)
  }

  // What the picked files bring with them: the boundary files of their level, one after the other until
  // there is none, and the files one level down that meet all these.
  ghost predicate Completes(v: Version, level: nat, files: seq<File>, in0: seq<File>, in1: seq<File>)
    requires level + 1 < |v|
  {
    && files <= in0 && BoundariesFrom(v[level], in0, |files|) && NoBoundaryLeft(v[level], in0)
    && exists lo, hi :: IsHull(in0, lo, hi) && in1 == OverlappingFiles(v[level + 1], Some(lo), Some(hi))
  }

  // The same for all files of the level that meet the range of both inputs.
  ghost predicate Widens(v: Version, level: nat, in0: seq<File>, in1: seq<File>, wide0: seq<File>, wide1: seq<File>)
    requires level + 1 < |v|
  {
    exists lo, hi, files ::
      IsHull(in0 + in1, lo, hi) && AllMeeting(level, v[level], Some(lo), Some(hi), files) && Completes(v, level, files, wide0, wide1)
  }

  // The wider inputs are taken when they are more, the level below does not grow, and they stay below the limit.
  predicate Worthwhile(in0: seq<File>, in1: seq<File>, wide0: seq<File>, wide1: seq<File>, limit: nat) {
    |wide0| > |in0| && |wide1| == |in1| && TotalFileSize(in1) + TotalFileSize(wide0) < limit
  }

  ghost predicate AreInputs(v: Version, level: nat, files: seq<File>, limit: nat, in0: seq<File>, in1: seq<File>)
    requires level + 1 < |v|
  {
    exists c0, c1 :: Completes(v, level, files, c0, c1) &&
      if c1 == [] then (in0, in1) == (c0, c1)
      else exists w0, w1 :: Widens(v, level, c0, c1, w0, w1) && (in0, in1) == if Worthwhile(c0, c1, w0, w1, limit) then (w0, w1) else (c0, c1)
  }

  // One closing step: boundary files of the level, then the overlapping files one level down.
  method CloseInputs(v: Version, level: nat, files: seq<File>) returns (in0: seq<File>, in1: seq<File>)
    requires Wf(v) && Picked(v, level, files)
    ensures ValidInputs(v, level, in0, in1)
    ensures files <= in0 && ChainedFrom([], in0, |files|)
    ensures level == 0 ==> in0 == files
    ensures Completes(v, level, files, in0, in1)
  {
    FilesRangesOk(v[level]);
    FilesRangesOk(v[level + 1]);
    in0 := AddBoundaryInputs(v[level], files);
    assert in0[0] == files[0];
    var smallest, largest := GetRange(in0);
    HullMeets(in0, smallest.user, largest.user);
    ghost var lo, hi;
    in1, lo, hi := GetOverlappingInputs(level + 1, v[level + 1], Some(smallest.user), Some(largest.user));
  }

  // The files of the level that the whole range of the inputs reaches.
  method ExpandInputs(v: Version, level: nat, in0: seq<File>, in1: seq<File>) returns (expanded: seq<File>)
    requires Wf(v) && ValidInputs(v, level, in0, in1)
    ensures Picked(v, level, expanded)
    ensures forall f :: f in in0 ==> f in expanded
    ensures Covered(in0 + in1) ==> Covered(in0 + in1 + expanded)
    ensures exists lo, hi :: IsHull(in0 + in1, lo, hi) && AllMeeting(level, v[level], Some(lo), Some(hi), expanded)
  {
    var allStart, allLimit := GetRange(in0 + in1);
    FilesRangesOk(v[level]);
    ghost var lo, hi;
    expanded, lo, hi := GetOverlappingInputs(level, v[level], Some(allStart.user), Some(allLimit.user));
    ExpandedPicked(v, level, in0, in1, expanded, allStart.user, allLimit.user, lo, hi);
  }

  lemma ExpandedPicked(v: Version, level: nat, in0: seq<File>, in1: seq<File>, expanded: seq<File>,
                       allStart: UserKey, allLimit: UserKey, lo: Option<UserKey>, hi: Option<UserKey>)
    requires Wf(v) && ValidInputs(v, level, in0, in1)
    requires IsHull(in0 + in1, allStart, allLimit)
    requires OverlapResult(level, v[level], Some(allStart), Some(allLimit), expanded, lo, hi)
    ensures Picked(v, level, expanded)
    ensures forall f :: f in in0 ==> f in expanded
    ensures Covered(in0 + in1) ==> Covered(in0 + in1 + expanded)
  {
    FilesRangesOk(v[level]);
    InputsInsideRange(v[level], in0, in1, allStart, allLimit);
    assert in0[0] in expanded;
    if level == 0 {
      LeastIsTouchClosed(v[0], Some(allStart), Some(allLimit), expanded);
      if Covered(in0 + in1) {
        ReachedCovered(in0 + in1, expanded, allStart, allLimit, lo, hi);
      }
    } else {
      FilesRangesOk(v[level]);
      RangeFilterContiguous(v[level], lo, hi);
      if Covered(in0 + in1) {
        HullMeets(in0 + in1, allStart, allLimit);
        AllMeetCovered(in0 + in1, expanded);
      }
    }
  }

  // SetupOtherInputs.  `limit` is ExpandedCompactionByteSizeLimit.
  method SetupOtherInputs(v: Version, level: nat, files: seq<File>, limit: nat) returns (in0: seq<File>, in1: seq<File>)
    requires Wf(v) && Picked(v, level, files)
    ensures ValidInputs(v, level, in0, in1)
    ensures forall f :: f in files ==> f in in0
    ensures Covered(files) ==> Covered(in0 + in1)
    ensures AreInputs(v, level, files, limit, in0, in1)
  {
    hide ValidInputs, Picked, Covered, Wf, Completes, Widens, ChainedFrom, Worthwhile;
    in0, in1 := CloseInputs(v, level, files);
    ClosedStillCovered(v, level, files, in0, in1);
    if in1 != [] {
      in0, in1 := TryExpand(v, level, files, in0, in1, limit);
    }
  }

  // Grow the inputs at `level` when that leaves the inputs at `level + 1` as they are.
  method TryExpand(v: Version, level: nat, ghost files: seq<File>, in0: seq<File>, in1: seq<File>, limit: nat)
    returns (out0: seq<File>, out1: seq<File>)
    requires Wf(v) && ValidInputs(v, level, in0, in1) && Completes(v, level, files, in0, in1) && in1 != []
    ensures ValidInputs(v, level, out0, out1)
    ensures forall f :: f in in0 ==> f in out0
    ensures Covered(in0 + in1) ==> Covered(out0 + out1)
    ensures AreInputs(v, level, files, limit, out0, out1)
  {
    hide ValidInputs, Picked, Covered, Wf, ChainedFrom, Completes, AllMeeting, TotalFileSize, IsHull;
    var picked0 := ExpandInputs(v, level, in0, in1);
    out0, out1 := CloseInputs(v, level, picked0);
    assert Widens(v, level, in0, in1, out0, out1);
    assert forall f :: f in picked0 ==> f in out0;
    if |out0| > |in0| && TotalFileSize(in1) + TotalFileSize(out0) < limit && |out1| == |in1| {
      if Covered(in0 + in1) {
        ClosedCovered(in0 + in1, picked0, out0);
        ExpandedStillCovered(v, level, in0, in1, out0, out1);
      }
    } else {
      out0, out1 := in0, in1;
    }
  }

  lemma ClosedStillCovered(v: Version, level: nat, files: seq<File>, in0: seq<File>, in1: seq<File>)
    requires ValidInputs(v, level, in0, in1)
    requires files <= in0 && ChainedFrom([], in0, |files|)
    ensures Covered(files) ==> Covered(in0 + in1)
  {
    if Covered(files) {
      assert [] + files == files && [] + in0 == in0;
      ClosedCovered([], files, in0);
      AllMeetCovered(in0, in1);
    }
  }

  lemma ClosedCovered(X: seq<File>, files: seq<File>, in0: seq<File>)
    requires files <= in0 && ChainedFrom([], in0, |files|)
    requires Covered(X + files)
    ensures Covered(X + in0)
  {
    assert in0[..|files|] == files;
    forall i | |files| <= i < |in0| ensures MeetsHull(in0[i], X + in0[..i]) {
      assert [] + in0[..i] == in0[..i];
      assert MeetsHull(in0[i], in0[..i]);
    }
    ChainCovered(X, in0, |files|);
  }

  lemma InputsInsideRange(files: seq<File>, in0: seq<File>, in1: seq<File>, lo: UserKey, hi: UserKey)
    requires RangesOk(files) && forall f :: f in in0 ==> f in files
    requires IsHull(in0 + in1, lo, hi)
    ensures forall f :: f in in0 ==> Overlaps(f, Some(lo), Some(hi))
  {
    forall f | f in in0 ensures Overlaps(f, Some(lo), Some(hi)) {
      assert f in in0 + in1;
    }
  }

  // The keys a grown level-0 range adds are covered by the files found in it.
  lemma ReachedCovered(A: seq<File>, E: seq<File>, lo: UserKey, hi: UserKey, lo': Option<UserKey>, hi': Option<UserKey>)
    requires Covered(A) && IsHull(A, lo, hi)
    requires lo'.Some? && hi'.Some? && lo'.value <= lo && hi <= hi'.value
    requires forall f :: f in E ==> !Exceeds(f, lo', hi')
    requires Reaches(Some(lo), Some(hi), lo', hi', set f | f in E)
    ensures Covered(A + E)
  {
    var f0 :| f0 in A && f0.smallest.user == lo;
    var g0 :| g0 in A && g0.largest.user == hi;
    forall x, f, g | f in A + E && g in A + E && Spans(f, g, x)
      ensures exists h :: h in A + E && CoversKey(h, x)
    {
      assert InRange(x, lo', hi');
      if InRange(x, Some(lo), Some(hi)) {
        assert Spans(f0, g0, x);
        var h :| h in A && CoversKey(h, x);
        assert h in A + E;
      } else {
        var h :| h in (set f | f in E) && CoversKey(h, x);
        assert h in A + E;
      }
    }
  }

  lemma ExpandedStillCovered(v: Version, level: nat, in0: seq<File>, in1: seq<File>,
                             expanded0: seq<File>, expanded1: seq<File>)
    requires Wf(v) && ValidInputs(v, level, in0, in1) && ValidInputs(v, level, expanded0, expanded1)
    requires Covered(in0 + in1 + expanded0)
    requires forall f :: f in in0 ==> f in expanded0
    ensures Covered(expanded0 + expanded1)
  {
    var base := in0 + in1;
    forall h | h in in1 ensures h in expanded1 {
      assert MeetsHull(h, expanded0);
    }
    forall h | h in expanded1 ensures MeetsHull(h, base + expanded0) {
      assert MeetsHull(h, expanded0);
    }
    AllMeetCovered(base + expanded0, expanded1);
    var all := base + expanded0 + expanded1;
    assert forall f :: f in all <==> f in expanded0 + expanded1;
  }

  // The first file past the compaction pointer, or the first file of the level.
  ghost predicate IsStart(files: seq<File>, pointer: Option<InternalKey>, start: File) {
    var past := (f: File) => pointer.None? || Less(pointer.value, f.largest);
    if exists f :: f in files && past(f) then
      exists i :: 0 <= i < |files| && files[i] == start && past(start) && forall j :: 0 <= j < i ==> !past(files[j])
    else files != [] && start == files[0]
  }

  method PickStart(files: seq<File>, pointer: Option<InternalKey>) returns (start: File)
    requires files != []
    ensures start in files && IsStart(files, pointer, start)
  {
    for i := 0 to |files|
      invariant pointer.None? ==> i == 0
      invariant pointer.Some? ==> forall j :: 0 <= j < i ==> !Less(pointer.value, files[j].largest)
    {
      if pointer.None? || Less(pointer.value, files[i].largest) {
        assert files[i] in files;
        return files[i];
      }
    }
    start := files[0];
  }

  // One file, and at level 0 all that it reaches.
  ghost predicate StartFiles(v: Version, level: nat, start: File, files: seq<File>)
    requires level < |v|
  {
    if level == 0 then AllMeeting(0, v[0], Some(start.smallest.user), Some(start.largest.user), files) else files == [start]
  }

  // The inputs of a compaction that starts with one file.
  method InputsFrom(v: Version, level: nat, start: File, limit: nat) returns (in0: seq<File>, in1: seq<File>)
    requires Wf(v) && level + 1 < NUM_LEVELS && start in v[level]
    ensures ValidInputs(v, level, in0, in1)
    ensures start in in0
    ensures Covered(in0 + in1)
    ensures exists files :: StartFiles(v, level, start, files) && AreInputs(v, level, files, limit, in0, in1)
  {
    hide Wf, Picked, Covered, ValidInputs, AreInputs;
    OneFile(v, level, start);
    var files := [start];
    if level == 0 {
      files := AllOverlapping(v, start);
    }
    in0, in1 := SetupOtherInputs(v, level, files, limit);
  }

  lemma OneFile(v: Version, level: nat, start: File)
    requires Wf(v) && level + 1 < NUM_LEVELS && start in v[level]
    ensures Covered([start]) && RangesOk(v[level])
    ensures level > 0 ==> Picked(v, level, [start])
  {
    FilesRangesOk(v[level]);
  }

  // Files of level 0 may overlap: all that the first file reaches go with it.
  method AllOverlapping(v: Version, start: File) returns (files: seq<File>)
    requires Wf(v) && start in v[0]
    ensures Picked(v, 0, files) && start in files && Covered(files) && StartFiles(v, 0, start, files)
  {
    hide Picked, Covered;
    OneFile(v, 0, start);
    ghost var lo, hi;
    files, lo, hi := GetOverlappingInputs(0, v[0], Some(start.smallest.user), Some(start.largest.user));
    ReachedFromFile(v, start, files, lo, hi);
  }

  lemma ReachedFromFile(v: Version, start: File, files: seq<File>, lo: Option<UserKey>, hi: Option<UserKey>)
    requires Wf(v) && start in v[0] && RangesOk(v[0])
    requires OverlapResult(0, v[0], Some(start.smallest.user), Some(start.largest.user), files, lo, hi)
    ensures Picked(v, 0, files) && start in files && Covered(files)
  {
    OneFile(v, 0, start);
    LeastIsTouchClosed(v[0], Some(start.smallest.user), Some(start.largest.user), files);
    ReachedCovered([start], files, start.smallest.user, start.largest.user, lo, hi);
    hide Covered;
    assert start in files;
    assert forall f :: f in [start] + files <==> f in files;
    SameCovered([start] + files, files);
  }

  lemma SameCovered(A: seq<File>, B: seq<File>)
    requires Covered(A) && forall f :: f in A <==> f in B
    ensures Covered(B)
  {
  }

  // PickCompaction.  `size` is the level a size compaction is for, `seek` the file of a seek
  // compaction with its level, `pointers` are the compaction pointers.
  method PickCompaction(v: Version, size: Option<nat>, pointers: seq<Option<InternalKey>>, seek: Option<(nat, File)>, limit: nat)
    returns (level: nat, in0: seq<File>, in1: seq<File>)
    requires Wf(v) && |pointers| == NUM_LEVELS
    requires size.Some? ==> size.value + 1 < NUM_LEVELS && v[size.value] != []
    requires seek.Some? ==> seek.value.0 + 1 < NUM_LEVELS && seek.value.1 in v[seek.value.0]
    ensures in0 == [] <==> size.None? && seek.None?
    ensures in0 != [] ==> ValidInputs(v, level, in0, in1) && Covered(in0 + in1)
    ensures size.Some? ==> level == size.value
    ensures size.None? && seek.Some? ==> level == seek.value.0
    ensures size.Some? || seek.Some? ==> exists start, files ::
              && (if size.Some? then start in in0 && IsStart(v[level], pointers[level], start) else start == seek.value.1 && start in in0)
              && StartFiles(v, level, start, files) && AreInputs(v, level, files, limit, in0, in1)
  {
    hide ValidInputs, Covered, IsStart, StartFiles, AreInputs;
    var start;
    if size.Some? {
      level := size.value;
      start := PickStart(v[level], pointers[level]);
    } else if seek.Some? {
      level, start := seek.value.0, seek.value.1;
    } else {
      return 0, [], [];
    }
    in0, in1 := InputsFrom(v, level, start, limit);
  }

  lemma {:induction false} FilteredSorted(all: seq<File>, lo: Option<UserKey>, hi: Option<UserKey>)
    requires SortedDisjoint(all)
    ensures SortedDisjoint(OverlappingFiles(all, lo, hi))
  {
    if all != [] {
      var n := |all| - 1;
      FilteredSorted(all[..n], lo, hi);
      var rest := OverlappingFiles(all[..n], lo, hi);
      forall i | 0 <= i < |rest| ensures Less(rest[i].largest, all[n].smallest) {
        assert rest[i] in all[..n];
      }
    }
  }

  // Cutting a contiguous run short leaves a contiguous run.
  lemma PrefixContiguous(all: seq<File>, run: seq<File>, n: nat)
    requires RangesOk(all) && SortedDisjoint(run) && Contiguous(all, run) && n <= |run|
    requires forall f :: f in run ==> f in all
    ensures Contiguous(all, run[..n])
  {
    var cut := run[..n];
    forall f, g, h | f in all && g in cut && h in cut && Less(g.largest, f.smallest) && Less(f.largest, h.smallest)
      ensures f in cut
    {
      assert g in run && h in run;
      BetweenIsBefore(run, f, h, n);
    }
  }

  lemma BetweenIsBefore(run: seq<File>, f: File, h: File, n: nat)
    requires SortedDisjoint(run) && n <= |run| && f in run && h in run[..n]
    requires AtMost(f.smallest, f.largest) && AtMost(h.smallest, h.largest) && Less(f.largest, h.smallest)
    ensures f in run[..n]
  {
    var i :| 0 <= i < |run| && run[i] == f;
    var j :| 0 <= j < n && run[j] == h;
    assert n <= i ==> Less(h.largest, f.smallest);
    assert i < n ==> run[..n][i] == f;
  }

  // The shortest part from the front whose size reaches the limit, or all of it.
  ghost predicate CutShort(all: seq<File>, sizeLimit: nat, part: seq<File>) {
    && part != [] && part <= all
    && (part == all || TotalFileSize(part) >= sizeLimit)
    && forall n :: 0 < n < |part| ==> TotalFileSize(part[..n]) < sizeLimit
  }

  ghost predicate RangeFiles(v: Version, level: nat, begin: Option<UserKey>, end: Option<UserKey>, sizeLimit: nat, files: seq<File>)
    requires level < |v|
  {
    if level == 0 then AllMeeting(0, v[0], begin, end, files) else CutShort(OverlappingFiles(v[level], begin, end), sizeLimit, files)
  }

  // CompactRange: everything that overlaps the range, cut short below level 0.
  method CompactRange(v: Version, level: nat, begin: Option<UserKey>, end: Option<UserKey>, sizeLimit: nat, limit: nat)
    returns (r: Option<(seq<File>, seq<File>)>)
    requires Wf(v) && level + 1 < NUM_LEVELS
    ensures r.None? <==> forall f :: f in v[level] ==> !Overlaps(f, begin, end)
    ensures r.Some? ==> ValidInputs(v, level, r.value.0, r.value.1)
    ensures r.Some? ==> exists files ::
              RangeFiles(v, level, begin, end, sizeLimit, files) && AreInputs(v, level, files, limit, r.value.0, r.value.1)
  {
    hide ValidInputs, AreInputs;
    FilesRangesOk(v[level]);
    ghost var lo, hi;
    var inputs;
    inputs, lo, hi := GetOverlappingInputs(level, v[level], begin, end);
    SomethingFound(level, v[level], begin, end, inputs, lo, hi);
    if inputs == [] {
      return None;
    }
    if level == 0 {
      LeastIsTouchClosed(v[0], begin, end, inputs);
    } else {
      FilteredSorted(v[level], begin, end);
      RangeFilterContiguous(v[level], begin, end);
      var n := SizePrefix(inputs, sizeLimit);
      PrefixContiguous(v[level], inputs, n);
      inputs := inputs[..n];
    }
    var in0, in1 := SetupOtherInputs(v, level, inputs, limit);
    r := Some((in0, in1));
  }

  // The loop of CompactRange that stops at the size limit.
  method SizePrefix(inputs: seq<File>, sizeLimit: nat) returns (n: nat)
    requires inputs != []
    ensures n <= |inputs| && CutShort(inputs, sizeLimit, inputs[..n])
  {
    var total := 0;
    n := 0;
    while n < |inputs|
      invariant n <= |inputs| && total == TotalFileSize(inputs[..n])
      invariant forall m :: 0 < m <= n ==> TotalFileSize(inputs[..m]) < sizeLimit
    {
      OneMoreFile(inputs, n);
      total := total + inputs[n].size;
      n := n + 1;
      if total >= sizeLimit {
        break;
      }
    }
    assert forall m :: 0 < m < n ==> inputs[..n][..m] == inputs[..m];
    assert n == |inputs| ==> inputs[..n] == inputs;
  }

  lemma OneMoreFile(files: seq<File>, n: nat)
    requires n < |files|
    ensures TotalFileSize(files[..n + 1]) == TotalFileSize(files[..n]) + files[n].size
  {
    TotalOfParts(files[..n], [files[n]]);
    assert files[..n + 1] == files[..n] + [files[n]];
  }

  lemma SomethingFound(level: nat, files: seq<File>, begin: Option<UserKey>, end: Option<UserKey>, inputs: seq<File>,
                       lo: Option<UserKey>, hi: Option<UserKey>)
    requires OverlapResult(level, files, begin, end, inputs, lo, hi)
    ensures forall f :: f in files && Overlaps(f, begin, end) ==> f in inputs
    ensures inputs != [] ==> exists f :: f in files && Overlaps(f, begin, end)
  {
    if level == 0 && forall f :: f in files ==> !Overlaps(f, begin, end) {
      assert OverlapClosed(files, begin, end, {});
      assert forall f :: f in inputs ==> f in {};
    }
    assert inputs != [] ==> inputs[0] in inputs;
  }

  ghost predicate LevelOverlaps(v: Version, level: nat, lo: UserKey, hi: UserKey)
    requires level < |v|
  {
    exists f :: f in v[level] && Overlaps(f, Some(lo), Some(hi))
  }

  // A table may pass from `level` to the next if that does not meet it, and it does not meet too much
  // of the level after that.
  ghost predicate MayPass(v: Version, level: nat, lo: UserKey, hi: UserKey, maxOverlap: nat)
    requires level + 2 < |v|
  {
    !LevelOverlaps(v, level + 1, lo, hi) && TotalFileSize(OverlappingFiles(v[level + 2], Some(lo), Some(hi))) <= maxOverlap
  }

  // How far a flushed table goes down: not at all if level 0 meets it, and else as far as it may, to level 2 at most.
  ghost predicate IsOutputLevel(v: Version, lo: UserKey, hi: UserKey, maxOverlap: nat, level: nat)
    requires |v| == NUM_LEVELS
  {
    && level <= 2
    && (level > 0 ==> !LevelOverlaps(v, 0, lo, hi))
    && (forall i :: 0 <= i < level ==> MayPass(v, i, lo, hi, maxOverlap))
    && (level < 2 ==> (level == 0 && LevelOverlaps(v, 0, lo, hi)) || !MayPass(v, level, lo, hi, maxOverlap))
  }

  lemma OutputLevelIsUnique(v: Version, lo: UserKey, hi: UserKey, maxOverlap: nat, a: nat, b: nat)
    requires |v| == NUM_LEVELS && IsOutputLevel(v, lo, hi, maxOverlap, a) && IsOutputLevel(v, lo, hi, maxOverlap, b)
    ensures a == b
  {
    hide MayPass, LevelOverlaps;
  }

  // PickLevelForMemTableOutput.  `maxOverlap` is MaxGrandParentOverlapBytes.
  method PickLevelForMemTableOutput(v: Version, lo: UserKey, hi: UserKey, maxOverlap: nat) returns (level: nat)
    requires Wf(v)
    ensures IsOutputLevel(v, lo, hi, maxOverlap, level)
    ensures level > 0 ==> forall i :: 0 <= i <= level ==> !LevelOverlaps(v, i, lo, hi)
  {
    level := 0;
    var overlap0 := SomeFileOverlapsRange(false, v[0], Some(lo), Some(hi));
    if !overlap0 {
      while level < MAX_MEM_COMPACT_LEVEL
        invariant level <= MAX_MEM_COMPACT_LEVEL
        invariant forall i :: 0 <= i <= level ==> !LevelOverlaps(v, i, lo, hi)
        invariant forall i :: 0 <= i < level ==> MayPass(v, i, lo, hi, maxOverlap)
      {
        var overlap := SomeFileOverlapsRange(true, v[level + 1], Some(lo), Some(hi));
        if overlap {
          break;
        }
        FilesRangesOk(v[level + 2]);
        ghost var l, h;
        var overlaps;
        overlaps, l, h := GetOverlappingInputs(level + 2, v[level + 2], Some(lo), Some(hi));
        if TotalFileSize(overlaps) > maxOverlap {
          break;
        }
        level := level + 1;
      }
    }
  }

  // What a file would have to be merged with two levels down, by size.
  ghost function GrandparentBytes(v: Version, level: nat, f: File): nat {
    if level + 2 < |v| then TotalFileSize(OverlappingFiles(v[level + 2], Some(f.smallest.user), Some(f.largest.user))) else 0
  }

  // IsTrivialMove, with the grandparents that SetupOtherInputs finds for a single file.
  method IsTrivialMove(v: Version, level: nat, in0: seq<File>, in1: seq<File>, maxOverlap: nat) returns (trivial: bool)
    requires Wf(v)
    ensures trivial <==> |in0| == 1 && |in1| == 0 && GrandparentBytes(v, level, in0[0]) <= maxOverlap
  {
    trivial := |in0| == 1 && |in1| == 0;
    if trivial && level + 2 < NUM_LEVELS {
      FilesRangesOk(v[level + 2]);
      ghost var lo, hi;
      var grandparents;
      grandparents, lo, hi := GetOverlappingInputs(level + 2, v[level + 2], Some(in0[0].smallest.user), Some(in0[0].largest.user));
      trivial := TotalFileSize(grandparents) <= maxOverlap;
    }
  }
}
