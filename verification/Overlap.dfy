/**
  Range queries over the files of a level, and the input sets that grow out of them
  (SomeFileOverlapsRange, GetOverlappingInputs, AddBoundaryInputs in db/version_set.cc).
 */
module Overlap {
  import opened Wrappers
  import opened Keys
  import opened Versions

  ghost predicate RangesOk(files: seq<File>) {
    forall f :: f in files ==> AtMost(f.smallest, f.largest)
  }

  // A missing bound is before (or after) all keys.
  predicate AfterFile(bound: Option<UserKey>, f: File) {
    bound.Some? && bound.value > f.largest.user
  }

  predicate BeforeFile(bound: Option<UserKey>, f: File) {
    bound.Some? && bound.value < f.smallest.user
  }

  predicate Overlaps(f: File, lo: Option<UserKey>, hi: Option<UserKey>) {
    !AfterFile(lo, f) && !BeforeFile(hi, f)
  }

  // Binary search in a disjoint level and the full scan of level 0 answer the same question.
  method SomeFileOverlapsRange(disjoint: bool, files: seq<File>, lo: Option<UserKey>, hi: Option<UserKey>)
    returns (overlap: bool)
    requires forall f :: f in files ==> WfFile(f)
    requires disjoint ==> SortedDisjoint(files)
    ensures overlap <==> exists f :: f in files && Overlaps(f, lo, hi)
  {
    if !disjoint {
      for i := 0 to |files|
        invariant forall j :: 0 <= j < i ==> !Overlaps(files[j], lo, hi)
      {
        if !(AfterFile(lo, files[i]) || BeforeFile(hi, files[i])) {
          assert files[i] in files;
          return true;
        }
      }
      return false;
    }
    var index := 0;
    if lo.Some? {
      index := FindFile(files, InternalKey(lo.value, MAX_SEQUENCE, Value));
      forall i | 0 <= i < |files| ensures i < index <==> AfterFile(lo, files[i]) {
        var f := files[i];
        assert f in files && WfFile(f);
        assert f.entries[|f.entries| - 1] in f.entries;
      }
    }
    if index >= |files| {
      return false;
    }
    overlap := !BeforeFile(hi, files[index]);
    assert files[index] in files;
    forall i | index <= i < |files| && Overlaps(files[i], lo, hi) ensures overlap {
      var f := files[index];
      EntryInRange(f, f.entries[0]);
      assert i == index || Less(f.largest, files[i].smallest);
    }
  }

  // ---- GetOverlappingInputs ----

  function OverlappingFiles(files: seq<File>, lo: Option<UserKey>, hi: Option<UserKey>): (r: seq<File>)
    ensures forall f :: f in r <==> f in files && Overlaps(f, lo, hi)
  {
    if files == [] then []
    else
      var f := files[|files| - 1];
      OverlappingFiles(files[..|files| - 1], lo, hi) + if Overlaps(f, lo, hi) then [f] else []
  }

  // The file has keys on the far side of a bound of the range.
  predicate Exceeds(f: File, lo: Option<UserKey>, hi: Option<UserKey>) {
    BeforeLow(f, lo) || PastHigh(f, hi)
  }

  predicate BeforeLow(f: File, lo: Option<UserKey>) {
    lo.Some? && f.smallest.user < lo.value
  }

  predicate PastHigh(f: File, hi: Option<UserKey>) {
    hi.Some? && f.largest.user > hi.value
  }

  function Count(files: seq<File>, p: File -> bool): nat {
    if files == [] then 0 else (if p(files[0]) then 1 else 0) + Count(files[1..], p)
  }

  lemma {:induction false} FewerCount(files: seq<File>, p: File -> bool, q: File -> bool, f: File)
    requires forall g :: q(g) ==> p(g)
    ensures Count(files, q) <= Count(files, p)
    ensures f in files && p(f) && !q(f) ==> Count(files, q) < Count(files, p)
  {
    if files != [] {
      FewerCount(files[1..], p, q, f);
    }
  }

  function StartsBelow(lo: Option<UserKey>): File -> bool {
    (f: File) => BeforeLow(f, lo)
  }

  function EndsAbove(hi: Option<UserKey>): File -> bool {
    (f: File) => PastHigh(f, hi)
  }

  function StartsAfter(key: InternalKey): File -> bool {
    (f: File) => Less(key, f.smallest)
  }

  predicate InRange(x: UserKey, lo: Option<UserKey>, hi: Option<UserKey>) {
    (lo.Some? ==> lo.value <= x) && (hi.Some? ==> x <= hi.value)
  }

  predicate Spans(f: File, g: File, x: UserKey) {
    f.smallest.user <= x <= g.largest.user
  }

  predicate CoversKey(f: File, x: UserKey) {
    Spans(f, f, x)
  }

  predicate Touch(f: File, g: File) {
    f.smallest.user <= g.largest.user && g.smallest.user <= f.largest.user
  }

  // T contains every file that meets the range, and every file that meets a file of T.
  ghost predicate OverlapClosed(files: seq<File>, lo: Option<UserKey>, hi: Option<UserKey>, T: set<File>) {
    && (forall f :: f in files && Overlaps(f, lo, hi) ==> f in T)
    && (forall f, g :: f in T && g in files && Touch(f, g) ==> g in T)
  }

  ghost predicate Reaches(lo: Option<UserKey>, hi: Option<UserKey>, lo': Option<UserKey>, hi': Option<UserKey>, T: set<File>) {
    forall x :: InRange(x, lo', hi') ==> InRange(x, lo, hi) || exists f :: f in T && CoversKey(f, x)
  }

  predicate NonEmpty(lo: Option<UserKey>, hi: Option<UserKey>) {
    lo.Some? && hi.Some? ==> lo.value <= hi.value
  }

  // A file that meets a range already reached from closed set T is in T.
  lemma MeetsReached(files: seq<File>, lo: Option<UserKey>, hi: Option<UserKey>, lo': Option<UserKey>, hi': Option<UserKey>,
                     T: set<File>, f: File)
    requires OverlapClosed(files, lo, hi, T) && Reaches(lo, hi, lo', hi', T)
    requires NonEmpty(lo', hi') || (lo' == lo && hi' == hi)
    requires f in files && AtMost(f.smallest, f.largest) && Overlaps(f, lo', hi')
    ensures f in T
  {
    if NonEmpty(lo', hi') {
      var x := if lo'.Some? && lo'.value > f.smallest.user then lo'.value else f.smallest.user;
      assert InRange(x, lo', hi') && CoversKey(f, x);
      if !InRange(x, lo, hi) {
        var g :| g in T && CoversKey(g, x);
        assert Touch(g, f);
      }
    }
  }

  ghost predicate IsLeastClosed(files: seq<File>, lo: Option<UserKey>, hi: Option<UserKey>, chosen: seq<File>) {
    && OverlapClosed(files, lo, hi, set f | f in chosen)
    && forall T, f :: OverlapClosed(files, lo, hi, T) && f in chosen ==> f in T
  }

  // `inputs` are the files that overlap [begin, end]: at level 0, those that overlap a range [lo, hi]
  // which no overlapping file exceeds and which grew from [begin, end] through such files only.
  ghost predicate OverlapResult(level: nat, files: seq<File>, begin: Option<UserKey>, end: Option<UserKey>,
                                inputs: seq<File>, lo: Option<UserKey>, hi: Option<UserKey>) {
    && inputs == OverlappingFiles(files, lo, hi)
    && Grown(files, begin, end, lo, hi)
    && (level > 0 ==> lo == begin && hi == end)
    && (level == 0 ==>
          && (forall f :: f in inputs ==> !Exceeds(f, lo, hi))
          && IsLeastClosed(files, begin, end, inputs)
          && Reaches(begin, end, lo, hi, set f | f in inputs))
  }

  // Level 0: grow the range until no overlapping file exceeds it; deeper levels: filter.
  // At level 0 the result is the least overlap-closed set of files for the range.
  lemma FilterStep(files: seq<File>, i: nat, lo: Option<UserKey>, hi: Option<UserKey>)
    requires 0 < i <= |files|
    ensures var f := files[i - 1];
      f in files && OverlappingFiles(files[..i], lo, hi) == OverlappingFiles(files[..i - 1], lo, hi) + if Overlaps(f, lo, hi) then [f] else []
  {
    assert files[..i][..i - 1] == files[..i - 1];
  }

  lemma NothingYet(files: seq<File>, begin: Option<UserKey>, end: Option<UserKey>)
    ensures Grown(files, begin, end, begin, end)
    ensures forall lo, hi :: OverlappingFiles(files[..0], lo, hi) == []
  {
  }

  method GetOverlappingInputs(level: nat, files: seq<File>, begin: Option<UserKey>, end: Option<UserKey>)
    returns (inputs: seq<File>, ghost lo: Option<UserKey>, ghost hi: Option<UserKey>)
    requires RangesOk(files)
    ensures OverlapResult(level, files, begin, end, inputs, lo, hi)
  {
    hide OverlappingFiles, Grown, IsLeastClosed, Reaches;
    NothingYet(files, begin, end);
    inputs := [];
    var userBegin, userEnd := begin, end;
    var i := 0;
    while i < |files|
      invariant i <= |files|
      invariant Grown(files, begin, end, userBegin, userEnd)
      invariant level > 0 ==> userBegin == begin && userEnd == end
      invariant inputs == OverlappingFiles(files[..i], userBegin, userEnd)
      invariant level == 0 ==> forall f :: f in inputs ==> !Exceeds(f, userBegin, userEnd)
      decreases Count(files, StartsBelow(userBegin)) + Count(files, EndsAbove(userEnd)), |files| - i
    {
      var f := files[i];
      i := i + 1;
      FilterStep(files, i, userBegin, userEnd);
      if AfterFile(userBegin, f) || BeforeFile(userEnd, f) {
        // completely before or after the range
      } else {
        inputs := inputs + [f];
        if level == 0 {
          ghost var lo0, hi0 := userBegin, userEnd;
          if BeforeLow(f, userBegin) {
            FewerCount(files, StartsBelow(userBegin), StartsBelow(Some(f.smallest.user)), f);
            userBegin := Some(f.smallest.user);
            inputs, i := [], 0;
            GrowRange(files, begin, end, lo0, hi0, userBegin, userEnd, f);
          } else if PastHigh(f, userEnd) {
            FewerCount(files, EndsAbove(userEnd), EndsAbove(Some(f.largest.user)), f);
            userEnd := Some(f.largest.user);
            inputs, i := [], 0;
            GrowRange(files, begin, end, lo0, hi0, userBegin, userEnd, f);
          }
        }
      }
    }
    lo, hi := userBegin, userEnd;
    assert files[..|files|] == files;
    if level == 0 {
      FixpointIsLeast(files, begin, end, lo, hi);
    }
  }

  // Every overlap-closed set of files for [begin, end] covers what [lo, hi] adds to it.
  ghost predicate Grown(files: seq<File>, begin: Option<UserKey>, end: Option<UserKey>, lo: Option<UserKey>, hi: Option<UserKey>) {
    && lo.Some? == begin.Some? && hi.Some? == end.Some?
    && (begin.Some? ==> lo.value <= begin.value)
    && (end.Some? ==> hi.value >= end.value)
    && (NonEmpty(lo, hi) || (lo == begin && hi == end))
    && forall T :: OverlapClosed(files, begin, end, T) ==> Reaches(begin, end, lo, hi, T)
  }

  lemma GrowRange(files: seq<File>, begin: Option<UserKey>, end: Option<UserKey>,
                  lo0: Option<UserKey>, hi0: Option<UserKey>, lo: Option<UserKey>, hi: Option<UserKey>, f: File)
    requires RangesOk(files) && f in files && Overlaps(f, lo0, hi0)
    requires Grown(files, begin, end, lo0, hi0)
    requires (lo == Some(f.smallest.user) && hi == hi0 && BeforeLow(f, lo0)) ||
             (hi == Some(f.largest.user) && lo == lo0 && PastHigh(f, hi0))
    ensures Grown(files, begin, end, lo, hi)
  {
    forall T | OverlapClosed(files, begin, end, T) ensures Reaches(begin, end, lo, hi, T) {
      MeetsReached(files, begin, end, lo0, hi0, T, f);
      forall x | InRange(x, lo, hi) ensures InRange(x, begin, end) || exists g :: g in T && CoversKey(g, x) {
        if !InRange(x, lo0, hi0) {
          assert CoversKey(f, x);
        }
      }
    }
  }

  lemma FixpointIsLeast(files: seq<File>, begin: Option<UserKey>, end: Option<UserKey>, lo: Option<UserKey>, hi: Option<UserKey>)
    requires RangesOk(files) && Grown(files, begin, end, lo, hi)
    requires forall f :: f in OverlappingFiles(files, lo, hi) ==> !Exceeds(f, lo, hi)
    ensures IsLeastClosed(files, begin, end, OverlappingFiles(files, lo, hi))
    ensures Reaches(begin, end, lo, hi, set f | f in OverlappingFiles(files, lo, hi))
  {
    var least := set f | f in OverlappingFiles(files, lo, hi);
    assert OverlapClosed(files, begin, end, least);
    forall T, f | OverlapClosed(files, begin, end, T) && f in OverlappingFiles(files, lo, hi) ensures f in T {
      MeetsReached(files, begin, end, lo, hi, T, f);
    }
  }

  // ---- Boundary files ----

  ghost predicate IsLargest(files: seq<File>, largest: InternalKey) {
    && (exists f :: f in files && f.largest == largest)
    && (forall f :: f in files ==> AtMost(f.largest, largest))
  }

  // f starts after `largest`, with the same user key.
  predicate Boundary(f: File, largest: InternalKey) {
    Less(largest, f.smallest) && f.smallest.user == largest.user
  }

  method FindLargestKey(files: seq<File>) returns (largest: InternalKey)
    requires files != []
    ensures IsLargest(files, largest)
  {
    largest := files[0].largest;
    for i := 1 to |files|
      invariant IsLargest(files[..i], largest)
    {
      assert files[..i + 1] == files[..i] + [files[i]];
      if Less(largest, files[i].largest) {
        largest := files[i].largest;
        assert files[i] in files[..i + 1];
      }
    }
    assert files[..|files|] == files;
  }

  method FindSmallestBoundaryFile(levelFiles: seq<File>, largest: InternalKey) returns (r: Option<File>)
    ensures r.None? ==> forall f :: f in levelFiles ==> !Boundary(f, largest)
    ensures r.Some? ==> r.value in levelFiles && Boundary(r.value, largest)
    ensures r.Some? ==> forall f :: f in levelFiles && Boundary(f, largest) ==> AtMost(r.value.smallest, f.smallest)
  {
    r := None;
    for i := 0 to |levelFiles|
      invariant r.None? ==> forall j :: 0 <= j < i ==> !Boundary(levelFiles[j], largest)
      invariant r.Some? ==> r.value in levelFiles && Boundary(r.value, largest)
      invariant r.Some? ==> forall j :: 0 <= j < i && Boundary(levelFiles[j], largest) ==>
                              AtMost(r.value.smallest, levelFiles[j].smallest)
    {
      var f := levelFiles[i];
      if Less(largest, f.smallest) && f.smallest.user == largest.user {
        if r.None? || Less(f.smallest, r.value.smallest) {
          r := Some(f);
        }
      }
    }
  }

  // Files of the level that lie between two chosen files are chosen.
  ghost predicate Contiguous(all: seq<File>, chosen: seq<File>) {
    forall f, g, h :: f in all && g in chosen && h in chosen && Less(g.largest, f.smallest) && Less(f.largest, h.smallest) ==>
      f in chosen
  }

  ghost predicate TouchClosed(all: seq<File>, chosen: seq<File>) {
    forall f, g :: f in all && g in chosen && Touch(f, g) ==> f in chosen
  }

  ghost predicate NoBoundaryLeft(all: seq<File>, chosen: seq<File>) {
    forall f, largest :: f in all && IsLargest(chosen, largest) ==> !Boundary(f, largest)
  }

  // Every key between two keys of the files falls into the range of some file.
  ghost predicate Covered(files: seq<File>) {
    forall x, f, g :: f in files && g in files && Spans(f, g, x) ==> exists h :: h in files && CoversKey(h, x)
  }

  // The user-key range of h meets the smallest interval around the files.
  ghost predicate MeetsHull(h: File, files: seq<File>) {
    && (exists f :: f in files && h.smallest.user <= f.largest.user)
    && (exists f :: f in files && f.smallest.user <= h.largest.user)
  }

  // From position n on, each file meets the hull of X and the files before it.
  ghost predicate ChainedFrom(X: seq<File>, files: seq<File>, n: nat) {
    forall i :: n <= i < |files| ==> MeetsHull(files[i], X + files[..i])
  }

  // The boundary file that starts first behind the largest key of the files.
  ghost predicate NextBoundary(all: seq<File>, files: seq<File>, b: File) {
    exists largest :: IsLargest(files, largest) && b in all && Boundary(b, largest) &&
      forall f :: f in all && Boundary(f, largest) ==> AtMost(b.smallest, f.smallest)
  }

  // From position n on, each file is the next boundary file of those before it.
  ghost predicate BoundariesFrom(all: seq<File>, files: seq<File>, n: nat) {
    forall i :: n <= i < |files| ==> NextBoundary(all, files[..i], files[i])
  }

  lemma AddMeeting(files: seq<File>, b: File)
    requires Covered(files) && MeetsHull(b, files)
    ensures Covered(files + [b])
  {
    var g0 :| g0 in files && b.smallest.user <= g0.largest.user;
    var f0 :| f0 in files && f0.smallest.user <= b.largest.user;
    forall x, f, g | f in files + [b] && g in files + [b] && Spans(f, g, x)
      ensures exists h :: h in files + [b] && CoversKey(h, x)
    {
      if CoversKey(b, x) {
        assert b in files + [b];
      } else {
        var f1 := if f == b then f0 else f;
        var g1 := if g == b then g0 else g;
        assert Spans(f1, g1, x);
        var h :| h in files && CoversKey(h, x);
        assert h in files + [b];
      }
    }
  }

  lemma {:induction false} ChainCovered(X: seq<File>, files: seq<File>, n: nat)
    requires n <= |files|
    requires Covered(X + files[..n]) && ChainedFrom(X, files, n)
    ensures Covered(X + files)
    decreases |files| - n
  {
    if n == |files| {
      assert files[..n] == files;
    } else {
      AddMeeting(X + files[..n], files[n]);
      assert X + files[..n] + [files[n]] == X + files[..n + 1];
      ChainCovered(X, files, n + 1);
    }
  }

  method AddBoundaryInputs(all: seq<File>, compactionFiles: seq<File>) returns (r: seq<File>)
    requires RangesOk(all)
    requires forall f :: f in compactionFiles ==> f in all
    ensures compactionFiles <= r
    ensures forall f :: f in r ==> f in all
    ensures NoBoundaryLeft(all, r)
    ensures TouchClosed(all, compactionFiles) ==> r == compactionFiles
    ensures SortedDisjoint(all) && Contiguous(all, compactionFiles) ==> Contiguous(all, r)
    ensures ChainedFrom([], r, |compactionFiles|)
    ensures BoundariesFrom(all, r, |compactionFiles|)
  {
    hide Contiguous, ChainedFrom, TouchClosed, SortedDisjoint, MeetsHull, BoundariesFrom;
    NoChain(all, compactionFiles);
    r := compactionFiles;
    if r == [] {
      return;
    }
    var largest := FindLargestKey(r);
    var searching := true;
    while searching
      invariant compactionFiles <= r
      invariant forall f :: f in r ==> f in all
      invariant IsLargest(r, largest)
      invariant !searching ==> forall f :: f in all ==> !Boundary(f, largest)
      invariant TouchClosed(all, compactionFiles) ==> r == compactionFiles
      invariant SortedDisjoint(all) && Contiguous(all, compactionFiles) ==> Contiguous(all, r)
      invariant ChainedFrom([], r, |compactionFiles|) && BoundariesFrom(all, r, |compactionFiles|)
      decreases searching, Count(all, StartsAfter(largest))
    {
      var b := FindSmallestBoundaryFile(all, largest);
      if b.Some? {
        BoundaryStep(all, r, largest, b.value);
        ChainStep(r, |compactionFiles|, b.value);
        BoundariesStep(all, r, |compactionFiles|, largest, b.value);
        FewerCount(all, StartsAfter(largest), StartsAfter(b.value.largest), b.value);
        r := r + [b.value];
        largest := b.value.largest;
      } else {
        searching := false;
      }
    }
    assert forall l :: IsLargest(r, l) ==> l == largest;
  }

  lemma NoChain(all: seq<File>, r: seq<File>)
    ensures ChainedFrom([], r, |r|) && BoundariesFrom(all, r, |r|)
  {
  }

  lemma BoundariesStep(all: seq<File>, r: seq<File>, n: nat, largest: InternalKey, b: File)
    requires n <= |r| && BoundariesFrom(all, r, n) && IsLargest(r, largest) && b in all && Boundary(b, largest)
    requires forall f :: f in all && Boundary(f, largest) ==> AtMost(b.smallest, f.smallest)
    ensures BoundariesFrom(all, r + [b], n)
  {
    hide IsLargest;
    forall i | n <= i < |r| + 1 ensures NextBoundary(all, (r + [b])[..i], (r + [b])[i]) {
      assert (r + [b])[..i] == r[..i];
      assert i == |r| ==> r[..i] == r;
    }
  }

  lemma ChainStep(r: seq<File>, n: nat, b: File)
    requires n <= |r| && ChainedFrom([], r, n) && MeetsHull(b, r)
    ensures ChainedFrom([], r + [b], n)
  {
    forall i | n <= i < |r| + 1 ensures MeetsHull((r + [b])[i], [] + (r + [b])[..i]) {
      assert [] + (r + [b])[..i] == r[..i] == [] + r[..i];
      assert i == |r| ==> r[..i] == r;
    }
  }

  lemma BoundaryStep(all: seq<File>, r: seq<File>, largest: InternalKey, b: File)
    requires RangesOk(all) && forall f :: f in r ==> f in all
    requires IsLargest(r, largest)
    requires b in all && Boundary(b, largest)
    requires forall f :: f in all && Boundary(f, largest) ==> AtMost(b.smallest, f.smallest)
    ensures IsLargest(r + [b], b.largest) && Less(largest, b.largest)
    ensures !TouchClosed(all, r)
    ensures SortedDisjoint(all) && Contiguous(all, r) ==> Contiguous(all, r + [b])
    ensures MeetsHull(b, r)
  {
    hide SortedDisjoint, Contiguous;
    var l :| l in r && l.largest == largest;
    assert Touch(b, l) && b !in r;
    assert b in r + [b];
    if SortedDisjoint(all) && Contiguous(all, r) {
      BoundaryContiguous(all, r, l, b);
    }
  }

  lemma BoundaryContiguous(all: seq<File>, r: seq<File>, l: File, b: File)
    requires RangesOk(all) && SortedDisjoint(all) && Contiguous(all, r)
    requires forall f :: f in r ==> f in all
    requires l in r && IsLargest(r, l.largest) && b in all && Boundary(b, l.largest)
    requires forall f :: f in all && Boundary(f, l.largest) ==> AtMost(b.smallest, f.smallest)
    ensures Contiguous(all, r + [b])
  {
    forall f, g, h | f in all && g in r + [b] && h in r + [b] && Less(g.largest, f.smallest) && Less(f.largest, h.smallest)
      ensures f in r + [b]
    {
      assert g in r;
      if h == b {
        FileBeforeBoundary(all, r, l, b, f, g);
      }
    }
  }

  lemma FileBeforeBoundary(all: seq<File>, r: seq<File>, l: File, b: File, f: File, g: File)
    requires RangesOk(all) && SortedDisjoint(all) && Contiguous(all, r)
    requires l in r && l in all && IsLargest(r, l.largest) && b in all && Boundary(b, l.largest)
    requires forall f :: f in all && Boundary(f, l.largest) ==> AtMost(b.smallest, f.smallest)
    requires f in all && g in r && Less(g.largest, f.smallest) && Less(f.largest, b.smallest)
    ensures f in r
  {
    var i :| 0 <= i < |all| && all[i] == f;
    var j :| 0 <= j < |all| && all[j] == l;
    assert j < i ==> Boundary(f, l.largest);
    assert i < j ==> Less(f.largest, l.smallest);
  }
}
