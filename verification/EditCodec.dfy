/**
  The MANIFEST record of a version edit (db/version_edit.h, db/version_edit.cc).
 */
module EditCodec {
  import opened Wrappers
  import opened Bytes
  import opened Coding

  // config::kNumLevels
  const NUM_LEVELS: nat := 7

  const TAG_COMPARATOR: nat := 1
  const TAG_LOG_NUMBER: nat := 2
  const TAG_NEXT_FILE_NUMBER: nat := 3
  const TAG_LAST_SEQUENCE: nat := 4
  const TAG_COMPACT_POINTER: nat := 5
  const TAG_DELETED_FILE: nat := 6
  const TAG_NEW_FILE: nat := 7
  const TAG_PREV_LOG_NUMBER: nat := 9

  type KeyBytes = seq<byte>

  datatype FileMeta = FileMeta(number: nat, fileSize: nat, smallest: KeyBytes, largest: KeyBytes)

  // The fields of a VersionEdit, has_ flags included.
  datatype Fields = Fields(
    comparator: Option<seq<byte>>,
    logNumber: Option<nat>,
    prevLogNumber: Option<nat>,
    nextFileNumber: Option<nat>,
    lastSequence: Option<nat>,
    compactPointers: seq<(nat, KeyBytes)>,
    deletedFiles: set<(nat, nat)>,
    newFiles: seq<(nat, FileMeta)>)

  const CLEARED := Fields(None, None, None, None, None, [], {}, [])

  // What EncodeTo writes after each tag.
  datatype Record =
    | Comparator(name: seq<byte>)
    | LogNumber(number: nat)
    | PrevLogNumber(number: nat)
    | NextFile(number: nat)
    | LastSequence(number: nat)
    | CompactPointer(level: nat, key: KeyBytes)
    | DeletedFile(level: nat, number: nat)
    | NewFile(level: nat, file: FileMeta)

  // Numbers are 64-bit words, lengths 32-bit, and levels exist.
  predicate FileFits(f: FileMeta) {
    f.number < U64 && f.fileSize < U64 && |f.smallest| < U32 && |f.largest| < U32
  }

  predicate RecordFits(r: Record) {
    match r
    case Comparator(name) => |name| < U32
    case LogNumber(n) => n < U64
    case PrevLogNumber(n) => n < U64
    case NextFile(n) => n < U64
    case LastSequence(n) => n < U64
    case CompactPointer(level, key) => level < NUM_LEVELS && |key| < U32
    case DeletedFile(level, n) => level < NUM_LEVELS && n < U64
    case NewFile(level, f) => level < NUM_LEVELS && FileFits(f)
  }

  function FileBytes(f: FileMeta): seq<byte> {
    Varint(f.number) + (Varint(f.fileSize) + (LengthPrefixed(f.smallest) + LengthPrefixed(f.largest)))
  }

  function TagOf(r: Record): nat {
    match r
    case Comparator(_) => TAG_COMPARATOR
    case LogNumber(_) => TAG_LOG_NUMBER
    case PrevLogNumber(_) => TAG_PREV_LOG_NUMBER
    case NextFile(_) => TAG_NEXT_FILE_NUMBER
    case LastSequence(_) => TAG_LAST_SEQUENCE
    case CompactPointer(_, _) => TAG_COMPACT_POINTER
    case DeletedFile(_, _) => TAG_DELETED_FILE
    case NewFile(_, _) => TAG_NEW_FILE
  }

  function BodyBytes(r: Record): seq<byte> {
    match r
    case Comparator(name) => LengthPrefixed(name)
    case LogNumber(n) => Varint(n)
    case PrevLogNumber(n) => Varint(n)
    case NextFile(n) => Varint(n)
    case LastSequence(n) => Varint(n)
    case CompactPointer(level, key) => Varint(level) + LengthPrefixed(key)
    case DeletedFile(level, n) => Varint(level) + Varint(n)
    case NewFile(level, f) => Varint(level) + FileBytes(f)
  }

  function RecordBytes(r: Record): seq<byte> {
    Varint(TagOf(r)) + BodyBytes(r)
  }

  function AllBytes(rs: seq<Record>): seq<byte> {
    if rs == [] then [] else RecordBytes(rs[0]) + AllBytes(rs[1..])
  }

  // ---- Parsing one record ----

  function GetLevel(bs: seq<byte>): (r: Input<nat>)
    ensures r.Got? ==> |r.rest| < |bs| && r.value < NUM_LEVELS
  {
    var v := GetVarint32(bs);
    if v.Got? && v.value < NUM_LEVELS then v else Bad
  }

  function GetFile(bs: seq<byte>): (r: Input<FileMeta>)
    ensures r.Got? ==> |r.rest| < |bs|
  {
    var number := GetVarint64(bs);
    if number.Bad? then Bad else
    var size := GetVarint64(number.rest);
    if size.Bad? then Bad else
    var smallest := GetLengthPrefixed(size.rest);
    if smallest.Bad? then Bad else
    var largest := GetLengthPrefixed(smallest.rest);
    if largest.Bad? then Bad else Got(FileMeta(number.value, size.value, smallest.value, largest.value), largest.rest)
  }

  function GetNumber(bs: seq<byte>, make: nat -> Record): (r: Input<Record>)
    ensures r.Got? ==> |r.rest| < |bs|
  {
    var n := GetVarint64(bs);
    if n.Bad? then Bad else Got(make(n.value), n.rest)
  }

  // The switch of DecodeFrom.  Bad covers a body that does not parse and an unknown tag.
  function GetBody(tag: nat, bs: seq<byte>): (r: Input<Record>)
    ensures r.Got? ==> |r.rest| < |bs|
  {
    if tag == TAG_COMPARATOR then
      var name := GetLengthPrefixed(bs);
      if name.Bad? then Bad else Got(Comparator(name.value), name.rest)
    else if tag == TAG_LOG_NUMBER then GetNumber(bs, (n: nat) => LogNumber(n))
    else if tag == TAG_PREV_LOG_NUMBER then GetNumber(bs, (n: nat) => PrevLogNumber(n))
    else if tag == TAG_NEXT_FILE_NUMBER then GetNumber(bs, (n: nat) => NextFile(n))
    else if tag == TAG_LAST_SEQUENCE then GetNumber(bs, (n: nat) => LastSequence(n))
    else if tag == TAG_COMPACT_POINTER then
      var level := GetLevel(bs);
      if level.Bad? then Bad else
      var key := GetLengthPrefixed(level.rest);
      if key.Bad? then Bad else Got(CompactPointer(level.value, key.value), key.rest)
    else if tag == TAG_DELETED_FILE then
      var level := GetLevel(bs);
      if level.Bad? then Bad else
      var number := GetVarint64(level.rest);
      if number.Bad? then Bad else Got(DeletedFile(level.value, number.value), number.rest)
    else if tag == TAG_NEW_FILE then
      var level := GetLevel(bs);
      if level.Bad? then Bad else
      var f := GetFile(level.rest);
      if f.Bad? then Bad else Got(NewFile(level.value, f.value), f.rest)
    else Bad
  }

  // What a parsed record does to the fields.
  function Apply(e: Fields, r: Record): Fields {
    match r
    case Comparator(name) => e.(comparator := Some(name))
    case LogNumber(n) => e.(logNumber := Some(n))
    case PrevLogNumber(n) => e.(prevLogNumber := Some(n))
    case NextFile(n) => e.(nextFileNumber := Some(n))
    case LastSequence(n) => e.(lastSequence := Some(n))
    case CompactPointer(level, key) => e.(compactPointers := e.compactPointers + [(level, key)])
    case DeletedFile(level, n) => e.(deletedFiles := e.deletedFiles + {(level, n)})
    case NewFile(level, f) => e.(newFiles := e.newFiles + [(level, f)])
  }

  // The fields after the parse loop, and whether the record was accepted.
  datatype Parsed = Parsed(fields: Fields, ok: bool)

  function Parse(bs: seq<byte>, e: Fields): Parsed
    decreases |bs|
  {
    var tag := GetVarint32(bs);
    if tag.Bad? then Parsed(e, bs == [])
    else
      var r := GetBody(tag.value, tag.rest);
      if r.Bad? then Parsed(e, false) else Parse(r.rest, Apply(e, r.value))
  }

  // ---- Round trip ----

  lemma LevelRoundTrip(level: nat, tail: seq<byte>)
    requires level < NUM_LEVELS
    ensures GetLevel(Varint(level) + tail) == Got(level, tail)
  {
    hide GetVarint32, Varint;
    Varint32RoundTrip(level, tail);
  }

  lemma FileRoundTrip(f: FileMeta, tail: seq<byte>)
    requires FileFits(f)
    ensures GetFile(FileBytes(f) + tail) == Got(f, tail)
  {
    hide GetVarint64, GetLengthPrefixed, Varint, LengthPrefixed;
    var last := LengthPrefixed(f.largest);
    var keys := LengthPrefixed(f.smallest) + last;
    Regroup(Varint(f.number), Varint(f.fileSize) + keys, tail);
    Regroup(Varint(f.fileSize), keys, tail);
    Regroup(LengthPrefixed(f.smallest), last, tail);
    Varint64RoundTrip(f.number, Varint(f.fileSize) + keys + tail);
    Varint64RoundTrip(f.fileSize, keys + tail);
    LengthPrefixedRoundTrip(f.smallest, last + tail);
    LengthPrefixedRoundTrip(f.largest, tail);
  }

  lemma BodyRoundTrip(r: Record, tail: seq<byte>)
    requires RecordFits(r)
    ensures GetBody(TagOf(r), BodyBytes(r) + tail) == Got(r, tail)
  {
    hide GetVarint64, GetLengthPrefixed, Varint, LengthPrefixed, GetLevel, GetFile, FileBytes;
    match r
    case Comparator(name) => LengthPrefixedRoundTrip(name, tail);
    case LogNumber(n) => Varint64RoundTrip(n, tail);
    case PrevLogNumber(n) => Varint64RoundTrip(n, tail);
    case NextFile(n) => Varint64RoundTrip(n, tail);
    case LastSequence(n) => Varint64RoundTrip(n, tail);
    case CompactPointer(level, key) =>
      Regroup(Varint(level), LengthPrefixed(key), tail);
      LevelRoundTrip(level, LengthPrefixed(key) + tail);
      LengthPrefixedRoundTrip(key, tail);
    case DeletedFile(level, n) =>
      Regroup(Varint(level), Varint(n), tail);
      LevelRoundTrip(level, Varint(n) + tail);
      Varint64RoundTrip(n, tail);
    case NewFile(level, f) =>
      Regroup(Varint(level), FileBytes(f), tail);
      LevelRoundTrip(level, FileBytes(f) + tail);
      FileRoundTrip(f, tail);
  }

  lemma OneRecord(r: Record, tail: seq<byte>, e: Fields)
    requires RecordFits(r)
    ensures Parse(RecordBytes(r) + tail, e) == Parse(tail, Apply(e, r))
  {
    hide GetVarint32, Varint, BodyBytes, GetBody, Apply;
    Regroup(Varint(TagOf(r)), BodyBytes(r), tail);
    Varint32RoundTrip(TagOf(r), BodyBytes(r) + tail);
    BodyRoundTrip(r, tail);
  }

  function ApplyAll(e: Fields, rs: seq<Record>): Fields
    decreases |rs|
  {
    if rs == [] then e else ApplyAll(Apply(e, rs[0]), rs[1..])
  }

  lemma {:induction false} RecordsRoundTrip(rs: seq<Record>, e: Fields)
    requires forall r :: r in rs ==> RecordFits(r)
    ensures Parse(AllBytes(rs), e) == Parsed(ApplyAll(e, rs), true)
  {
    hide RecordBytes, Apply;
    if rs != [] {
      OneRecord(rs[0], AllBytes(rs[1..]), e);
      RecordsRoundTrip(rs[1..], Apply(e, rs[0]));
    } else {
      NothingParsed(e);
    }
  }

  lemma NothingParsed(e: Fields)
    ensures Parse([], e) == Parsed(e, true)
  {
  }

  // ---- The records of an edit ----

  function OneOf(n: Option<nat>, make: nat -> Record): seq<Record> {
    if n.None? then [] else [make(n.value)]
  }

  function NameOf(e: Fields): seq<Record> {
    if e.comparator.None? then [] else [Comparator(e.comparator.value)]
  }

  function Head(e: Fields): seq<Record> {
    NameOf(e)
    + OneOf(e.logNumber, (n: nat) => LogNumber(n))
    + OneOf(e.prevLogNumber, (n: nat) => PrevLogNumber(n))
    + OneOf(e.nextFileNumber, (n: nat) => NextFile(n))
    + OneOf(e.lastSequence, (n: nat) => LastSequence(n))
  }

  function Pointers(ps: seq<(nat, KeyBytes)>): (rs: seq<Record>)
    ensures |rs| == |ps|
  {
    seq(|ps|, i requires 0 <= i < |ps| => CompactPointer(ps[i].0, ps[i].1))
  }

  function Deletions(ds: seq<(nat, nat)>): (rs: seq<Record>)
    ensures |rs| == |ds|
  {
    seq(|ds|, i requires 0 <= i < |ds| => DeletedFile(ds[i].0, ds[i].1))
  }

  function Additions(fs: seq<(nat, FileMeta)>): (rs: seq<Record>)
    ensures |rs| == |fs|
  {
    seq(|fs|, i requires 0 <= i < |fs| => NewFile(fs[i].0, fs[i].1))
  }

  // `order` is the order in which the set of deleted files is walked.
  function Records(e: Fields, order: seq<(nat, nat)>): seq<Record> {
    Head(e) + Pointers(e.compactPointers) + Deletions(order) + Additions(e.newFiles)
  }

  ghost predicate Lists(order: seq<(nat, nat)>, files: set<(nat, nat)>) {
    forall d :: d in order <==> d in files
  }

  predicate NumberFits(n: Option<nat>) {
    n.Some? ==> n.value < U64
  }

  predicate Fits(e: Fields) {
    && (e.comparator.Some? ==> |e.comparator.value| < U32)
    && NumberFits(e.logNumber) && NumberFits(e.prevLogNumber) && NumberFits(e.nextFileNumber) && NumberFits(e.lastSequence)
    && (forall p :: p in e.compactPointers ==> p.0 < NUM_LEVELS && |p.1| < U32)
    && (forall d :: d in e.deletedFiles ==> d.0 < NUM_LEVELS && d.1 < U64)
    && (forall f :: f in e.newFiles ==> f.0 < NUM_LEVELS && FileFits(f.1))
  }

  lemma RecordsFit(e: Fields, order: seq<(nat, nat)>)
    requires Fits(e) && Lists(order, e.deletedFiles)
    ensures forall r :: r in Records(e, order) ==> RecordFits(r)
  {
    hide RecordFits, FileFits, Head, Pointers, Deletions, Additions;
    HeadFits(e);
    ListsFit(e, order);
  }

  lemma HeadFits(e: Fields)
    requires Fits(e)
    ensures forall r :: r in Head(e) ==> RecordFits(r)
  {
    hide FileFits;
  }

  lemma ListsFit(e: Fields, order: seq<(nat, nat)>)
    requires Fits(e) && Lists(order, e.deletedFiles)
    ensures forall r :: r in Pointers(e.compactPointers) ==> RecordFits(r)
    ensures forall r :: r in Deletions(order) ==> RecordFits(r)
    ensures forall r :: r in Additions(e.newFiles) ==> RecordFits(r)
  {
    hide FileFits;
    forall i | 0 <= i < |order| ensures RecordFits(Deletions(order)[i]) {
      assert order[i] in e.deletedFiles;
    }
    assert forall i :: 0 <= i < |e.compactPointers| ==> e.compactPointers[i] in e.compactPointers;
    assert forall i :: 0 <= i < |e.newFiles| ==> e.newFiles[i] in e.newFiles;
  }

  lemma {:induction false} ApplyTwo(e: Fields, a: seq<Record>, b: seq<Record>)
    ensures ApplyAll(e, a + b) == ApplyAll(ApplyAll(e, a), b)
    decreases |a|
  {
    hide Apply;
    if a == [] {
      assert a + b == b;
    } else {
      assert (a + b)[1..] == a[1..] + b;
      ApplyTwo(Apply(e, a[0]), a[1..], b);
    }
  }

  lemma {:induction false} ApplyPointers(e: Fields, ps: seq<(nat, KeyBytes)>)
    ensures ApplyAll(e, Pointers(ps)) == e.(compactPointers := e.compactPointers + ps)
    decreases |ps|
  {
    if ps == [] {
      assert e.compactPointers + ps == e.compactPointers;
    } else {
      assert Pointers(ps)[1..] == Pointers(ps[1..]);
      assert e.compactPointers + ps == e.compactPointers + [ps[0]] + ps[1..];
      ApplyPointers(Apply(e, Pointers(ps)[0]), ps[1..]);
    }
  }

  lemma {:induction false} ApplyDeletions(e: Fields, ds: seq<(nat, nat)>)
    ensures ApplyAll(e, Deletions(ds)) == e.(deletedFiles := e.deletedFiles + set d | d in ds)
    decreases |ds|
  {
    if ds == [] {
      assert e.deletedFiles + (set d | d in ds) == e.deletedFiles;
    } else {
      assert Deletions(ds)[1..] == Deletions(ds[1..]);
      assert ds == [ds[0]] + ds[1..];
      assert e.deletedFiles + (set d | d in ds) == e.deletedFiles + {ds[0]} + (set d | d in ds[1..]);
      ApplyDeletions(Apply(e, Deletions(ds)[0]), ds[1..]);
    }
  }

  lemma {:induction false} ApplyAdditions(e: Fields, fs: seq<(nat, FileMeta)>)
    ensures ApplyAll(e, Additions(fs)) == e.(newFiles := e.newFiles + fs)
    decreases |fs|
  {
    if fs == [] {
      assert e.newFiles + fs == e.newFiles;
    } else {
      assert Additions(fs)[1..] == Additions(fs[1..]);
      assert e.newFiles + fs == e.newFiles + [fs[0]] + fs[1..];
      ApplyAdditions(Apply(e, Additions(fs)[0]), fs[1..]);
    }
  }

  // Clear() resets every field but the compaction pointers.
  function Clear(e: Fields): Fields {
    CLEARED.(compactPointers := e.compactPointers)
  }

  lemma ApplyOne(e: Fields, n: Option<nat>, make: nat -> Record)
    ensures ApplyAll(e, OneOf(n, make)) == if n.None? then e else Apply(e, make(n.value))
  {
    if n.Some? {
      assert ApplyAll(Apply(e, make(n.value)), []) == Apply(e, make(n.value));
      assert OneOf(n, make)[1..] == [];
    }
  }

  lemma ApplyName(e0: Fields, e: Fields)
    ensures ApplyAll(e0, NameOf(e)) == if e.comparator.None? then e0 else e0.(comparator := e.comparator)
  {
    if e.comparator.Some? {
      assert NameOf(e)[1..] == [];
    }
  }

  lemma ApplyHead(e: Fields, held: Fields)
    ensures ApplyAll(Clear(held), Head(e)) == e.(compactPointers := held.compactPointers, deletedFiles := {}, newFiles := [])
  {
    hide ApplyAll, OneOf, NameOf;
    var c0 := NameOf(e);
    ApplyName(Clear(held), e);
    var c1 := OneOf(e.logNumber, (n: nat) => LogNumber(n));
    var c2 := OneOf(e.prevLogNumber, (n: nat) => PrevLogNumber(n));
    var c3 := OneOf(e.nextFileNumber, (n: nat) => NextFile(n));
    var c4 := OneOf(e.lastSequence, (n: nat) => LastSequence(n));
    var e0 := Clear(held);
    ApplyTwo(e0, c0 + c1 + c2 + c3, c4);
    ApplyTwo(e0, c0 + c1 + c2, c3);
    ApplyTwo(e0, c0 + c1, c2);
    ApplyTwo(e0, c0, c1);
    var e1 := ApplyAll(e0, c0);
    ApplyOne(e1, e.logNumber, (n: nat) => LogNumber(n));
    var e2 := ApplyAll(e1, c1);
    ApplyOne(e2, e.prevLogNumber, (n: nat) => PrevLogNumber(n));
    var e3 := ApplyAll(e2, c2);
    ApplyOne(e3, e.nextFileNumber, (n: nat) => NextFile(n));
    var e4 := ApplyAll(e3, c3);
    ApplyOne(e4, e.lastSequence, (n: nat) => LastSequence(n));
  }

  // Decoding the bytes of an edit gives back the edit, into an object without compaction
  // pointers; pointers that the object already had stay in front.
  lemma EditRoundTrip(e: Fields, order: seq<(nat, nat)>, held: Fields)
    requires Fits(e) && Lists(order, e.deletedFiles)
    ensures Parse(AllBytes(Records(e, order)), Clear(held)) ==
              Parsed(e.(compactPointers := held.compactPointers + e.compactPointers), true)
    ensures Parse(AllBytes(Records(e, order)), Clear(held)).fields == e <==> held.compactPointers == []
  {
    hide Head, Parse, AllBytes, ApplyAll, RecordFits, Fits, Clear;
    RecordsFit(e, order);
    RecordsRoundTrip(Records(e, order), Clear(held));
    var head, ps, ds := Head(e), Pointers(e.compactPointers), Deletions(order);
    ApplyTwo(Clear(held), head + ps + ds, Additions(e.newFiles));
    ApplyTwo(Clear(held), head + ps, ds);
    ApplyTwo(Clear(held), head, ps);
    ApplyHead(e, held);
    var e1 := ApplyAll(Clear(held), head);
    ApplyPointers(e1, e.compactPointers);
    var e2 := ApplyAll(e1, ps);
    ApplyDeletions(e2, order);
    var e3 := ApplyAll(e2, ds);
    ApplyAdditions(e3, e.newFiles);
    assert {} + (set d | d in order) == e.deletedFiles && [] + e.newFiles == e.newFiles;
    PrefixOnly(held.compactPointers, e.compactPointers);
  }

  lemma PrefixOnly<T>(a: seq<T>, b: seq<T>)
    ensures a + b == b <==> a == []
  {
    assert |a + b| == |a| + |b|;
  }

  lemma {:induction false} BytesOfTwo(a: seq<Record>, b: seq<Record>)
    ensures AllBytes(a + b) == AllBytes(a) + AllBytes(b)
    decreases |a|
  {
    hide RecordBytes;
    if a == [] {
      assert a + b == b;
    } else {
      assert (a + b)[1..] == a[1..] + b;
      BytesOfTwo(a[1..], b);
      Regroup(RecordBytes(a[0]), AllBytes(a[1..]), AllBytes(b));
    }
  }

  lemma BytesOfOne(r: Record)
    ensures AllBytes([r]) == RecordBytes(r)
  {
    assert AllBytes([r][1..]) == [];
    assert RecordBytes(r) + [] == RecordBytes(r);
  }

  lemma OneMore(a: seq<Record>, r: Record)
    ensures AllBytes(a + [r]) == AllBytes(a) + RecordBytes(r)
  {
    BytesOfTwo(a, [r]);
    BytesOfOne(r);
  }

  class VersionEdit {
    var comparator: Option<seq<byte>>
    var logNumber: Option<nat>
    var prevLogNumber: Option<nat>
    var nextFileNumber: Option<nat>
    var lastSequence: Option<nat>
    var compactPointers: seq<(nat, KeyBytes)>
    var deletedFiles: set<(nat, nat)>
    var newFiles: seq<(nat, FileMeta)>

    function State(): Fields
      reads this
    {
      Fields(comparator, logNumber, prevLogNumber, nextFileNumber, lastSequence, compactPointers, deletedFiles, newFiles)
    }

    constructor ()
      ensures State() == CLEARED
    {
      comparator, logNumber, prevLogNumber, nextFileNumber, lastSequence := None, None, None, None, None;
      compactPointers, deletedFiles, newFiles := [], {}, [];
    }

    // VersionEdit::EncodeTo.  A std::set is walked in ascending order; the round trip does not
    // depend on which order it is.
    method EncodeTo() returns (dst: seq<byte>, ghost order: seq<(nat, nat)>)
      ensures Lists(order, deletedFiles) && dst == AllBytes(Records(State(), order))
    {
      hide RecordBytes, AllBytes;
      ghost var head := Head(State());
      dst := EncodeHead();
      ghost var done := head;
      for i := 0 to |compactPointers|
        invariant dst == AllBytes(done) && done == head + Pointers(compactPointers[..i])
      {
        var p := compactPointers[i];
        OneMore(done, CompactPointer(p.0, p.1));
        assert Pointers(compactPointers[..i + 1]) == Pointers(compactPointers[..i]) + [CompactPointer(p.0, p.1)];
        Regroup(head, Pointers(compactPointers[..i]), [CompactPointer(p.0, p.1)]);
        dst := dst + RecordBytes(CompactPointer(p.0, p.1));
        done := done + [CompactPointer(p.0, p.1)];
      }
      assert compactPointers[..|compactPointers|] == compactPointers;
      head := done;
      order := [];
      var rest := deletedFiles;
      while rest != {}
        invariant rest <= deletedFiles && Lists(order, deletedFiles - rest)
        invariant dst == AllBytes(done) && done == head + Deletions(order)
        decreases |rest|
      {
        var d :| d in rest;
        OneMore(done, DeletedFile(d.0, d.1));
        assert Deletions(order + [d]) == Deletions(order) + [DeletedFile(d.0, d.1)];
        Regroup(head, Deletions(order), [DeletedFile(d.0, d.1)]);
        dst := dst + RecordBytes(DeletedFile(d.0, d.1));
        done := done + [DeletedFile(d.0, d.1)];
        order := order + [d];
        rest := rest - {d};
      }
      assert deletedFiles - rest == deletedFiles;
      head := done;
      for i := 0 to |newFiles|
        invariant dst == AllBytes(done) && done == head + Additions(newFiles[..i])
      {
        var f := newFiles[i];
        OneMore(done, NewFile(f.0, f.1));
        assert Additions(newFiles[..i + 1]) == Additions(newFiles[..i]) + [NewFile(f.0, f.1)];
        Regroup(head, Additions(newFiles[..i]), [NewFile(f.0, f.1)]);
        dst := dst + RecordBytes(NewFile(f.0, f.1));
        done := done + [NewFile(f.0, f.1)];
      }
      assert newFiles[..|newFiles|] == newFiles;
    }

    method EncodeHead() returns (dst: seq<byte>)
      ensures dst == AllBytes(Head(State()))
    {
      hide RecordBytes, AllBytes;
      ghost var done: seq<Record> := [];
      dst := [];
      NoBytes();
      if comparator.Some? {
        OneMore(done, Comparator(comparator.value));
        dst := dst + RecordBytes(Comparator(comparator.value));
        done := done + [Comparator(comparator.value)];
      }
      assert done == NameOf(State());
      if logNumber.Some? {
        OneMore(done, LogNumber(logNumber.value));
        dst := dst + RecordBytes(LogNumber(logNumber.value));
        done := done + [LogNumber(logNumber.value)];
      }
      assert done == NameOf(State()) + OneOf(logNumber, (n: nat) => LogNumber(n));
      if prevLogNumber.Some? {
        OneMore(done, PrevLogNumber(prevLogNumber.value));
        dst := dst + RecordBytes(PrevLogNumber(prevLogNumber.value));
        done := done + [PrevLogNumber(prevLogNumber.value)];
      }
      if nextFileNumber.Some? {
        OneMore(done, NextFile(nextFileNumber.value));
        dst := dst + RecordBytes(NextFile(nextFileNumber.value));
        done := done + [NextFile(nextFileNumber.value)];
      }
      if lastSequence.Some? {
        OneMore(done, LastSequence(lastSequence.value));
        dst := dst + RecordBytes(LastSequence(lastSequence.value));
        done := done + [LastSequence(lastSequence.value)];
      }
      assert done == Head(State());
    }

    // VersionEdit::DecodeFrom
    method DecodeFrom(src: seq<byte>) returns (ok: bool)
      modifies this
      ensures Parsed(State(), ok) == Parse(src, Clear(old(State())))
    {
      hide Parse, Apply;
      // Clear()
      comparator, logNumber, prevLogNumber, nextFileNumber, lastSequence := None, None, None, None, None;
      deletedFiles, newFiles := {}, [];
      var input := src;
      ok := true;
      var tag := GetVarint32(input);
      while ok && tag.Got?
        invariant tag == GetVarint32(input)
        invariant ok ==> Parse(src, Clear(old(State()))) == Parse(input, State())
        invariant !ok ==> Parse(src, Clear(old(State()))) == Parsed(State(), false)
        decreases |input|, ok
      {
        ParseTurn(input, State());
        var body := GetBody(tag.value, tag.rest);
        if body.Bad? {
          ok := false;
        } else {
          Fill(body.value);
          input := body.rest;
          tag := GetVarint32(input);
        }
      }
      ParseTurn(input, State());
      ok := ok && input == [];
    }

    // The assignments of the switch.
    method Fill(r: Record)
      modifies this
      ensures State() == Apply(old(State()), r)
    {
      match r
      case Comparator(name) => comparator := Some(name);
      case LogNumber(n) => logNumber := Some(n);
      case PrevLogNumber(n) => prevLogNumber := Some(n);
      case NextFile(n) => nextFileNumber := Some(n);
      case LastSequence(n) => lastSequence := Some(n);
      case CompactPointer(level, key) => compactPointers := compactPointers + [(level, key)];
      case DeletedFile(level, n) => deletedFiles := deletedFiles + {(level, n)};
      case NewFile(level, f) => newFiles := newFiles + [(level, f)];
    }
  }

  lemma NoBytes()
    ensures AllBytes([]) == []
  {
  }

  lemma ParseTurn(bs: seq<byte>, e: Fields)
    ensures var tag := GetVarint32(bs);
      if tag.Bad? then Parse(bs, e) == Parsed(e, bs == [])
      else var r := GetBody(tag.value, tag.rest); Parse(bs, e) == if r.Bad? then Parsed(e, false) else Parse(r.rest, Apply(e, r.value))
  {
  }
}
