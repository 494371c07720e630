/**
  Appending to a log that a crash cut off: RecoverLogFile (db/db_impl.cc) with reuse_logs puts a
  log::Writer at the size of the file, whatever the last bytes are.
 */
module LogReuse {
  import opened Wrappers
  import opened Bytes
  import opened LogFormat
  import opened LogWriter
  import opened LogRoundTrip

  // ---- Where the cut went through ----

  // Where the physical record begins that a cut at `size` leaves incomplete, if the cut does not
  // fall between two: data of length `left` was being written from position p on.
  function TornFrom(p: nat, left: nat, size: nat): Option<nat>
    requires p <= size
    decreases left, OffsetInBlock(p)
  {
    var n, q := FragmentLength(p, left), p + Trailer(p);
    if size <= q then None
    else if size < q + HEADER_SIZE + n then Some(q)
    else if n == left then None
    else
      FragmentsShrink(p, left);
      TornFrom(q + HEADER_SIZE + n, left - n, size)
  }

  // The same for a log of records.
  ghost function Torn(crc: Crc, records: seq<seq<byte>>, size: nat): (torn: Option<nat>)
    requires size <= |LogBytes(crc, records)|
  {
    var k := CompleteRecords(crc, records, size);
    CompleteIff(crc, [], records, size, k);
    if k == |records| then None else TornFrom(|LogBytes(crc, records[..k])|, |records[k]|, size)
  }

  // What is appended at `size` begins in the block of the torn record, where a reader looks for
  // the rest of that.
  ghost predicate Swallows(torn: Option<nat>, size: nat) {
    torn.Some? && Trailer(size) == 0
  }

  // The bytes at q happen to be a physical record with the right checksum.
  ghost predicate Genuine(crc: Crc, file: seq<byte>, q: nat)
    requires q <= |file|
  {
    exists t, fragment: seq<byte> :: t < 256 && |fragment| < 65536 && Physical(crc, t, fragment) <= file[q..]
  }

  ghost predicate NothingFits(crc: Crc, file: seq<byte>, torn: Option<nat>) {
    torn.Some? ==> torn.value <= |file| && !Genuine(crc, file, torn.value)
  }

  // They are one only if the checksum of the bytes that now stand behind the torn header is that of
  // the bytes that stood there, or should have.
  lemma GenuineOnlyByCollision(crc: Crc, file: seq<byte>, q: nat, size: nat, t: nat, fragment: seq<byte>, t': nat, fragment': seq<byte>)
    requires t < 256 && |fragment| < 65536 && t' < 256 && |fragment'| < 65536
    requires q + HEADER_SIZE <= size <= |file|
    requires file[q..size] <= Physical(crc, t, fragment) && Physical(crc, t', fragment') <= file[q..]
    ensures t' == t && |fragment'| == |fragment|
    ensures Value(crc, [t as byte] + fragment') == Value(crc, [t as byte] + fragment)
  {
    HeaderOf(crc, t, fragment);
    HeaderOf(crc, t', fragment');
    UnmaskMask(Value(crc, [t as byte] + fragment));
    UnmaskMask(Value(crc, [t' as byte] + fragment'));
    var a, b := Physical(crc, t, fragment), Physical(crc, t', fragment');
    hide Physical, HeaderLength, HeaderType, HeaderChecksum, Value, Mask, Unmask;
    forall i | 0 <= i < HEADER_SIZE ensures a[i] == b[i] {
      assert file[q..size][i] == file[q + i] == file[q..][i];
    }
    assert a[..HEADER_SIZE] == b[..HEADER_SIZE];
  }

  // ---- What a reader makes of the torn physical record ----

  lemma TornIsBad(crc: Crc, file: seq<byte>, q: nat)
    requires q <= |file| && Trailer(q) == 0 && !Genuine(crc, file, q)
    ensures var f := ReadPhysicalAt(crc, file, q);
      var end := if BlockEnd(q) <= |file| then BlockEnd(q) else |file|;
      (f.kind == EOF && |file| < BlockEnd(q)) || (f.kind == BAD_RECORD && f.next == end)
  {
    InBlock(q, HEADER_SIZE);
    if q + HEADER_SIZE <= |file| {
      ParsedIsGenuine(crc, file, q);
      var header := file[q..q + HEADER_SIZE];
      var n := HeaderLength(header);
      hide Physical, HeaderLength, HeaderType, HeaderChecksum, Value, BlockEnd, ChecksumOk;
      if q + HEADER_SIZE + n <= |file| && ChecksumOk(HeaderChecksum(header), Value(crc, file[q + 6..q + HEADER_SIZE + n])) {
        assert Physical(crc, HeaderType(header), file[q + HEADER_SIZE..q + HEADER_SIZE + n]) <= file[q..];
      }
    }
  }

  // ---- A cut between physical records, or in their padding ----

  // Padding may be written in two parts.
  lemma PaddingSplits(crc: Crc, p: nat, size: nat, data: seq<byte>, begin: bool)
    requires p <= size <= p + Trailer(p)
    ensures LogFormat.Zeros(size - p) + Fragments(crc, size, data, begin) == Fragments(crc, p, data, begin)
  {
    hide Fragments, Piece, FragmentLength, Trailer, LogFormat.Zeros;
    PieceSplits(crc, p, size, data, begin);
    RestOf(crc, p, data, begin);
    RestOf(crc, size, data, begin);
    var n := FragmentLength(p, |data|);
    var rest := if n == |data| then [] else Fragments(crc, p + |Piece(crc, p, data, begin)|, data[n..], false);
    Regroup(LogFormat.Zeros(size - p), Piece(crc, size, data, begin), rest);
  }

  lemma RestOf(crc: Crc, p: nat, data: seq<byte>, begin: bool)
    ensures var n := FragmentLength(p, |data|);
      Fragments(crc, p, data, begin) ==
        Piece(crc, p, data, begin) + if n == |data| then [] else Fragments(crc, p + |Piece(crc, p, data, begin)|, data[n..], false)
  {
    FragmentsStep(crc, p, data, begin);
  }

  lemma PieceSplits(crc: Crc, p: nat, size: nat, data: seq<byte>, begin: bool)
    requires p <= size <= p + Trailer(p)
    ensures FragmentLength(size, |data|) == FragmentLength(p, |data|)
    ensures LogFormat.Zeros(size - p) + Piece(crc, size, data, begin) == Piece(crc, p, data, begin)
  {
    SameBlock(p, size, |data|);
    var n := FragmentLength(p, |data|);
    var phys := Physical(crc, FragmentType(begin, n == |data|), data[..n]);
    hide Physical, FragmentLength, Trailer, FragmentType, LogFormat.Zeros;
    ZerosJoin(size - p, Trailer(size));
    Regroup(LogFormat.Zeros(size - p), LogFormat.Zeros(Trailer(size)), phys);
  }

  lemma ZerosJoin(a: nat, b: nat)
    ensures LogFormat.Zeros(a) + LogFormat.Zeros(b) == LogFormat.Zeros(a + b)
  {
  }

  lemma SameBlock(p: nat, size: nat, left: nat)
    requires p <= size <= p + Trailer(p)
    ensures size + Trailer(size) == p + Trailer(p) && FragmentLength(size, left) == FragmentLength(p, left)
  {
    if size == p + Trailer(p) {
      AfterTrailer(p);
    }
  }

  lemma AfterTrailer(p: nat)
    ensures Trailer(p + Trailer(p)) == 0
  {
  }

  // A cut in the padding of a fragment loses nothing but padding.
  lemma CutInPadding(crc: Crc, file: seq<byte>, p: nat, size: nat, rec: seq<byte>, begin: bool, data: seq<byte>)
    requires p <= size <= |file| && size <= p + Trailer(p)
    requires file[p..size] <= Fragments(crc, p, rec, begin) && Fragments(crc, size, data, true) <= file[size..]
    ensures Fragments(crc, p, data, true) <= file[p..]
    ensures p + |Fragments(crc, p, data, true)| == size + |Fragments(crc, size, data, true)|
  {
    FragmentsStep(crc, p, rec, begin);
    PaddingSplits(crc, p, size, data, true);
    hide Fragments, Piece, Physical, FragmentType, FragmentLength, Trailer;
    assert file[p..size] == LogFormat.Zeros(size - p);
    assert file[p..] == file[p..size] + file[size..];
  }

  // ---- The appended record ----

  // A whole record behind anything the reader was in the middle of.
  lemma {:induction false} NewRecordIsRead(crc: Crc, file: seq<byte>, p: nat, data: seq<byte>, inFragment: bool, scratch: seq<byte>)
    requires p <= |file| && Fragments(crc, p, data, true) <= file[p..]
    ensures var r := ReadRecordAt(crc, file, p, inFragment, scratch);
      r.data == Some(data) && r.next == p + |Fragments(crc, p, data, true)|
  {
    hide Fragments, Piece, FragmentLength, ReadRecordAt, ReadPhysicalAt, OffsetInBlock, Trailer, Padded, FitsBlock, FragmentType;
    var n, piece := FragmentLength(p, |data|), Piece(crc, p, data, true);
    FragmentsStep(crc, p, data, true);
    PieceIsPrefix(file[p..], piece, Fragments(crc, p, data, true));
    PieceIsPadded(crc, p, data, true);
    var next := p + |piece|;
    CompleteIsRead(crc, file, p, FragmentType(true, n == |data|), data[..n]);
    FirstTurn(crc, file, p, data[..n], n == |data|, inFragment, scratch, next);
    if n == |data| {
      assert data[..n] == data;
    } else {
      NextIsPrefix(file, p, piece, Fragments(crc, next, data[n..], false));
      CompleteRecordIsRead(crc, file, next, data[n..], false, data[..n]);
      assert data[..n] + data[n..] == data;
    }
  }

  // A record that starts anew discards what was gathered before.
  lemma FirstTurn(crc: Crc, file: seq<byte>, p: nat, fragment: seq<byte>, end: bool, inFragment: bool, scratch: seq<byte>, next: nat)
    requires p <= |file| && ReadPhysicalAt(crc, file, p) == Found(FragmentType(true, end), fragment, next, [])
    ensures next <= |file|
    ensures var r := ReadRecordAt(crc, file, p, inFragment, scratch);
      if end then r.data == Some(fragment) && r.next == next
      else var s := ReadRecordAt(crc, file, next, true, fragment); r.data == s.data && r.next == s.next
  {
    hide ReadPhysicalAt, Lost;
  }

  // Fragments of a record whose beginning was lost are passed over.
  lemma {:induction false} RestIsSkipped(crc: Crc, file: seq<byte>, p: nat, data: seq<byte>)
    requires p <= |file| && file[p..] == Fragments(crc, p, data, false)
    ensures ReadRecordAt(crc, file, p, false, []).data == None
    decreases |data|, OffsetInBlock(p)
  {
    hide Fragments, Piece, FragmentLength, ReadRecordAt, ReadPhysicalAt, OffsetInBlock, Trailer, Padded, FitsBlock, FragmentType;
    var n, piece := FragmentLength(p, |data|), Piece(crc, p, data, false);
    FragmentsStep(crc, p, data, false);
    FragmentsShrink(p, |data|);
    PieceIsPrefix(file[p..], piece, Fragments(crc, p, data, false));
    PieceIsPadded(crc, p, data, false);
    var next := p + |piece|;
    CompleteIsRead(crc, file, p, FragmentType(false, n == |data|), data[..n]);
    SkippedTurn(crc, file, p, data[..n], n == |data|, next);
    if n == |data| {
      NothingAtEnd(crc, file);
    } else {
      NextIsPrefix(file, p, piece, Fragments(crc, next, data[n..], false));
      RestIsSkipped(crc, file, next, data[n..]);
    }
  }

  lemma SkippedTurn(crc: Crc, file: seq<byte>, p: nat, fragment: seq<byte>, end: bool, next: nat)
    requires p <= |file| && ReadPhysicalAt(crc, file, p) == Found(FragmentType(false, end), fragment, next, [])
    ensures next <= |file|
    ensures ReadRecordAt(crc, file, p, false, []).data == ReadRecordAt(crc, file, next, false, []).data
  {
    hide ReadPhysicalAt;
  }

  // The record appended in the block of a torn one is read as part of that: the reader gives the
  // block up, and with it at least the beginning of the new record.
  lemma Swallowed(crc: Crc, file: seq<byte>, q: nat, size: nat, data: seq<byte>, inFragment: bool, scratch: seq<byte>)
    requires q < size <= |file| && size < BlockEnd(q) && Trailer(q) == 0 && Trailer(size) == 0
    requires file[size..] == Fragments(crc, size, data, true) && !Genuine(crc, file, q)
    requires !inFragment ==> scratch == []
    ensures ReadRecordAt(crc, file, q, inFragment, scratch).data == None
  {
    hide Fragments, Piece, FragmentLength, ReadRecordAt, ReadPhysicalAt, Trailer, Genuine, BlockEnd;
    TornIsBad(crc, file, q);
    RestOf(crc, size, data, true);
    WhereItEnds(q, size, |data|);
    var n := FragmentLength(size, |data|);
    BadTurn(crc, file, q, inFragment, scratch);
    if ReadPhysicalAt(crc, file, q).kind == BAD_RECORD {
      if n == |data| {
        NothingAtEnd(crc, file);
      } else {
        NextIsPrefix(file, size, Piece(crc, size, data, true), Fragments(crc, BlockEnd(q), data[n..], false));
        RestIsSkipped(crc, file, BlockEnd(q), data[n..]);
      }
    }
  }

  lemma WhereItEnds(q: nat, size: nat, left: nat)
    requires q < size < BlockEnd(q) && Trailer(size) == 0
    ensures var n := FragmentLength(size, left);
      size + HEADER_SIZE + n <= BlockEnd(q) && (n < left ==> size + HEADER_SIZE + n == BlockEnd(q))
  {
  }

  lemma BadTurn(crc: Crc, file: seq<byte>, q: nat, inFragment: bool, scratch: seq<byte>)
    requires q <= |file| && ReadPhysicalAt(crc, file, q).kind in {EOF, BAD_RECORD}
    requires !inFragment ==> scratch == []
    ensures var f, r := ReadPhysicalAt(crc, file, q), ReadRecordAt(crc, file, q, inFragment, scratch);
      if f.kind == EOF then r.data == None
      else var s := ReadRecordAt(crc, file, f.next, false, []); r.data == s.data && r.next == s.next
  {
    hide ReadPhysicalAt;
  }

  // With no room for another header in the block, the new record starts in the next one.
  lemma NotSwallowed(crc: Crc, file: seq<byte>, q: nat, size: nat, data: seq<byte>, inFragment: bool, scratch: seq<byte>)
    requires q < size <= |file| && size < BlockEnd(q) && Trailer(q) == 0 && Trailer(size) > 0
    requires Fragments(crc, size, data, true) <= file[size..] && !Genuine(crc, file, q)
    requires !inFragment ==> scratch == []
    ensures var r := ReadRecordAt(crc, file, q, inFragment, scratch);
      r.data == Some(data) && r.next == size + |Fragments(crc, size, data, true)|
  {
    hide Fragments, ReadRecordAt, ReadPhysicalAt, Trailer, Genuine, BlockEnd;
    TornIsBad(crc, file, q);
    TrailerEndsBlock(q, size);
    BehindTrailer(crc, file, size, data);
    BadTurn(crc, file, q, inFragment, scratch);
    NewRecordIsRead(crc, file, size + Trailer(size), data, false, []);
  }

  lemma BehindTrailer(crc: Crc, file: seq<byte>, size: nat, data: seq<byte>)
    requires size <= |file| && Fragments(crc, size, data, true) <= file[size..]
    ensures var next := size + Trailer(size);
      && next <= |file| && Fragments(crc, next, data, true) <= file[next..]
      && next + |Fragments(crc, next, data, true)| == size + |Fragments(crc, size, data, true)|
  {
    hide Fragments, Trailer;
    var next := size + Trailer(size);
    PaddingSplits(crc, size, next, data, true);
    NextIsPrefix(file, size, LogFormat.Zeros(Trailer(size)), Fragments(crc, next, data, true));
  }

  lemma TrailerEndsBlock(q: nat, size: nat)
    requires q < size < BlockEnd(q) && Trailer(size) > 0
    ensures size + Trailer(size) == BlockEnd(q)
  {
  }

  // ---- The torn record, whatever was gathered of it ----

  lemma {:induction false} TornThenAppended(crc: Crc, file: seq<byte>, p: nat, rec: seq<byte>, begin: bool, scratch: seq<byte>,
                                            size: nat, data: seq<byte>)
    requires p <= size <= |file| && (begin ==> scratch == [])
    requires file[p..size] < Fragments(crc, p, rec, begin) && Fragments(crc, size, data, true) <= file[size..]
    requires NothingFits(crc, file, TornFrom(p, |rec|, size))
    ensures var torn, r := TornFrom(p, |rec|, size), ReadRecordAt(crc, file, p, !begin, scratch);
      && (!Swallows(torn, size) ==> r.data == Some(data) && r.next == size + |Fragments(crc, size, data, true)|)
      && (Swallows(torn, size) && file[size..] == Fragments(crc, size, data, true) ==> r.data == None)
    decreases |rec|, OffsetInBlock(p)
  {
    hide Fragments, Piece, FragmentLength, ReadRecordAt, OffsetInBlock, Trailer, Genuine, TornFrom;
    var n, q, next := FragmentLength(p, |rec|), p + Trailer(p), p + |Piece(crc, p, rec, begin)|;
    TornStep(p, |rec|, size);
    if size <= q {
      CutInPadding(crc, file, p, size, rec, begin, data);
      NewRecordIsRead(crc, file, p, data, !begin, scratch);
    } else if size < next {
      InTheBlock(p, |rec|, size);
      SamePosition(crc, file, p, !begin, scratch);
      if Swallows(Some(q), size) {
        if file[size..] == Fragments(crc, size, data, true) {
          Swallowed(crc, file, q, size, data, !begin, scratch);
        }
      } else {
        NotSwallowed(crc, file, q, size, data, !begin, scratch);
      }
    } else {
      RestOf(crc, p, rec, begin);
      FragmentsShrink(p, |rec|);
      var rest := if n == |rec| then [] else Fragments(crc, next, rec[n..], false);
      CutBehind(file, p, size, Piece(crc, p, rec, begin), rest);
      FragmentIsTaken(crc, file, p, rec, begin, scratch);
      TornThenAppended(crc, file, next, rec[n..], false, scratch + rec[..n], size, data);
    }
  }

  lemma TornStep(p: nat, left: nat, size: nat)
    requires p <= size
    ensures var n, q := FragmentLength(p, left), p + Trailer(p);
      TornFrom(p, left, size) ==
        if size <= q then None
        else if size < q + HEADER_SIZE + n then Some(q)
        else if n == left then None
        else TornFrom(q + HEADER_SIZE + n, left - n, size)
  {
  }

  lemma InTheBlock(p: nat, left: nat, size: nat)
    requires p + Trailer(p) < size < p + Trailer(p) + HEADER_SIZE + FragmentLength(p, left)
    ensures Trailer(p + Trailer(p)) == 0 && size < BlockEnd(p + Trailer(p))
  {
    AfterTrailer(p);
    InBlock(p + Trailer(p), HEADER_SIZE + FragmentLength(p, left));
  }

  lemma SamePosition(crc: Crc, file: seq<byte>, p: nat, inFragment: bool, scratch: seq<byte>)
    requires p + Trailer(p) <= |file|
    ensures ReadRecordAt(crc, file, p, inFragment, scratch) == ReadRecordAt(crc, file, p + Trailer(p), inFragment, scratch)
  {
    AfterTrailer(p);
    hide ParseAt, Trailer, Take;
    assert ReadPhysicalAt(crc, file, p) == ReadPhysicalAt(crc, file, p + Trailer(p));
  }

  lemma CutBehind(file: seq<byte>, p: nat, size: nat, piece: seq<byte>, rest: seq<byte>)
    requires p + |piece| <= size <= |file| && file[p..size] < piece + rest
    ensures piece <= file[p..] && file[p + |piece|..size] < rest
  {
    var cut := file[p..size];
    assert cut[..|piece|] == (piece + rest)[..|piece|] == piece;
    assert file[p..][..|piece|] == cut[..|piece|];
    assert file[p + |piece|..size] == cut[|piece|..] && (piece + rest)[|piece|..] == rest;
  }

  // ---- Whole logs ----

  // The records that are complete are read from any file that begins with them.
  lemma {:induction false} CompleteAreRead(crc: Crc, file: seq<byte>, records: seq<seq<byte>>)
    requires LogBytes(crc, records) <= file
    ensures ReadAllAt(crc, file, 0).records == records + ReadAllAt(crc, file, |LogBytes(crc, records)|).records
  {
    hide Fragments, ReadRecordAt, ReadAllAt, Appended;
    if records != [] {
      var init, last := records[..|records| - 1], records[|records| - 1];
      var before := LogBytes(crc, init);
      AppendLast(crc, [], records);
      CompleteAreRead(crc, file, init);
      OneMoreIsRead(crc, file, before, last);
      OneMore(init, last, ReadAllAt(crc, file, |LogBytes(crc, records)|).records);
      assert init + [last] == records;
    } else {
      NothingAppended(crc, [], records);
      assert records[..0] == records;
    }
  }

  lemma OneMoreIsRead(crc: Crc, file: seq<byte>, before: seq<byte>, data: seq<byte>)
    requires before + Fragments(crc, |before|, data, true) <= file
    ensures var next := |before| + |Fragments(crc, |before|, data, true)|;
            ReadAllAt(crc, file, |before|).records == [data] + ReadAllAt(crc, file, next).records
  {
    hide Fragments, ReadRecordAt;
    NextIsPrefix(file, 0, before, Fragments(crc, |before|, data, true));
    CompleteRecordIsRead(crc, file, |before|, data, true, []);
    assert [] + data == data;
  }

  lemma OneMore(init: seq<seq<byte>>, last: seq<byte>, rest: seq<seq<byte>>)
    ensures init + ([last] + rest) == init + [last] + rest
  {
  }

  // What reuse_logs leads to: a log is cut off at `size`, and more records are added there.
  function Reused(crc: Crc, records: seq<seq<byte>>, size: nat, more: seq<seq<byte>>): seq<byte>
    requires size <= |LogBytes(crc, records)|
  {
    Appended(crc, LogBytes(crc, records)[..size], more)
  }

  // What is left of the log, and what comes behind it.
  lemma FrontPart(crc: Crc, records: seq<seq<byte>>, size: nat)
    requires size <= |LogBytes(crc, records)|
    ensures var cut, k := LogBytes(crc, records)[..size], CompleteRecords(crc, records, size);
      var done := LogBytes(crc, records[..k]);
      && done <= cut
      && (if k == |records| then done == cut else cut[|done|..] < Fragments(crc, |done|, records[k], true))
  {
    var k := CompleteRecords(crc, records, size);
    CompleteIff(crc, [], records, size, k);
    AppendPrefix(crc, [], records, k);
    hide Fragments, Appended, CompleteBehind;
    if k < |records| {
      AppendStep(crc, [], records, k);
      AppendPrefix(crc, [], records, k + 1);
      CompleteIff(crc, [], records, size, k + 1);
      FileFrom(LogBytes(crc, records[..k]), Fragments(crc, |LogBytes(crc, records[..k])|, records[k], true), LogBytes(crc, records), size);
    } else {
      assert records[..k] == records;
    }
  }

  lemma BackPart(crc: Crc, before: seq<byte>, more: seq<seq<byte>>)
    requires more != []
    ensures BehindIs(Appended(crc, before, more), before, Fragments(crc, |before|, more[0], true))
    ensures Appended(crc, before, more[..1]) == before + Fragments(crc, |before|, more[0], true)
    ensures |more| == 1 ==> Appended(crc, before, more)[|before|..] == Fragments(crc, |before|, more[0], true)
  {
    hide Fragments, Appended;
    AppendPrefix(crc, before, more, 1);
    AppendFirst(crc, before, more);
    Behind(Appended(crc, before, more), before, Fragments(crc, |before|, more[0], true));
  }

  ghost predicate BehindIs(file: seq<byte>, before: seq<byte>, bytes: seq<byte>) {
    before <= file && bytes <= file[|before|..]
  }

  lemma AppendFirst(crc: Crc, before: seq<byte>, more: seq<seq<byte>>)
    requires more != []
    ensures Appended(crc, before, more[..1]) == before + Fragments(crc, |before|, more[0], true)
    ensures |more| == 1 ==> more[..1] == more
  {
    hide Fragments;
    var first := more[..1];
    assert first[..|first| - 1] == [] && first[|first| - 1] == more[0];
  }

  lemma Behind(file: seq<byte>, before: seq<byte>, bytes: seq<byte>)
    requires before + bytes <= file
    ensures BehindIs(file, before, bytes)
    ensures file == before + bytes ==> file[|before|..] == bytes
  {
    assert file[|before|..|before + bytes|] == (before + bytes)[|before|..] == bytes;
  }

  lemma Parts(crc: Crc, records: seq<seq<byte>>, size: nat, more: seq<seq<byte>>)
    requires size <= |LogBytes(crc, records)| && more != []
    ensures var file, k := Reused(crc, records, size, more), CompleteRecords(crc, records, size);
      var p := |LogBytes(crc, records[..k])|;
      && p <= size <= |file| && LogBytes(crc, records[..k]) <= file
      && (if k == |records| then p == size else file[p..size] < Fragments(crc, p, records[k], true))
  {
    hide Fragments, Appended, CompleteBehind;
    var before, file := LogBytes(crc, records)[..size], Reused(crc, records, size, more);
    FrontPart(crc, records, size);
    BackPart(crc, before, more);
    var p := |LogBytes(crc, records[..CompleteRecords(crc, records, size)])|;
    assert before == file[..size];
    assert before[p..] == file[p..size];
  }

  // As long as the next record does not go to the block of a torn one, all records added from now
  // on are read behind those that were complete.
  lemma ReuseIsSafe(crc: Crc, records: seq<seq<byte>>, size: nat, more: seq<seq<byte>>)
    requires size <= |LogBytes(crc, records)| && more != []
    requires !Swallows(Torn(crc, records, size), size)
    requires NothingFits(crc, Reused(crc, records, size, more), Torn(crc, records, size))
    ensures ReadAllAt(crc, Reused(crc, records, size, more), 0).records == records[..CompleteRecords(crc, records, size)] + more
  {
    hide Fragments, Swallows, NothingFits, ReadRecordAt, Appended;
    var file, k := Reused(crc, records, size, more), CompleteRecords(crc, records, size);
    var before := LogBytes(crc, records)[..size];
    Parts(crc, records, size, more);
    BackPart(crc, before, more);
    CompleteAreRead(crc, file, records[..k]);
    if k == |records| {
      ReadsAppended(crc, before, more, 0);
      NothingAppended(crc, before, more);
    } else {
      TornThenAppended(crc, file, |LogBytes(crc, records[..k])|, records[k], true, [], size, more[0]);
      ReadsAppended(crc, before, more, 1);
      assert [more[0]] + more[1..] == more;
    }
  }

  lemma NothingAppended(crc: Crc, before: seq<byte>, more: seq<seq<byte>>)
    ensures Appended(crc, before, more[..0]) == before && more[0..] == more
  {
  }

  // Exactly then: otherwise the first record added is lost, and a write that was acknowledged with it.
  lemma AppendedIsReadIff(crc: Crc, records: seq<seq<byte>>, size: nat, data: seq<byte>)
    requires size <= |LogBytes(crc, records)|
    requires NothingFits(crc, Reused(crc, records, size, [data]), Torn(crc, records, size))
    ensures var k := CompleteRecords(crc, records, size);
      ReadAllAt(crc, Reused(crc, records, size, [data]), 0).records ==
        records[..k] + if Swallows(Torn(crc, records, size), size) then [] else [data]
  {
    var file, k := Reused(crc, records, size, [data]), CompleteRecords(crc, records, size);
    if Swallows(Torn(crc, records, size), size) {
      hide Fragments, ReadRecordAt, Appended;
      Parts(crc, records, size, [data]);
      BackPart(crc, LogBytes(crc, records)[..size], [data]);
      CompleteAreRead(crc, file, records[..k]);
      TornThenAppended(crc, file, |LogBytes(crc, records[..k])|, records[k], true, [], size, data);
    } else {
      ReuseIsSafe(crc, records, size, [data]);
    }
  }

  // A log cut off in its only record, behind the header, and a record added there: it is lost.  The
  // checksum of this example is the last byte.
  const LastByte: Crc := (c: Word, b: byte) => b as Word

  lemma AddedRecordIsLost()
    ensures HEADER_SIZE < |LogBytes(LastByte, [[0]])|
    ensures ReadAllAt(LastByte, Reused(LastByte, [[0]], HEADER_SIZE, [[1]]), 0).records == []
  {
    hide Fragments, Physical, Appended, TornFrom, ReadAllAt;
    var crc, records, data := LastByte, [[0]], [1];
    var whole, added := Physical(crc, FULL_TYPE, [0]), Physical(crc, FULL_TYPE, data);
    OneRecord(crc, [], [0]);
    assert [] + whole == whole;
    OneRecord(crc, whole[..HEADER_SIZE], data);
    var file := Reused(crc, records, HEADER_SIZE, [data]);
    assert file == whole[..HEADER_SIZE] + added;
    CompleteIff(crc, [], records, HEADER_SIZE, 1);
    assert records[..1] == records;
    NothingAppended(crc, [], records);
    assert CompleteRecords(crc, records, HEADER_SIZE) == 0;
    assert Torn(crc, records, HEADER_SIZE) == TornFrom(0, 1, HEADER_SIZE);
    CutBehindHeader();
    NothingFitsThere(file);
    AppendedIsReadIff(crc, records, HEADER_SIZE, data);
  }

  lemma CutBehindHeader()
    ensures TornFrom(0, 1, HEADER_SIZE) == Some(0) && Trailer(HEADER_SIZE) == 0
  {
  }

  lemma OneRecord(crc: Crc, before: seq<byte>, data: seq<byte>)
    requires |data| == 1 && |before| <= HEADER_SIZE
    ensures Appended(crc, before, [data]) == before + Physical(crc, FULL_TYPE, data)
  {
    hide Fragments, Piece, Physical, Appended;
    AppendFirst(crc, before, [data]);
    OneFragment(crc, |before|, data);
  }

  lemma OneFragment(crc: Crc, p: nat, data: seq<byte>)
    requires |data| == 1 && p <= HEADER_SIZE
    ensures Fragments(crc, p, data, true) == Physical(crc, FULL_TYPE, data)
  {
    FragmentsStep(crc, p, data, true);
    hide Fragments, Physical;
    assert data[..1] == data;
    assert LogFormat.Zeros(0) + Physical(crc, FULL_TYPE, data) == Physical(crc, FULL_TYPE, data);
  }

  lemma NothingFitsThere(file: seq<byte>)
    requires file == Physical(LastByte, FULL_TYPE, [0])[..HEADER_SIZE] + Physical(LastByte, FULL_TYPE, [1])
    ensures !Genuine(LastByte, file, 0)
  {
    FirstByte();
    hide Physical;
    assert file[0..HEADER_SIZE] == Physical(LastByte, FULL_TYPE, [0])[..HEADER_SIZE];
    forall t, fragment: seq<byte> | t < 256 && |fragment| < 65536 && Physical(LastByte, t, fragment) <= file[0..]
      ensures false
    {
      OnlyZeroFits(file, t, fragment);
      assert false;
    }
  }

  lemma OnlyZeroFits(file: seq<byte>, t: nat, fragment: seq<byte>)
    requires t < 256 && |fragment| < 65536 && HEADER_SIZE <= |file|
    requires file[0..HEADER_SIZE] <= Physical(LastByte, FULL_TYPE, [0]) && Physical(LastByte, t, fragment) <= file[0..]
    ensures HEADER_SIZE < |file| && file[HEADER_SIZE] == 0
  {
    GenuineOnlyByCollision(LastByte, file, 0, HEADER_SIZE, FULL_TYPE, [0], t, fragment);
    HeaderOf(LastByte, t, fragment);
    var bytes := Physical(LastByte, t, fragment);
    hide Physical;
    assert bytes[HEADER_SIZE] == fragment[0];
    assert ([FULL_TYPE as byte] + fragment)[1] == fragment[0];
  }

  lemma FirstByte()
    ensures Physical(LastByte, FULL_TYPE, [1])[0] == 0xd8
  {
    assert [FULL_TYPE as byte] + [1] == [1, 1];
    assert Value(LastByte, [1, 1]) == 1;
  }

  // Cut at the end of a record, or in the trailer behind it, the file is as if nothing had been
  // torn: nothing is reported either.
  lemma CleanCut(crc: Crc, records: seq<seq<byte>>, size: nat, more: seq<seq<byte>>)
    requires size <= |LogBytes(crc, records)| && more != []
    requires var p := |LogBytes(crc, records[..CompleteRecords(crc, records, size)])|; size <= p + Trailer(p)
    ensures Torn(crc, records, size) == None
    ensures Reused(crc, records, size, more) == LogBytes(crc, records[..CompleteRecords(crc, records, size)] + more)
    decreases more
  {
    hide Fragments, CompleteBehind, Trailer, Appended;
    var k := CompleteRecords(crc, records, size);
    var done, init := LogBytes(crc, records[..k]), more[..|more| - 1];
    FrontPart(crc, records, size);
    if k < |records| {
      TornStep(|done|, |records[k]|, size);
    }
    AppendLast(crc, LogBytes(crc, records)[..size], more);
    AppendLast(crc, [], records[..k] + more);
    assert (records[..k] + more)[..|records[..k] + more| - 1] == records[..k] + init;
    if init == [] {
      assert records[..k] + init == records[..k];
      CutBehindRecord(crc, done, LogBytes(crc, records)[..size], if k < |records| then records[k] else [], more[0]);
    } else {
      CleanCut(crc, records, size, init);
    }
  }

  lemma AppendLast(crc: Crc, before: seq<byte>, more: seq<seq<byte>>)
    requires more != []
    ensures var init := Appended(crc, before, more[..|more| - 1]);
            Appended(crc, before, more) == init + Fragments(crc, |init|, more[|more| - 1], true)
    ensures Appended(crc, before, []) == before
  {
  }

  lemma CutBehindRecord(crc: Crc, done: seq<byte>, cut: seq<byte>, rec: seq<byte>, data: seq<byte>)
    requires done <= cut && |cut| <= |done| + Trailer(|done|)
    requires cut == done || cut[|done|..] <= Fragments(crc, |done|, rec, true)
    ensures cut + Fragments(crc, |cut|, data, true) == done + Fragments(crc, |done|, data, true)
  {
    hide Fragments, Piece, Physical, FragmentType, FragmentLength, Trailer;
    if cut != done {
      var p, size := |done|, |cut|;
      PaddingSplits(crc, p, size, data, true);
      FragmentsStep(crc, p, rec, true);
      assert cut[p..] == LogFormat.Zeros(size - p);
      Regroup(done, LogFormat.Zeros(size - p), Fragments(crc, size, data, true));
      assert done + LogFormat.Zeros(size - p) == cut;
    }
  }
}
