/**
  Reading a log gives back the records that were added, and reading any prefix of its bytes gives
  back the records that are complete in it, with nothing reported as corrupt.
 */
module LogRoundTrip {
  import opened Wrappers
  import opened Bytes
  import opened LogFormat
  import opened LogWriter

  // ---- One physical record ----

  ghost predicate FitsBlock(p: nat, fragment: seq<byte>) {
    (p + Trailer(p)) % BLOCK_SIZE + HEADER_SIZE + |fragment| <= BLOCK_SIZE
  }

  // A trailer, if one is due, and a physical record.
  ghost function Padded(crc: Crc, p: nat, t: nat, fragment: seq<byte>): (bs: seq<byte>)
    requires t < 256 && |fragment| < 65536
    ensures |bs| == Trailer(p) + HEADER_SIZE + |fragment|
  {
    LogFormat.Zeros(Trailer(p)) + Physical(crc, t, fragment)
  }

  // The header of what EmitPhysicalRecord writes.
  lemma HeaderOf(crc: Crc, t: nat, fragment: seq<byte>)
    requires t < 256 && |fragment| < 65536
    ensures var bs := Physical(crc, t, fragment);
      && HeaderLength(bs[..HEADER_SIZE]) == |fragment| && HeaderType(bs[..HEADER_SIZE]) == t
      && HeaderChecksum(bs[..HEADER_SIZE]) == Mask(Value(crc, [t as byte] + fragment))
      && bs[6..] == [t as byte] + fragment && bs[HEADER_SIZE..] == fragment
  {
    hide Mask, Value, LittleEndian, FromLittleEndian, Pow2;
    var bs := Physical(crc, t, fragment);
    var c := Mask(Value(crc, [t as byte] + fragment));
    WordSizes();
    LittleEndianRoundTrip(c, 4);
    assert bs[..HEADER_SIZE][..4] == LittleEndian(c, 4);
  }

  lemma InBlock(q: nat, n: nat)
    requires q % BLOCK_SIZE + n <= BLOCK_SIZE
    ensures q + n <= BlockEnd(q)
  {
  }

  // The start of what follows the padding, whichever of the file and the padded record is longer.
  lemma BehindPadding(file: seq<byte>, p: nat, pad: seq<byte>, bs: seq<byte>, n: nat)
    requires p <= |file| && n <= |bs| && p + |pad| + n <= |file|
    requires pad + bs <= file[p..] || file[p..] <= pad + bs
    ensures file[p + |pad|..p + |pad| + n] == bs[..n]
  {
    forall i | 0 <= i < n ensures file[p + |pad| + i] == bs[i] {
      assert file[p..][|pad| + i] == (pad + bs)[|pad| + i];
    }
  }

  // A complete physical record is read back.
  lemma CompleteIsRead(crc: Crc, file: seq<byte>, p: nat, t: nat, fragment: seq<byte>)
    requires p <= |file| && FULL_TYPE <= t <= LAST_TYPE && |fragment| < 65536 && FitsBlock(p, fragment)
    requires Padded(crc, p, t, fragment) <= file[p..]
    ensures ReadPhysicalAt(crc, file, p) == Found(t, fragment, p + |Padded(crc, p, t, fragment)|, [])
  {
    var q := p + Trailer(p);
    var bs := Physical(crc, t, fragment);
    BehindPadding(file, p, LogFormat.Zeros(Trailer(p)), bs, |bs|);
    HeaderOf(crc, t, fragment);
    InBlock(q, |bs|);
    ParseComplete(crc, file, q, t, fragment);
  }

  lemma ParseComplete(crc: Crc, file: seq<byte>, q: nat, t: nat, fragment: seq<byte>)
    requires FULL_TYPE <= t <= LAST_TYPE && |fragment| < 65536 && q + HEADER_SIZE + |fragment| <= |file|
    requires q + HEADER_SIZE + |fragment| <= BlockEnd(q)
    requires file[q..q + HEADER_SIZE + |fragment|] == Physical(crc, t, fragment)
    ensures ParseAt(crc, file, q) == Found(t, fragment, q + HEADER_SIZE + |fragment|, [])
  {
    hide Physical, HeaderLength, HeaderType, HeaderChecksum, Value, Mask, Unmask, BlockEnd;
    var bs, n := Physical(crc, t, fragment), HEADER_SIZE + |fragment|;
    HeaderOf(crc, t, fragment);
    UnmaskMask(Value(crc, [t as byte] + fragment));
    Subslice(file, q, q + n, 0, HEADER_SIZE);
    Subslice(file, q, q + n, 6, n);
    Subslice(file, q, q + n, HEADER_SIZE, n);
    assert bs[6..n] == bs[6..] && bs[HEADER_SIZE..n] == bs[HEADER_SIZE..] && bs[0..HEADER_SIZE] == bs[..HEADER_SIZE];
  }

  // What is left of a physical record that was cut off reads as the end of the file.
  lemma CutOffIsEnd(crc: Crc, file: seq<byte>, p: nat, t: nat, fragment: seq<byte>)
    requires p <= |file| && t < 256 && |fragment| < 65536 && FitsBlock(p, fragment)
    requires file[p..] < Padded(crc, p, t, fragment)
    ensures ReadPhysicalAt(crc, file, p).kind == EOF && ReadPhysicalAt(crc, file, p).drops == []
  {
    var q := p + Trailer(p);
    var bs := Physical(crc, t, fragment);
    if q + HEADER_SIZE <= |file| {
      BehindPadding(file, p, LogFormat.Zeros(Trailer(p)), bs, HEADER_SIZE);
      HeaderOf(crc, t, fragment);
      InBlock(q, |bs|);
      hide Physical, HeaderLength, Value, BlockEnd, ChecksumOk;
    }
  }

  // ---- Whole records ----

  // A fragment, as a padded physical record.
  lemma PieceIsPadded(crc: Crc, p: nat, data: seq<byte>, begin: bool)
    ensures var n := FragmentLength(p, |data|);
      && Piece(crc, p, data, begin) == Padded(crc, p, FragmentType(begin, n == |data|), data[..n])
      && FitsBlock(p, data[..n]) && FULL_TYPE <= FragmentType(begin, n == |data|) <= LAST_TYPE
  {
  }

  // One turn of ReadRecord, when the physical record has nothing to report.
  lemma OneTurn(crc: Crc, file: seq<byte>, p: nat, inFragment: bool, scratch: seq<byte>, kind: nat, fragment: seq<byte>, next: nat)
    requires p <= |file| && ReadPhysicalAt(crc, file, p) == Found(kind, fragment, next, [])
    ensures next <= |file|
    ensures var t := Take(kind, fragment, inFragment, scratch);
      && (t.Done? && t.drops == [] ==> ReadRecordAt(crc, file, p, inFragment, scratch) == Record(t.data, next, []))
      && (t.More? && t.drops == [] ==>
           ReadRecordAt(crc, file, p, inFragment, scratch) == ReadRecordAt(crc, file, next, t.inFragment, t.scratch))
  {
    hide ReadPhysicalAt, Take;
    var t := Take(kind, fragment, inFragment, scratch);
    if t.More? && t.drops == [] {
      ReportNothing(ReadRecordAt(crc, file, next, t.inFragment, t.scratch));
    }
  }

  lemma ReportNothing(r: Record)
    ensures Report([], r) == r && Report([] + [], r) == r
  {
    assert [] + r.drops == r.drops;
  }

  // One turn of ReadRecord over a complete fragment.
  lemma FragmentIsTaken(crc: Crc, file: seq<byte>, p: nat, data: seq<byte>, begin: bool, scratch: seq<byte>)
    requires p <= |file| && Piece(crc, p, data, begin) <= file[p..] && (begin ==> scratch == [])
    ensures var n, next := FragmentLength(p, |data|), p + |Piece(crc, p, data, begin)|;
      && next <= |file|
      && ReadRecordAt(crc, file, p, !begin, scratch) ==
           if n == |data| then Record(Some(scratch + data), next, [])
           else ReadRecordAt(crc, file, next, true, scratch + data[..n])
  {
    hide Piece, Padded, FragmentLength, FitsBlock, ReadPhysicalAt, Trailer, ReadRecordAt, Take, FragmentType;
    var n := FragmentLength(p, |data|);
    var end := n == |data|;
    var t, fragment, next := FragmentType(begin, end), data[..n], p + |Piece(crc, p, data, begin)|;
    PieceIsPadded(crc, p, data, begin);
    CompleteIsRead(crc, file, p, t, fragment);
    TakeFragment(begin, end, fragment, scratch);
    OneTurn(crc, file, p, !begin, scratch, t, fragment, next);
    if end {
      assert fragment == data;
      assert ReadRecordAt(crc, file, p, !begin, scratch) == Record(Some(scratch + data), next, []);
    } else {
      assert ReadRecordAt(crc, file, p, !begin, scratch) == ReadRecordAt(crc, file, next, true, scratch + data[..n]);
    }
  }

  lemma TakeFragment(begin: bool, end: bool, fragment: seq<byte>, scratch: seq<byte>)
    requires begin ==> scratch == []
    ensures Take(FragmentType(begin, end), fragment, !begin, scratch) ==
              if end then Done(Some(scratch + fragment), []) else More(true, scratch + fragment, [])
  {
    assert begin ==> scratch + fragment == fragment;
  }

  // A record that is complete in the file is read back, whatever was gathered of it before.
  lemma {:induction false} CompleteRecordIsRead(crc: Crc, file: seq<byte>, p: nat, data: seq<byte>, begin: bool, scratch: seq<byte>)
    requires p <= |file| && Fragments(crc, p, data, begin) <= file[p..] && (begin ==> scratch == [])
    ensures ReadRecordAt(crc, file, p, !begin, scratch) ==
              Record(Some(scratch + data), p + |Fragments(crc, p, data, begin)|, [])
    decreases |data|, OffsetInBlock(p)
  {
    hide Fragments, Piece, FragmentLength, ReadRecordAt, OffsetInBlock, Trailer;
    var n, piece := FragmentLength(p, |data|), Piece(crc, p, data, begin);
    FragmentsStep(crc, p, data, begin);
    FragmentsShrink(p, |data|);
    PieceIsPrefix(file[p..], piece, Fragments(crc, p, data, begin));
    FragmentIsTaken(crc, file, p, data, begin, scratch);
    if n < |data| {
      NextIsPrefix(file, p, piece, Fragments(crc, p + |piece|, data[n..], false));
      CompleteRecordIsRead(crc, file, p + |piece|, data[n..], false, scratch + data[..n]);
      assert scratch + data[..n] + data[n..] == scratch + data;
    }
  }

  // A record that is cut off is not read, and not reported either.
  lemma {:induction false} CutOffRecordIsNotRead(crc: Crc, file: seq<byte>, p: nat, data: seq<byte>, begin: bool, scratch: seq<byte>)
    requires p <= |file| && file[p..] < Fragments(crc, p, data, begin) && (begin ==> scratch == [])
    ensures ReadRecordAt(crc, file, p, !begin, scratch).data == None && ReadRecordAt(crc, file, p, !begin, scratch).drops == []
    decreases |data|, OffsetInBlock(p)
  {
    hide Fragments, Piece, FragmentLength, OffsetInBlock, Trailer, ReadRecordAt;
    var n, piece := FragmentLength(p, |data|), Piece(crc, p, data, begin);
    FragmentsStep(crc, p, data, begin);
    FragmentsShrink(p, |data|);
    if |file| - p < |piece| {
      PieceIsPadded(crc, p, data, begin);
      assert file[p..] < piece;
      hide ReadPhysicalAt, Padded;
      CutOffIsEnd(crc, file, p, FragmentType(begin, n == |data|), data[..n]);
      EndOfFile(crc, file, p, !begin, scratch);
    } else {
      assert piece <= file[p..];
      FragmentIsTaken(crc, file, p, data, begin, scratch);
      NextIsCutOff(file, p, piece, Fragments(crc, p + |piece|, data[n..], false));
      CutOffRecordIsNotRead(crc, file, p + |piece|, data[n..], false, scratch + data[..n]);
    }
  }

  lemma EndOfFile(crc: Crc, file: seq<byte>, p: nat, inFragment: bool, scratch: seq<byte>)
    requires p <= |file| && ReadPhysicalAt(crc, file, p).kind == EOF && ReadPhysicalAt(crc, file, p).drops == []
    ensures ReadRecordAt(crc, file, p, inFragment, scratch).data == None
    ensures ReadRecordAt(crc, file, p, inFragment, scratch).drops == []
  {
    hide ReadPhysicalAt;
  }

  lemma NextIsCutOff(file: seq<byte>, p: nat, piece: seq<byte>, rest: seq<byte>)
    requires p + |piece| <= |file| && file[p..] < piece + rest
    ensures file[p + |piece|..] < rest
  {
    assert file[p + |piece|..] == file[p..][|piece|..];
    assert rest == (piece + rest)[|piece|..];
  }

  lemma PieceIsPrefix(x: seq<byte>, piece: seq<byte>, all: seq<byte>)
    requires piece <= all <= x
    ensures piece <= x
  {
  }

  lemma NextIsPrefix(file: seq<byte>, p: nat, piece: seq<byte>, rest: seq<byte>)
    requires p <= |file| && piece + rest <= file[p..]
    ensures p + |piece| <= |file| && rest <= file[p + |piece|..]
  {
    assert file[p + |piece|..] == file[p..][|piece|..];
    assert rest == (piece + rest)[|piece|..];
  }

  // ---- Whole logs ----

  // How many of the records behind `before` are complete in the first `size` bytes.
  ghost function CompleteBehind(crc: Crc, before: seq<byte>, records: seq<seq<byte>>, size: nat): (k: nat)
    ensures k <= |records|
  {
    if records == [] || |Appended(crc, before, records)| <= size then |records|
    else CompleteBehind(crc, before, records[..|records| - 1], size)
  }

  ghost function CompleteRecords(crc: Crc, records: seq<seq<byte>>, size: nat): (k: nat)
    ensures k <= |records|
  {
    CompleteBehind(crc, [], records, size)
  }

  lemma AppendStep(crc: Crc, before: seq<byte>, records: seq<seq<byte>>, k: nat)
    requires k < |records|
    ensures var file := Appended(crc, before, records[..k]);
            Appended(crc, before, records[..k + 1]) == file + Fragments(crc, |file|, records[k], true)
  {
    assert records[..k + 1][..k] == records[..k];
  }

  lemma {:induction false} AppendPrefix(crc: Crc, before: seq<byte>, records: seq<seq<byte>>, k: nat)
    requires k <= |records|
    ensures Appended(crc, before, records[..k]) <= Appended(crc, before, records)
    decreases |records| - k
  {
    if k == |records| {
      assert records[..k] == records;
    } else {
      AppendStep(crc, before, records, k);
      AppendPrefix(crc, before, records, k + 1);
    }
  }

  // Exactly the complete records end within the first `size` bytes.
  lemma {:induction false} CompleteIff(crc: Crc, before: seq<byte>, records: seq<seq<byte>>, size: nat, k: nat)
    requires k <= |records| && |before| <= size
    ensures |Appended(crc, before, records[..k])| <= size <==> k <= CompleteBehind(crc, before, records, size)
  {
    AppendPrefix(crc, before, records, k);
    if records != [] && |Appended(crc, before, records)| > size {
      var init := records[..|records| - 1];
      if k < |records| {
        assert init[..k] == records[..k];
        CompleteIff(crc, before, init, size, k);
      } else {
        assert records[..k] == records;
      }
    }
  }

  // Reading on from the end of record k - 1.
  lemma {:induction false} ReadsOn(crc: Crc, before: seq<byte>, records: seq<seq<byte>>, size: nat, k: nat)
    requires |before| <= size <= |Appended(crc, before, records)| && k <= CompleteBehind(crc, before, records, size)
    requires |Appended(crc, before, records[..k])| <= size
    ensures ReadAllAt(crc, Appended(crc, before, records)[..size], |Appended(crc, before, records[..k])|) ==
              Contents(records[k..CompleteBehind(crc, before, records, size)], [])
    decreases |records| - k
  {
    hide Appended, Fragments, ReadRecordAt, CompleteBehind;
    var file, p := Appended(crc, before, records)[..size], |Appended(crc, before, records[..k])|;
    var complete := CompleteBehind(crc, before, records, size);
    CompleteIff(crc, before, records, size, k);
    if k == |records| {
      assert records[..k] == records;
      NothingAtEnd(crc, file);
      assert ReadAllAt(crc, file, p) == Contents(records[k..complete], []);
    } else {
      var bytes, next := Fragments(crc, p, records[k], true), |Appended(crc, before, records[..k + 1])|;
      AppendStep(crc, before, records, k);
      AppendPrefix(crc, before, records, k + 1);
      CompleteIff(crc, before, records, size, k + 1);
      FileFrom(Appended(crc, before, records[..k]), bytes, Appended(crc, before, records), size);
      if next <= size {
        CompleteRecordIsRead(crc, file, p, records[k], true, []);
        ReadsOn(crc, before, records, size, k + 1);
        assert [] + records[k] == records[k] && [records[k]] + records[k + 1..complete] == records[k..complete];
        assert ReadAllAt(crc, file, p) == Contents(records[k..complete], []);
      } else {
        CutOffRecordIsNotRead(crc, file, p, records[k], true, []);
        assert ReadAllAt(crc, file, p) == Contents(records[k..complete], []);
      }
    }
  }

  lemma FileFrom(before: seq<byte>, bytes: seq<byte>, all: seq<byte>, size: nat)
    requires before + bytes <= all && |before| <= size <= |all|
    ensures |before + bytes| <= size ==> bytes <= all[..size][|before|..]
    ensures |before + bytes| > size ==> all[..size][|before|..] < bytes
  {
    var rest := all[..size][|before|..];
    assert forall i :: 0 <= i < |rest| && i < |bytes| ==> rest[i] == (before + bytes)[|before| + i] == bytes[i];
  }

  lemma NothingAtEnd(crc: Crc, file: seq<byte>)
    ensures ReadRecordAt(crc, file, |file|, false, []) == Record(None, |file|, [])
  {
  }

  // Reading any prefix of a log gives back the records that are complete in it, and reports
  // nothing; in particular reading all of it gives back all records.
  lemma ReadsPrefix(crc: Crc, records: seq<seq<byte>>, size: nat)
    requires size <= |LogBytes(crc, records)|
    ensures ReadAllAt(crc, LogBytes(crc, records)[..size], 0) == Contents(records[..CompleteRecords(crc, records, size)], [])
  {
    assert records[..0] == [];
    CompleteIff(crc, [], records, size, 0);
    ReadsOn(crc, [], records, size, 0);
    assert records[0..CompleteRecords(crc, records, size)] == records[..CompleteRecords(crc, records, size)];
  }

  lemma ReadsBack(crc: Crc, records: seq<seq<byte>>)
    ensures ReadAllAt(crc, LogBytes(crc, records), 0) == Contents(records, [])
  {
    ReadsAppended(crc, [], records, 0);
    assert records[..0] == [];
    assert records[0..] == records;
  }

  // Records added behind anything are read back from where they begin.
  lemma ReadsAppended(crc: Crc, before: seq<byte>, records: seq<seq<byte>>, k: nat)
    requires k <= |records|
    ensures |Appended(crc, before, records[..k])| <= |Appended(crc, before, records)|
    ensures ReadAllAt(crc, Appended(crc, before, records), |Appended(crc, before, records[..k])|) == Contents(records[k..], [])
  {
    var file := Appended(crc, before, records);
    var n := |file|;
    assert records[..0] == [] && file[..n] == file && records[..|records|] == records;
    AppendPrefix(crc, before, records, 0);
    AppendPrefix(crc, before, records, k);
    CompleteIff(crc, before, records, n, |records|);
    ReadsOn(crc, before, records, n, k);
  }

  // Only what is written with its own checksum is returned: a fragment that is read stands in the
  // file as EmitPhysicalRecord would write it.
  lemma FoundIsGenuine(crc: Crc, file: seq<byte>, p: nat)
    requires p <= |file|
    ensures var f := ReadPhysicalAt(crc, file, p);
      (f.kind != EOF && f.kind != BAD_RECORD) ==>
        && f.kind < 256 && |f.fragment| < 65536
        && p + Trailer(p) + HEADER_SIZE + |f.fragment| == f.next
        && file[p + Trailer(p)..f.next] == Physical(crc, f.kind, f.fragment)
  {
    var f, q := ReadPhysicalAt(crc, file, p), p + Trailer(p);
    if f.kind != EOF && f.kind != BAD_RECORD {
      ParsedIsGenuine(crc, file, q);
    }
  }

  // A header whose length fits the file and whose checksum is right starts a genuine record.
  lemma ParsedIsGenuine(crc: Crc, file: seq<byte>, q: nat)
    requires q + HEADER_SIZE <= |file|
    ensures var header := file[q..q + HEADER_SIZE];
      var next := q + HEADER_SIZE + HeaderLength(header);
      next <= |file| && ChecksumOk(HeaderChecksum(header), Value(crc, file[q + 6..next])) ==>
        file[q..next] == Physical(crc, HeaderType(header), file[q + HEADER_SIZE..next])
  {
    var header := file[q..q + HEADER_SIZE];
    var next := q + HEADER_SIZE + HeaderLength(header);
    if next <= |file| && ChecksumOk(HeaderChecksum(header), Value(crc, file[q + 6..next])) {
      hide Value, Mask, Unmask, LittleEndian, FromLittleEndian, ChecksumOk;
      var fragment := file[q + HEADER_SIZE..next];
      HeaderBytes(header, Value(crc, file[q + 6..next]));
      assert file[q + 6..next] == [HeaderType(header) as byte] + fragment;
      assert file[q..next] == header + fragment;
    }
  }

  lemma HeaderBytes(header: seq<byte>, c: Word)
    requires |header| == HEADER_SIZE && ChecksumOk(HeaderChecksum(header), c)
    ensures header == LittleEndian(Mask(c), 4) + Length(HeaderLength(header)) + [HeaderType(header) as byte]
  {
    MaskUnmask(HeaderChecksum(header));
    LittleEndianOfBytes(header[..4]);
    hide Mask, Unmask, LittleEndian, FromLittleEndian;
    var n := HeaderLength(header);
    assert (n % 256) as byte == header[4] && (n / 256) as byte == header[5];
  }
}
