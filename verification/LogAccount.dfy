/**
  Where the bytes of a log go when it is read: whatever the file holds, each byte is returned, reported, or one of
  those that nobody hears of, which are headers, block trailers, zeroed space and a torn end.
 */
module LogAccount {
  import opened Wrappers
  import opened Bytes
  import opened LogFormat

  function DroppedBytes(drops: seq<Drop>): nat {
    if drops == [] then 0 else drops[0].bytes + DroppedBytes(drops[1..])
  }

  function RecordBytes(records: seq<seq<byte>>): nat {
    if records == [] then 0 else |records[0]| + RecordBytes(records[1..])
  }

  // The record that the reader is in the middle of, by its size, after a fragment of so many bytes.
  function StillOpen(kind: nat, length: nat, open: Option<nat>): Option<nat> {
    if kind == 2 then Some(length) else if kind == 3 && open.Some? then Some(open.value + length) else None
  }

  function Size(open: Option<nat>): nat {
    if open.None? then 0 else open.value
  }

  // From position p on: the headers of fragments, the ends of blocks with no room for one, blocks that end in zeroes,
  // and what a writer that died has left at the end of the file, begun record included.  The reader uses the types 5
  // and 6, which no writer writes, for the end of the file and for a bad record: a fragment of type 5 hides all that
  // follows it, and one of type 6 itself.
  ghost function Unheard(crc: Crc, file: seq<byte>, p: nat, open: Option<nat>): nat
    requires p <= |file|
    decreases |file| - p
  {
    var q := p + Trailer(p);
    if q + 7 > |file| then |file| - p + Size(open)
    else
      var header := file[q..q + 7];
      var length := HeaderLength(header);
      var end := if BlockEnd(q) <= |file| then BlockEnd(q) else |file|;
      if q + 7 + length > end then
        if |file| < BlockEnd(q) then |file| - p + Size(open) else q - p + Unheard(crc, file, end, None)
      else if HeaderType(header) == 0 && length == 0 then end - p + Unheard(crc, file, end, None)
      else if !ChecksumOk(HeaderChecksum(header), Value(crc, file[q + 6..q + 7 + length])) then q - p + Unheard(crc, file, end, None)
      else if HeaderType(header) == 5 then |file| - p + Size(open)
      else if HeaderType(header) == 6 then q - p + 7 + length + Unheard(crc, file, q + 7 + length, None)
      else q - p + 7 + Unheard(crc, file, q + 7 + length, StillOpen(HeaderType(header), length, open))
  }

  lemma {:induction false} DropsAdd(a: seq<Drop>, b: seq<Drop>)
    ensures DroppedBytes(a + b) == DroppedBytes(a) + DroppedBytes(b)
  {
    if a == [] {
      assert a + b == b;
    } else {
      assert (a + b)[1..] == a[1..] + b;
      DropsAdd(a[1..], b);
    }
  }

  lemma OneDrop(d: Drop)
    ensures DroppedBytes([]) == 0 && DroppedBytes([d]) == d.bytes
  {
    assert [d][1..] == [];
  }

  function Open(inFragment: bool, scratch: seq<byte>): Option<nat> {
    if inFragment then Some(|scratch|) else None
  }

  // Reading one record, in the middle of another or not.
  lemma {:induction false} RecordAccounted(crc: Crc, file: seq<byte>, p: nat, inFragment: bool, scratch: seq<byte>)
    requires p <= |file| && (!inFragment ==> scratch == [])
    ensures var r := ReadRecordAt(crc, file, p, inFragment, scratch);
      Unheard(crc, file, p, Open(inFragment, scratch)) + DroppedBytes(r.drops) ==
        if r.data.None? then |file| - p + |scratch| else r.next - p + |scratch| - |r.data.value| + Unheard(crc, file, r.next, None)
    decreases |file| - p
  {
    hide ReadPhysicalAt, Unheard, DroppedBytes, Take;
    PieceAccounted(crc, file, p, Open(inFragment, scratch));
    var f := ReadPhysicalAt(crc, file, p);
    var t := Take(f.kind, f.fragment, inFragment, scratch);
    DropsOfTurn(f, inFragment, scratch);
    DropsAdd(f.drops, t.drops);
    if t.More? {
      RecordAccounted(crc, file, f.next, t.inFragment, t.scratch);
      DropsAdd(f.drops + t.drops, ReadRecordAt(crc, file, f.next, t.inFragment, t.scratch).drops);
    }
  }

  lemma DropsOfTurn(f: Found, inFragment: bool, scratch: seq<byte>)
    requires !inFragment ==> scratch == []
    ensures var t := Take(f.kind, f.fragment, inFragment, scratch);
      DroppedBytes(t.drops) ==
        (match f.kind
         case 1 => |scratch|
         case 2 => |scratch|
         case 3 => if inFragment then 0 else |f.fragment|
         case 4 => if inFragment then 0 else |f.fragment|
         case 5 => 0
         case 6 => |scratch|
         case _ => |f.fragment| + |scratch|)
    ensures var t := Take(f.kind, f.fragment, inFragment, scratch);
      match t
      case Done(data, _) =>
        && (data.None? <==> f.kind == 5)
        && (f.kind == 1 ==> |data.value| == |f.fragment|) && (f.kind == 4 ==> inFragment && |data.value| == |scratch| + |f.fragment|)
        && (f.kind == 1 || f.kind == 4 || f.kind == 5)
      case More(inFragment', scratch', _) =>
        && f.kind != 1 && f.kind != 5 && (f.kind == 4 ==> !inFragment) && (!inFragment' ==> scratch' == [])
        && Open(inFragment', scratch') == (if f.kind == 6 then None else StillOpen(f.kind, |f.fragment|, Open(inFragment, scratch)))
  {
    OneDrop(Drop(0, PartialRecord));
    forall d: Drop ensures DroppedBytes([d]) == d.bytes {
      OneDrop(d);
    }
  }

  ghost predicate PieceOk(crc: Crc, file: seq<byte>, p: nat, open: Option<nat>)
    requires p <= |file|
  {
    var f := ReadPhysicalAt(crc, file, p);
    DroppedBytes(f.drops) ==
      if f.kind == 5 then 0
      else if f.kind == 6 then f.next - p + Unheard(crc, file, f.next, None) - Unheard(crc, file, p, open)
      else f.next - p + Unheard(crc, file, f.next, StillOpen(f.kind, |f.fragment|, open)) - |f.fragment| - Unheard(crc, file, p, open)
  }

  lemma PieceAccounted(crc: Crc, file: seq<byte>, p: nat, open: Option<nat>)
    requires p <= |file|
    ensures PieceOk(crc, file, p, open)
    ensures ReadPhysicalAt(crc, file, p).kind == 5 ==> Unheard(crc, file, p, open) == |file| - p + Size(open)
  {
    hide Value, HeaderLength, HeaderChecksum, HeaderType, ChecksumOk, Trailer, BlockEnd, DroppedBytes, StillOpen, PieceOk;
    var q := p + Trailer(p);
    NothingDropped(crc, file, p, open);
    if q + 7 <= |file| {
      var end := if BlockEnd(q) <= |file| then BlockEnd(q) else |file|;
      var header := file[q..q + 7];
      var length := HeaderLength(header);
      if q + 7 + length > end {
        LongPiece(crc, file, p, open);
      } else if !(HeaderType(header) == 0 && length == 0) && !ChecksumOk(HeaderChecksum(header), Value(crc, file[q + 6..q + 7 + length])) {
        BadPiece(crc, file, p, open);
      }
    }
  }

  lemma LongPiece(crc: Crc, file: seq<byte>, p: nat, open: Option<nat>)
    requires p <= |file| && p + Trailer(p) + 7 <= |file|
    requires var q := p + Trailer(p); var end := if BlockEnd(q) <= |file| then BlockEnd(q) else |file|;
             q + 7 + HeaderLength(file[q..q + 7]) > end
    ensures PieceOk(crc, file, p, open)
  {
    hide Value, HeaderLength, HeaderChecksum, HeaderType, ChecksumOk, Trailer, BlockEnd, DroppedBytes, StillOpen;
    var q := p + Trailer(p);
    OneDrop(Drop((if BlockEnd(q) <= |file| then BlockEnd(q) else |file|) - q, BadLength));
  }

  lemma BadPiece(crc: Crc, file: seq<byte>, p: nat, open: Option<nat>)
    requires p <= |file| && p + Trailer(p) + 7 <= |file|
    requires var q := p + Trailer(p); var header := file[q..q + 7]; var length := HeaderLength(header);
      && q + 7 + length <= (if BlockEnd(q) <= |file| then BlockEnd(q) else |file|)
      && !(HeaderType(header) == 0 && length == 0)
      && !ChecksumOk(HeaderChecksum(header), Value(crc, file[q + 6..q + 7 + length]))
    ensures PieceOk(crc, file, p, open)
  {
    hide Value, HeaderLength, HeaderChecksum, HeaderType, ChecksumOk, Trailer, BlockEnd, DroppedBytes, StillOpen;
    var q := p + Trailer(p);
    OneDrop(Drop((if BlockEnd(q) <= |file| then BlockEnd(q) else |file|) - q, BadChecksum));
  }

  // The other pieces report nothing.
  lemma NothingDropped(crc: Crc, file: seq<byte>, p: nat, open: Option<nat>)
    requires p <= |file|
    ensures ReadPhysicalAt(crc, file, p).drops == [] ==> PieceOk(crc, file, p, open)
    ensures ReadPhysicalAt(crc, file, p).kind == 5 ==> Unheard(crc, file, p, open) == |file| - p + Size(open)
  {
    hide Value, HeaderLength, HeaderChecksum, HeaderType, ChecksumOk, Trailer, BlockEnd, DroppedBytes, StillOpen;
    OneDrop(Drop(0, BadLength));
  }

  // Reading a whole file.
  lemma {:induction false} BytesAreAccountedFor(crc: Crc, file: seq<byte>, p: nat)
    requires p <= |file|
    ensures var c := ReadAllAt(crc, file, p);
      RecordBytes(c.records) + DroppedBytes(c.drops) + Unheard(crc, file, p, None) == |file| - p
    decreases |file| - p
  {
    hide ReadRecordAt, Unheard, DroppedBytes;
    RecordAccounted(crc, file, p, false, []);
    var r := ReadRecordAt(crc, file, p, false, []);
    if r.data.Some? {
      var rest := ReadAllAt(crc, file, r.next);
      BytesAreAccountedFor(crc, file, r.next);
      DropsAdd(r.drops, rest.drops);
      assert ([r.data.value] + rest.records)[1..] == rest.records;
    }
  }
}
