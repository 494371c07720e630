/**
  The fragmented log (db/log_format.h, db/log_writer.cc, db/log_reader.cc) on positions of a byte
  sequence: what a record is written as, and what is read at a position of any file.
 */
module LogFormat {
  import opened Wrappers
  import opened Bytes

  const BLOCK_SIZE: nat := 32768
  const HEADER_SIZE: nat := 7

  // RecordType, and the two results that are not record types.
  const ZERO_TYPE: nat := 0
  const FULL_TYPE: nat := 1
  const FIRST_TYPE: nat := 2
  const MIDDLE_TYPE: nat := 3
  const LAST_TYPE: nat := 4
  const EOF: nat := 5
  const BAD_RECORD: nat := 6

  // ---- Checksums (util/crc32c.h) ----

  type Word = n: nat | n < U32

  // Extend feeds a checksum one byte at a time.  Nothing else about the CRC matters here, so how
  // one byte is fed is a parameter.
  type Crc = (Word, byte) -> Word

  function Extend(crc: Crc, c: Word, bs: seq<byte>): Word {
    if bs == [] then c else crc(Extend(crc, c, bs[..|bs| - 1]), bs[|bs| - 1])
  }

  lemma {:induction false} ExtendStreams(crc: Crc, c: Word, a: seq<byte>, b: seq<byte>)
    ensures Extend(crc, Extend(crc, c, a), b) == Extend(crc, c, a + b)
  {
    if b == [] {
      assert a + b == a;
    } else {
      ExtendStreams(crc, c, a, b[..|b| - 1]);
      assert (a + b)[..|a + b| - 1] == a + b[..|b| - 1];
    }
  }

  // crc32c::Value
  function Value(crc: Crc, bs: seq<byte>): Word {
    Extend(crc, 0, bs)
  }

  const MASK_DELTA: nat := 0xa282ead8

  // Rotate right by 15 bits and add a constant.
  function Mask(c: Word): Word {
    (c / 0x8000 + c % 0x8000 * 0x2_0000 + MASK_DELTA) % U32
  }

  // Subtract the constant and rotate left by 15 bits.
  function Unmask(m: Word): Word {
    var rot := (m + U32 - MASK_DELTA) % U32;
    rot / 0x2_0000 + rot % 0x2_0000 * 0x8000
  }

  lemma UnmaskMask(c: Word)
    ensures Unmask(Mask(c)) == c
  {
    var q, r := c / 0x8000, c % 0x8000;
    Rotated(q, r);
    assert c == q * 0x8000 + r;
  }

  // The two halves of a rotated word.
  lemma Rotated(q: nat, r: nat)
    requires q < 0x2_0000 && r < 0x8000
    ensures var rot := q + r * 0x2_0000;
            rot < U32 && rot / 0x2_0000 == r && rot % 0x2_0000 == q && ((rot + MASK_DELTA) % U32 + U32 - MASK_DELTA) % U32 == rot
  {
  }

  lemma MaskUnmask(m: Word)
    ensures Mask(Unmask(m)) == m
  {
    var rot := (m + U32 - MASK_DELTA) % U32;
    var c := Unmask(m);
    assert c / 0x8000 == rot % 0x2_0000 && c % 0x8000 == rot / 0x2_0000;
  }

  // ---- Writing ----

  function Length(n: nat): seq<byte>
    requires n < 65536
  {
    [(n % 256) as byte, (n / 256) as byte]
  }

  // EmitPhysicalRecord
  function Physical(crc: Crc, t: nat, fragment: seq<byte>): (bs: seq<byte>)
    requires t < 256 && |fragment| < 65536
    ensures |bs| == HEADER_SIZE + |fragment|
  {
    LittleEndian(Mask(Value(crc, [t as byte] + fragment)), 4) + Length(|fragment|) + [t as byte] + fragment
  }

  // The trailer that fills a block with no room for a header.
  function Trailer(p: nat): (n: nat)
    ensures n < HEADER_SIZE
    ensures (p + n) % BLOCK_SIZE <= BLOCK_SIZE - HEADER_SIZE
  {
    var leftover := BLOCK_SIZE - p % BLOCK_SIZE;
    if leftover < HEADER_SIZE then leftover else 0
  }

  function Zeros(n: nat): (bs: seq<byte>)
    ensures |bs| == n
  {
    seq(n, _ => 0)
  }

  function FragmentType(begin: bool, end: bool): nat {
    if begin && end then FULL_TYPE else if begin then FIRST_TYPE else if end then LAST_TYPE else MIDDLE_TYPE
  }

  // How much of the data fits the block that the next header goes to.
  function FragmentLength(p: nat, left: nat): (n: nat)
    ensures n <= left && n < 65536
    ensures n == left || (p + Trailer(p)) % BLOCK_SIZE + HEADER_SIZE + n == BLOCK_SIZE
    ensures (p + Trailer(p)) % BLOCK_SIZE + HEADER_SIZE + n <= BLOCK_SIZE
  {
    var avail := BLOCK_SIZE - (p + Trailer(p)) % BLOCK_SIZE - HEADER_SIZE;
    if left < avail then left else avail
  }

  // The next trailer and physical record, when the file is p bytes long.
  function Piece(crc: Crc, p: nat, data: seq<byte>, begin: bool): (bs: seq<byte>)
    ensures |bs| == Trailer(p) + HEADER_SIZE + FragmentLength(p, |data|)
  {
    var n := FragmentLength(p, |data|);
    Zeros(Trailer(p)) + Physical(crc, FragmentType(begin, n == |data|), data[..n])
  }

  lemma FragmentsEnd(p: nat, left: nat)
    requires FragmentLength(p, left) < left
    ensures var q := p + Trailer(p) + HEADER_SIZE + FragmentLength(p, left);
            q % BLOCK_SIZE == 0 && Trailer(q) == 0 && FragmentLength(q, left) > 0
  {
    var a := p + Trailer(p);
    var q := a + HEADER_SIZE + FragmentLength(p, left);
    assert q == a / BLOCK_SIZE * BLOCK_SIZE + BLOCK_SIZE;
    assert q % BLOCK_SIZE == 0;
  }

  // AddRecord
  function Fragments(crc: Crc, p: nat, data: seq<byte>, begin: bool): (bs: seq<byte>)
    ensures |bs| >= HEADER_SIZE
    decreases |data|, p % BLOCK_SIZE
  {
    var n := FragmentLength(p, |data|);
    if n == |data| then Piece(crc, p, data, begin)
    else
      FragmentsEnd(p, |data|);
      Piece(crc, p, data, begin) + Fragments(crc, p + Trailer(p) + HEADER_SIZE + n, data[n..], false)
  }

  // The file after adding the records to one that holds `before`.
  function Appended(crc: Crc, before: seq<byte>, records: seq<seq<byte>>): seq<byte> {
    if records == [] then before
    else
      var file := Appended(crc, before, records[..|records| - 1]);
      file + Fragments(crc, |file|, records[|records| - 1], true)
  }

  function LogBytes(crc: Crc, records: seq<seq<byte>>): seq<byte> {
    Appended(crc, [], records)
  }

  // ---- Reading ----

  datatype Reason = BadLength | BadChecksum | PartialRecord | MissingStart | ErrorInMiddle | UnknownType
  // What is reported to the Reporter.
  datatype Drop = Drop(bytes: nat, reason: Reason)

  // The result of ReadPhysicalRecord, and the position after it.
  datatype Found = Found(kind: nat, fragment: seq<byte>, next: nat, drops: seq<Drop>)

  function BlockEnd(p: nat): (end: nat)
    ensures p < end <= p + BLOCK_SIZE
  {
    p - p % BLOCK_SIZE + BLOCK_SIZE
  }

  // The header of a physical record.
  function HeaderChecksum(header: seq<byte>): nat
    requires |header| >= HEADER_SIZE
  {
    FromLittleEndian(header[..4])
  }

  function HeaderLength(header: seq<byte>): (n: nat)
    requires |header| >= HEADER_SIZE
    ensures n < 65536
  {
    header[4] as nat + 256 * header[5] as nat
  }

  function HeaderType(header: seq<byte>): (t: nat)
    requires |header| >= HEADER_SIZE
    ensures t < 256
  {
    header[6] as nat
  }

  // ReadPhysicalRecord, without the buffer: what it returns at position p of a file.
  function ReadPhysicalAt(crc: Crc, file: seq<byte>, p: nat): (r: Found)
    requires p <= |file|
    ensures r.next <= |file|
    ensures r.kind != EOF ==> r.next > p
  {
    var q := p + Trailer(p);
    if q + HEADER_SIZE > |file| then Found(EOF, [], |file|, []) else ParseAt(crc, file, q)
  }

  // The part that looks at the header at position q.
  function ParseAt(crc: Crc, file: seq<byte>, q: nat): (r: Found)
    requires q + HEADER_SIZE <= |file|
    ensures r.next <= |file|
    ensures r.kind != EOF ==> r.next > q
  {
    var end := if BlockEnd(q) <= |file| then BlockEnd(q) else |file|;
    var header := file[q..q + HEADER_SIZE];
    var length := HeaderLength(header);
    if q + HEADER_SIZE + length > end then
      if |file| < BlockEnd(q) then Found(EOF, [], |file|, [])
      else Found(BAD_RECORD, [], end, [Drop(end - q, BadLength)])
    else if HeaderType(header) == ZERO_TYPE && length == 0 then Found(BAD_RECORD, [], end, [])
    else if !ChecksumOk(HeaderChecksum(header), Value(crc, file[q + 6..q + HEADER_SIZE + length])) then
      Found(BAD_RECORD, [], end, [Drop(end - q, BadChecksum)])
    else Found(HeaderType(header), file[q + HEADER_SIZE..q + HEADER_SIZE + length], q + HEADER_SIZE + length, [])
  }

  predicate ChecksumOk(stored: nat, actual: Word) {
    stored < U32 && actual == Unmask(stored)
  }

  // The result of ReadRecord, and the position after it.
  datatype Record = Record(data: Option<seq<byte>>, next: nat, drops: seq<Drop>)

  function Report(drops: seq<Drop>, r: Record): Record {
    r.(drops := drops + r.drops)
  }

  // What ReadRecord does with a physical record, given the record it is in the middle of, if any.
  datatype Turn = Done(data: Option<seq<byte>>, drops: seq<Drop>) | More(inFragment: bool, scratch: seq<byte>, drops: seq<Drop>)

  function Lost(inFragment: bool, scratch: seq<byte>): seq<Drop> {
    if inFragment && scratch != [] then [Drop(|scratch|, PartialRecord)] else []
  }

  function Take(kind: nat, fragment: seq<byte>, inFragment: bool, scratch: seq<byte>): Turn {
    if kind == FULL_TYPE then Done(Some(fragment), Lost(inFragment, scratch))
    else if kind == FIRST_TYPE then More(true, fragment, Lost(inFragment, scratch))
    else if kind == MIDDLE_TYPE then
      if inFragment then More(true, scratch + fragment, []) else More(false, scratch, [Drop(|fragment|, MissingStart)])
    else if kind == LAST_TYPE then
      if inFragment then Done(Some(scratch + fragment), []) else More(false, scratch, [Drop(|fragment|, MissingStart)])
    else if kind == EOF then Done(None, [])
    else if kind == BAD_RECORD then
      if inFragment then More(false, [], [Drop(|scratch|, ErrorInMiddle)]) else More(false, scratch, [])
    else More(false, [], [Drop(|fragment| + if inFragment then |scratch| else 0, UnknownType)])
  }

  // ReadRecord from position p on.
  function ReadRecordAt(crc: Crc, file: seq<byte>, p: nat, inFragment: bool, scratch: seq<byte>): (r: Record)
    requires p <= |file|
    ensures r.next <= |file|
    ensures r.data.Some? ==> r.next > p
    decreases |file| - p
  {
    var f := ReadPhysicalAt(crc, file, p);
    match Take(f.kind, f.fragment, inFragment, scratch)
    case Done(data, drops) => Record(data, f.next, f.drops + drops)
    case More(inFragment', scratch', drops) =>
      Report(f.drops + drops, ReadRecordAt(crc, file, f.next, inFragment', scratch'))
  }

  // Reading to the end.
  datatype Contents = Contents(records: seq<seq<byte>>, drops: seq<Drop>)

  function ReadAllAt(crc: Crc, file: seq<byte>, p: nat): Contents
    requires p <= |file|
    decreases |file| - p
  {
    var r := ReadRecordAt(crc, file, p, false, []);
    if r.data.None? then Contents([], r.drops)
    else
      var rest := ReadAllAt(crc, file, r.next);
      Contents([r.data.value] + rest.records, r.drops + rest.drops)
  }
}
