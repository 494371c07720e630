/**
  log::Reader (db/log_reader.cc): reads a file block by block.  What it returns does not depend on
  the buffering: it is what module LogFormat says is read at the position it stands at.
 */
module LogReader {
  import opened Wrappers
  import opened Bytes
  import opened LogFormat

  class Reader {
    const crc: Crc
    const file: seq<byte>
    var filePos: nat
    var buffer: seq<byte>
    var eof: bool
    var drops: seq<Drop>
    // Where the block in the buffer starts.
    ghost var start: int

    function Position(): int
      reads this
    {
      filePos - |buffer|
    }

    ghost predicate Valid()
      reads this
    {
      && start % BLOCK_SIZE == 0 && start <= Position() && 0 <= Position()
      && filePos == (if start + BLOCK_SIZE <= |file| then start + BLOCK_SIZE else |file|)
      && (eof <==> |file| < start + BLOCK_SIZE)
      && buffer == file[Position()..filePos]
    }

    constructor (crc: Crc, file: seq<byte>)
      ensures Valid() && this.crc == crc && this.file == file && Position() == 0 && drops == []
    {
      this.crc, this.file := crc, file;
      filePos, buffer, eof, drops := 0, [], false, [];
      start := 0 - BLOCK_SIZE;
    }

    method ReportCorruption(bytes: nat, reason: Reason)
      modifies this`drops
      ensures drops == old(drops) + [Drop(bytes, reason)]
    {
      drops := drops + [Drop(bytes, reason)];
    }

    // file_->Read of the next block.
    method ReadBlock()
      requires Valid() && !eof
      modifies this`filePos, this`buffer, this`eof, this`start
      ensures Valid() && start == old(start) + BLOCK_SIZE && Position() == start
    {
      start := start + BLOCK_SIZE;
      var n := if filePos + BLOCK_SIZE <= |file| then BLOCK_SIZE else |file| - filePos;
      buffer := file[filePos..filePos + n];
      filePos := filePos + n;
      eof := n < BLOCK_SIZE;
    }

    // The start of ReadPhysicalRecord: the buffer is filled until it holds a header.
    method FindHeader() returns (found: bool)
      requires Valid()
      modifies this`filePos, this`buffer, this`eof, this`start
      ensures Valid()
      ensures var q := old(Position()) + Trailer(old(Position()));
              found <==> q + HEADER_SIZE <= |file|
      ensures Position() == if found then old(Position()) + Trailer(old(Position())) else |file|
      ensures found ==> |buffer| >= HEADER_SIZE
    {
      ghost var p := Position();
      while |buffer| < HEADER_SIZE
        invariant Valid()
        invariant p == Position() || (p + Trailer(p) == Position() == start)
        decreases |file| - start
      {
        if eof {
          NoHeader(p, Position(), start, |file|);
          buffer := [];
          return false;
        }
        NextBlock(p, Position(), start);
        buffer := [];
        ReadBlock();
      }
      AtHeader(start, Position(), p);
      return true;
    }

    method ReadPhysicalRecord() returns (kind: nat, fragment: seq<byte>)
      requires Valid()
      modifies this`filePos, this`buffer, this`eof, this`start, this`drops
      ensures Valid()
      ensures var f := ReadPhysicalAt(crc, file, old(Position()));
              kind == f.kind && fragment == f.fragment && drops == old(drops) + f.drops && Position() == f.next
    {
      hide ParseAt, Trailer;
      var found := FindHeader();
      if !found {
        return EOF, [];
      }
      kind, fragment := Parse();
    }

    // The switch of ReadRecord: the next state of the loop, or the result.
    method Switch(kind: nat, fragment: seq<byte>, inFragment: bool, scratch: seq<byte>) returns (turn: Turn)
      modifies this`drops
      ensures var t := Take(kind, fragment, inFragment, scratch);
              turn == (if t.Done? then Done(t.data, []) else More(t.inFragment, t.scratch, [])) && drops == old(drops) + t.drops
    {
      if kind == FULL_TYPE {
        if inFragment && scratch != [] {
          ReportCorruption(|scratch|, PartialRecord);
        }
        turn := Done(Some(fragment), []);
      } else if kind == FIRST_TYPE {
        if inFragment && scratch != [] {
          ReportCorruption(|scratch|, PartialRecord);
        }
        turn := More(true, fragment, []);
      } else if kind == MIDDLE_TYPE {
        if !inFragment {
          ReportCorruption(|fragment|, MissingStart);
          turn := More(false, scratch, []);
        } else {
          turn := More(true, scratch + fragment, []);
        }
      } else if kind == LAST_TYPE {
        if !inFragment {
          ReportCorruption(|fragment|, MissingStart);
          turn := More(false, scratch, []);
        } else {
          turn := Done(Some(scratch + fragment), []);
        }
      } else if kind == EOF {
        turn := Done(None, []);
      } else if kind == BAD_RECORD {
        if inFragment {
          ReportCorruption(|scratch|, ErrorInMiddle);
          turn := More(false, [], []);
        } else {
          turn := More(false, scratch, []);
        }
      } else {
        ReportCorruption(|fragment| + if inFragment then |scratch| else 0, UnknownType);
        turn := More(false, [], []);
      }
    }

    method ReadRecord() returns (record: Option<seq<byte>>)
      requires Valid()
      modifies this`filePos, this`buffer, this`eof, this`start, this`drops
      ensures Valid()
      ensures 0 <= old(Position()) <= |file|
      ensures var r := ReadRecordAt(crc, file, old(Position()), false, []);
              record == r.data && drops == old(drops) + r.drops && Position() == r.next
    {
      hide ReadPhysicalAt, Take;
      var scratch: seq<byte> := [];
      var inFragment := false;
      ghost var acc: seq<Drop> := [];
      while true
        invariant Valid()
        invariant drops == old(drops) + acc
        invariant ReadRecordAt(crc, file, old(Position()), false, []) ==
                    Report(acc, ReadRecordAt(crc, file, Position(), inFragment, scratch))
        decreases |file| - Position()
      {
        ghost var found := ReadPhysicalAt(crc, file, Position());
        EndStops(inFragment, scratch);
        var kind, fragment := ReadPhysicalRecord();
        ghost var t := Take(kind, fragment, inFragment, scratch);
        Regroup3(old(drops), acc, found.drops, t.drops);
        var turn := Switch(kind, fragment, inFragment, scratch);
        if turn.Done? {
          return turn.data;
        }
        inFragment, scratch := turn.inFragment, turn.scratch;
        ReportTwice(acc, found.drops + t.drops, ReadRecordAt(crc, file, Position(), inFragment, scratch));
        acc := acc + (found.drops + t.drops);
      }
    }

    // The rest of ReadPhysicalRecord.
    method Parse() returns (kind: nat, fragment: seq<byte>)
      requires Valid() && |buffer| >= HEADER_SIZE
      modifies this`buffer, this`drops
      ensures Valid()
      ensures var f := ParseAt(crc, file, old(Position()));
              kind == f.kind && fragment == f.fragment && drops == old(drops) + f.drops && Position() == f.next
    {
      hide ChecksumOk, Value, HeaderChecksum, HeaderLength, HeaderType, BlockEnd, Trailer;
      ghost var q := Position();
      AtHeader(start, q, q);
      var header := buffer[..HEADER_SIZE];
      Subslice(file, q, filePos, 0, HEADER_SIZE);
      var length := HeaderLength(header);
      if HEADER_SIZE + length > |buffer| {
        var dropSize := |buffer|;
        buffer := [];
        if !eof {
          ReportCorruption(dropSize, BadLength);
          return BAD_RECORD, [];
        }
        return EOF, [];
      }
      if HeaderType(header) == ZERO_TYPE && length == 0 {
        buffer := [];
        return BAD_RECORD, [];
      }
      Subslice(file, q, filePos, 6, HEADER_SIZE + length);
      if !ChecksumOk(HeaderChecksum(header), Value(crc, buffer[6..HEADER_SIZE + length])) {
        var dropSize := |buffer|;
        buffer := [];
        ReportCorruption(dropSize, BadChecksum);
        return BAD_RECORD, [];
      }
      Subslice(file, q, filePos, HEADER_SIZE, HEADER_SIZE + length);
      Subslice(file, q, filePos, HEADER_SIZE + length, |buffer|);
      kind, fragment := HeaderType(header), buffer[HEADER_SIZE..HEADER_SIZE + length];
      buffer := buffer[HEADER_SIZE + length..];
    }
  }

  lemma EndStops(inFragment: bool, scratch: seq<byte>)
    ensures forall fragment :: Take(EOF, fragment, inFragment, scratch).Done?
  {
  }

  lemma Regroup3(a: seq<Drop>, b: seq<Drop>, c: seq<Drop>, d: seq<Drop>)
    ensures a + b + c + d == a + (b + (c + d))
  {
  }

  lemma ReportTwice(a: seq<Drop>, b: seq<Drop>, r: Record)
    ensures Report(a, Report(b, r)) == Report(a + b, r)
  {
  }

  // With less than a header left in the last block there is none.
  lemma NoHeader(p: int, q: int, start: int, size: nat)
    requires start % BLOCK_SIZE == 0 && 0 <= p && start <= q && q <= size < start + BLOCK_SIZE && size - q < HEADER_SIZE
    requires p == q || p + Trailer(p) == q == start
    ensures p + Trailer(p) + HEADER_SIZE > size
  {
  }

  // With less than a header left in a full block, what is left is a trailer.
  lemma NextBlock(p: int, q: int, start: int)
    requires start % BLOCK_SIZE == 0 && 0 <= p && 0 <= q && start <= q <= start + BLOCK_SIZE < q + HEADER_SIZE
    requires p == q || p + Trailer(p) == q == start
    ensures p + Trailer(p) == start + BLOCK_SIZE
  {
  }

  lemma AtHeader(start: int, q: int, p: int)
    requires start % BLOCK_SIZE == 0 && 0 <= start <= q && q + HEADER_SIZE <= start + BLOCK_SIZE
    requires 0 <= p && (p == q || p + Trailer(p) == q)
    ensures BlockEnd(q) == start + BLOCK_SIZE && p + Trailer(p) == q
  {
  }
}
