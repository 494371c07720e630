/** log::Writer (db/log_writer.cc): appends to a file, block by block. */
module LogWriter {
  import opened Wrappers
  import opened Bytes
  import opened LogFormat

  class Writer {
    const crc: Crc
    const typeCrc: seq<Word>
    var file: seq<byte>
    var blockOffset: nat

    // The offset of a block that is just full may still stand at its end.
    ghost predicate Valid()
      reads this
    {
      && |typeCrc| == LAST_TYPE + 1
      && (forall t :: 0 <= t <= LAST_TYPE ==> typeCrc[t] == Value(crc, [t as byte]))
      && blockOffset <= BLOCK_SIZE && blockOffset % BLOCK_SIZE == |file| % BLOCK_SIZE
    }

    // Both constructors: a new file has length 0.
    constructor (crc: Crc, dest: seq<byte>)
      ensures Valid() && this.crc == crc && file == dest
    {
      this.crc, file := crc, dest;
      blockOffset := |dest| % BLOCK_SIZE;
      typeCrc := seq(LAST_TYPE + 1, t requires 0 <= t <= LAST_TYPE => Value(crc, [t as byte]));
    }

    method AddRecord(data: seq<byte>)
      requires Valid()
      modifies this
      ensures Valid() && file == old(file) + Fragments(crc, |old(file)|, data, true)
    {
      hide Fragments, Piece, FragmentLength, OffsetInBlock, Trailer;
      var left := data;
      var begin := true;
      var more := true;
      ghost var rest := Fragments(crc, |file|, data, true);
      while more
        invariant Valid() && file + rest == old(file) + Fragments(crc, |old(file)|, data, true)
        invariant rest == if more then Fragments(crc, |file|, left, begin) else []
        decreases more, |left|, OffsetInBlock(|file|)
      {
        ghost var piece, n := Piece(crc, |file|, left, begin), FragmentLength(|file|, |left|);
        ghost var next := if left[n..] == [] then [] else Fragments(crc, |file| + |piece|, left[n..], false);
        OnePiece(crc, |file|, left, begin, next);
        FragmentsShrink(|file|, |left|);
        Regroup(file, piece, next);
        rest := next;
        left := AddFragment(left, begin);
        begin, more := false, left != [];
      }
      assert file + [] == file;
    }

    // One turn of the loop of AddRecord.
    method AddFragment(left: seq<byte>, begin: bool) returns (rest: seq<byte>)
      requires Valid()
      modifies this`file, this`blockOffset
      ensures Valid() && file == old(file) + Piece(crc, |old(file)|, left, begin)
      ensures rest == left[FragmentLength(|old(file)|, |left|)..]
    {
      hide Trailer, FragmentLength, Physical;
      OffsetTrailer(blockOffset, |file|, |left|);
      var leftover := BLOCK_SIZE - blockOffset;
      if leftover < HEADER_SIZE {
        file := file + Zeros(leftover);
        blockOffset := 0;
      }
      assert file == old(file) + Zeros(Trailer(|old(file)|));
      var avail := BLOCK_SIZE - blockOffset - HEADER_SIZE;
      var length := if |left| < avail then |left| else avail;
      var end := |left| == length;
      EmitPhysicalRecord(FragmentType(begin, end), left[..length]);
      rest := left[length..];
    }

    method EmitPhysicalRecord(t: nat, fragment: seq<byte>)
      requires Valid() && t <= LAST_TYPE && blockOffset + HEADER_SIZE + |fragment| <= BLOCK_SIZE
      modifies this`file, this`blockOffset
      ensures Valid() && file == old(file) + Physical(crc, t, fragment)
      ensures blockOffset == old(blockOffset) + HEADER_SIZE + |fragment|
    {
      hide Extend, Mask, LittleEndian;
      OffsetMoves(blockOffset, |file|, HEADER_SIZE + |fragment|);
      var c := Mask(Extend(crc, typeCrc[t], fragment));
      ExtendStreams(crc, 0, [t as byte], fragment);
      var header := LittleEndian(c, 4) + Length(|fragment|) + [t as byte];
      file := file + header;
      file := file + fragment;
      Regroup(old(file), header, fragment);
      blockOffset := blockOffset + HEADER_SIZE + |fragment|;
    }
  }

  lemma OffsetMoves(offset: nat, size: nat, n: nat)
    requires offset % BLOCK_SIZE == size % BLOCK_SIZE
    ensures (offset + n) % BLOCK_SIZE == (size + n) % BLOCK_SIZE
  {
  }

  lemma FragmentsStep(crc: Crc, p: nat, data: seq<byte>, begin: bool)
    ensures var n := FragmentLength(p, |data|);
      && Piece(crc, p, data, begin) == Zeros(Trailer(p)) + Physical(crc, FragmentType(begin, n == |data|), data[..n])
      && Fragments(crc, p, data, begin) ==
           Piece(crc, p, data, begin) + if n == |data| then [] else Fragments(crc, p + |Piece(crc, p, data, begin)|, data[n..], false)
  {
  }

  lemma OnePiece(crc: Crc, p: nat, left: seq<byte>, begin: bool, next: seq<byte>)
    requires var n, piece := FragmentLength(p, |left|), Piece(crc, p, left, begin);
             next == if left[n..] == [] then [] else Fragments(crc, p + |piece|, left[n..], false)
    ensures |Piece(crc, p, left, begin)| == Trailer(p) + HEADER_SIZE + FragmentLength(p, |left|)
    ensures Fragments(crc, p, left, begin) == Piece(crc, p, left, begin) + next
  {
    FragmentsStep(crc, p, left, begin);
    hide Fragments, Piece, FragmentLength;
  }

  function OffsetInBlock(p: nat): nat {
    p % BLOCK_SIZE
  }

  lemma FragmentsShrink(p: nat, left: nat)
    ensures var n := FragmentLength(p, left);
            n == 0 && left > 0 ==> OffsetInBlock(p + Trailer(p) + HEADER_SIZE + n) < OffsetInBlock(p)
  {
    if FragmentLength(p, left) < left {
      FragmentsEnd(p, left);
    }
  }

  // The writer's view of where it stands in a block is right.
  lemma OffsetTrailer(offset: nat, p: nat, left: nat)
    requires offset <= BLOCK_SIZE && offset % BLOCK_SIZE == p % BLOCK_SIZE
    ensures var leftover := BLOCK_SIZE - offset;
      && Trailer(p) == (if leftover < HEADER_SIZE then leftover else 0)
      && (p + Trailer(p)) % BLOCK_SIZE == (if leftover < HEADER_SIZE then 0 else offset)
      && var avail := BLOCK_SIZE - (if leftover < HEADER_SIZE then 0 else offset) - HEADER_SIZE;
         FragmentLength(p, left) == if left < avail then left else avail
  {
  }
}
