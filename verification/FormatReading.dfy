/**
  The decoders of leveldb against its formats, for all bytes: what they accept is what a reader by the numbers of
  the formats accepts, and means the same.
 */
module FormatReading {
  import opened Wrappers
  import opened Bytes
  import opened Coding
  import PbReading
  import EditCodec
  import WriteBatches
  import TableFooter

  // ---- Numbers ----

  // A number of so many bytes at most, in a word of that size.
  function ReadWord(bs: seq<byte>, most: nat, modulus: nat): (r: Option<(nat, seq<byte>)>)
    requires modulus > 0
    ensures r.Some? ==> |r.value.1| < |bs|
  {
    var r := ReadNumber(bs);
    if r.None? || |bs| - |r.value.1| > most then None else Some((r.value.0 % modulus, r.value.1))
  }

  function Read32(bs: seq<byte>): (r: Option<(nat, seq<byte>)>)
    ensures r.Some? ==> |r.value.1| < |bs|
  {
    ReadWord(bs, 5, 0x1_0000_0000)
  }

  function Read64(bs: seq<byte>): (r: Option<(nat, seq<byte>)>)
    ensures r.Some? ==> |r.value.1| < |bs|
  {
    ReadWord(bs, 10, 0x1_0000_0000_0000_0000)
  }

  function AsInput<T>(r: Option<(T, seq<byte>)>): Input<T> {
    if r.None? then Bad else Got(r.value.0, r.value.1)
  }

  // A number in a word of so many bits.
  function Cut(n: nat, bits: nat): (r: nat)
    ensures r < Pow2(bits)
  {
    n % Pow2(bits)
  }

  lemma {:induction false} GroupsAgree(bs: seq<byte>, shift: nat, result: nat, limit: nat)
    requires result < Pow2(limit)
    ensures var p, r := GetVarintFrom(bs, shift, result, limit), ReadNumber(bs);
      && (p.Got? <==> r.Some? && shift + 7 * (|bs| - |r.value.1| - 1) < limit)
      && (p.Got? ==> p.rest == r.value.1 && p.value == Cut(result + Shl(r.value.0, shift), limit))
    decreases |bs|
  {
    hide Shl, Low7, Pow2, GetVarintFrom, Cut;
    OneGroup(bs, shift, result, limit);
    if bs != [] && shift < limit && bs[0] >= 128 {
      var r := ReadNumber(bs[1..]);
      GroupsAgree(bs[1..], shift + 7, Cut(result + Shl(Low7(bs[0] as nat), shift), limit), limit);
      if r.Some? {
        NextGroups(bs[0], shift, result, r.value.0, limit);
      }
    }
  }

  lemma NextGroups(b: byte, shift: nat, result: nat, n: nat, limit: nat)
    requires b >= 128
    ensures Cut(Cut(result + Shl(Low7(b as nat), shift), limit) + Shl(n, shift + 7), limit) == Cut(result + Shl(b as nat - 128 + 128 * n, shift), limit)
  {
    PbReading.NextBytes(b, shift, result, n, Pow2(limit));
  }

  lemma OneGroup(bs: seq<byte>, shift: nat, result: nat, limit: nat)
    requires result < Pow2(limit)
    ensures shift >= limit || bs == [] ==> GetVarintFrom(bs, shift, result, limit) == Bad
    ensures shift < limit && bs != [] ==>
              var next := Cut(result + Shl(Low7(bs[0] as nat), shift), limit);
              && GetVarintFrom(bs, shift, result, limit) == (if bs[0] >= 128 then GetVarintFrom(bs[1..], shift + 7, next, limit) else Got(next, bs[1..]))
              && (bs[0] < 128 ==> Low7(bs[0] as nat) == bs[0] as nat)
  {
    hide Shl, Pow2;
  }

  // GetVarint32 and GetVarint64
  lemma NumbersAgree(bs: seq<byte>)
    ensures GetVarint32(bs) == AsInput(Read32(bs)) && GetVarint64(bs) == AsInput(Read64(bs))
  {
    WordSizes();
    hide Pow2, Shl, GetVarintFrom;
    GroupsAgree(bs, 0, 0, 32);
    GroupsAgree(bs, 0, 0, 64);
    if ReadNumber(bs).Some? {
      ShlZero(ReadNumber(bs).value.0);
    }
  }

  // ---- Strings ----

  function ReadText(bs: seq<byte>): (r: Option<(seq<byte>, seq<byte>)>)
    ensures r.Some? ==> |r.value.1| < |bs|
  {
    var n := Read32(bs);
    if n.None? || |n.value.1| < n.value.0 then None else Some((n.value.1[..n.value.0], n.value.1[n.value.0..]))
  }

  lemma TextAgrees(bs: seq<byte>)
    ensures GetLengthPrefixed(bs) == AsInput(ReadText(bs))
  {
    hide GetVarint32, GetVarint64, Read32, Read64;
    NumbersAgree(bs);
  }

  // ---- Write batches ----

  // Type 1 is a key and a value, type 0 a deleted key.
  function ReadOp(bs: seq<byte>): (r: Option<(WriteBatches.BatchOp, seq<byte>)>)
    ensures r.Some? ==> |r.value.1| < |bs|
  {
    if bs == [] || bs[0] > 1 then None
    else
      var key := ReadText(bs[1..]);
      if key.None? then None
      else if bs[0] == 0 then Some((WriteBatches.Delete(key.value.0), key.value.1))
      else
        var value := ReadText(key.value.1);
        if value.None? then None else Some((WriteBatches.Put(key.value.0, value.value.0), value.value.1))
  }

  function ReadOps(bs: seq<byte>): Option<seq<WriteBatches.BatchOp>>
    decreases |bs|
  {
    if bs == [] then Some([])
    else
      var op := ReadOp(bs);
      if op.None? then None
      else
        var rest := ReadOps(op.value.1);
        if rest.None? then None else Some([op.value.0] + rest.value)
  }

  lemma OpAgrees(bs: seq<byte>)
    requires bs != []
    ensures WriteBatches.GetOp(bs) == AsInput(ReadOp(bs))
  {
    hide GetLengthPrefixed, ReadText;
    TextAgrees(bs[1..]);
    if ReadText(bs[1..]).Some? {
      TextAgrees(ReadText(bs[1..]).value.1);
    }
  }

  lemma {:induction false} OpsAgree(bs: seq<byte>)
    ensures WriteBatches.GetOps(bs).status.Ok? <==> ReadOps(bs).Some?
    ensures ReadOps(bs).Some? ==> WriteBatches.GetOps(bs).ops == ReadOps(bs).value
    decreases |bs|
  {
    hide WriteBatches.GetOp, ReadOp, WriteBatches.WhyBad;
    if bs != [] {
      OpAgrees(bs);
      var op := ReadOp(bs);
      if op.Some? {
        OpsAgree(op.value.1);
      }
    }
  }

  // A batch is iterated over without an error exactly when behind twelve bytes there are operations up to the end,
  // as many as the last four of the twelve say.
  lemma BatchIsGood(rep: seq<byte>)
    ensures var r := WriteBatches.IterateSpec(rep);
      && (r.status.Ok? <==> |rep| >= 12 && ReadOps(rep[12..]).Some? && |ReadOps(rep[12..]).value| == WordOf(rep[8..12]))
      && (r.status.Ok? ==> r.ops == ReadOps(rep[12..]).value)
  {
    hide WriteBatches.GetOps, ReadOps, WordOf, FromLittleEndian;
    if |rep| >= 12 {
      OpsAgree(rep[12..]);
      WordIs(rep[8..12]);
      assert rep[8..][..4] == rep[8..12];
    }
  }

  // And every batch that is written is one.
  lemma BatchFollowsFormat(n: nat, ops: seq<WriteBatches.BatchOp>)
    requires n < U64 && |ops| < U32 && forall op :: op in ops ==> WriteBatches.OpFits(op)
    ensures var bs := WriteBatches.BatchBytes(n, ops);
      |bs| >= 12 && WordOf(bs[..8]) == n && WordOf(bs[8..12]) == |ops| && ReadOps(bs[12..]) == Some(ops)
  {
    hide WriteBatches.IterateSpec, ReadOps, WordOf, LittleEndian, WriteBatches.AllOps;
    var bs := WriteBatches.BatchBytes(n, ops);
    WriteBatches.BatchRoundTrip(n, ops);
    BatchIsGood(bs);
    WordSizes();
    assert 8 * 8 == 64;
    WordIsRead(n, 8);
    hide Pow2;
    assert bs[..8] == LittleEndian(n, 8);
  }

  // ---- MANIFEST records ----

  function ReadLevel(bs: seq<byte>): (r: Option<(nat, seq<byte>)>)
    ensures r.Some? ==> |r.value.1| < |bs|
  {
    var n := Read32(bs);
    if n.None? || n.value.0 >= 7 then None else n
  }

  function ReadFile(bs: seq<byte>): (r: Option<(EditCodec.FileMeta, seq<byte>)>)
    ensures r.Some? ==> |r.value.1| < |bs|
  {
    var number := Read64(bs);
    if number.None? then None
    else
      var size := Read64(number.value.1);
      if size.None? then None
      else
        var smallest := ReadText(size.value.1);
        if smallest.None? then None
        else
          var largest := ReadText(smallest.value.1);
          if largest.None? then None
          else Some((EditCodec.FileMeta(number.value.0, size.value.0, smallest.value.0, largest.value.0), largest.value.1))
  }

  function ReadBody(kind: nat, bs: seq<byte>): (r: Option<(EditCodec.Record, seq<byte>)>)
    ensures r.Some? ==> |r.value.1| < |bs|
  {
    if kind == 1 then
      var s := ReadText(bs);
      if s.None? then None else Some((EditCodec.Comparator(s.value.0), s.value.1))
    else if kind == 5 || kind == 6 || kind == 7 then
      var level := ReadLevel(bs);
      if level.None? then None
      else if kind == 5 then
        var key := ReadText(level.value.1);
        if key.None? then None else Some((EditCodec.CompactPointer(level.value.0, key.value.0), key.value.1))
      else if kind == 6 then
        var number := Read64(level.value.1);
        if number.None? then None else Some((EditCodec.DeletedFile(level.value.0, number.value.0), number.value.1))
      else
        var f := ReadFile(level.value.1);
        if f.None? then None else Some((EditCodec.NewFile(level.value.0, f.value.0), f.value.1))
    else
      var n := Read64(bs);
      if n.None? then None
      else if kind == 2 then Some((EditCodec.LogNumber(n.value.0), n.value.1))
      else if kind == 9 then Some((EditCodec.PrevLogNumber(n.value.0), n.value.1))
      else if kind == 3 then Some((EditCodec.NextFile(n.value.0), n.value.1))
      else if kind == 4 then Some((EditCodec.LastSequence(n.value.0), n.value.1))
      else None
  }

  function ReadRecords(bs: seq<byte>): Option<seq<EditCodec.Record>>
    decreases |bs|
  {
    if bs == [] then Some([])
    else
      var kind := Read32(bs);
      if kind.None? then None
      else
        var r := ReadBody(kind.value.0, kind.value.1);
        if r.None? then None
        else
          var rest := ReadRecords(r.value.1);
          if rest.None? then None else Some([r.value.0] + rest.value)
  }

  lemma LevelAgrees(bs: seq<byte>)
    ensures EditCodec.GetLevel(bs) == AsInput(ReadLevel(bs))
  {
    hide GetVarint32, Read32;
    NumbersAgree(bs);
  }

  lemma FileAgrees(bs: seq<byte>)
    ensures EditCodec.GetFile(bs) == AsInput(ReadFile(bs))
  {
    hide GetVarint32, GetVarint64, Read32, Read64, GetLengthPrefixed, ReadText;
    NumbersAgree(bs);
    if Read64(bs).Some? {
      var rest := Read64(bs).value.1;
      NumbersAgree(rest);
      if Read64(rest).Some? {
        TextAgrees(Read64(rest).value.1);
        if ReadText(Read64(rest).value.1).Some? {
          TextAgrees(ReadText(Read64(rest).value.1).value.1);
        }
      }
    }
  }

  lemma BodyAgrees(kind: nat, bs: seq<byte>)
    ensures EditCodec.GetBody(kind, bs) == AsInput(ReadBody(kind, bs))
  {
    hide GetVarint32, GetVarint64, Read32, Read64, GetLengthPrefixed, ReadText, EditCodec.GetLevel, ReadLevel, EditCodec.GetFile, ReadFile;
    TextAgrees(bs);
    NumbersAgree(bs);
    LevelAgrees(bs);
    if ReadLevel(bs).Some? {
      var rest := ReadLevel(bs).value.1;
      TextAgrees(rest);
      NumbersAgree(rest);
      FileAgrees(rest);
    }
  }

  // An edit is decoded without an error exactly when it is records up to the end, and then it is what they say.
  lemma {:induction false} EditIsGood(bs: seq<byte>, e: EditCodec.Fields)
    ensures EditCodec.Parse(bs, e).ok <==> ReadRecords(bs).Some?
    ensures ReadRecords(bs).Some? ==> EditCodec.Parse(bs, e).fields == EditCodec.ApplyAll(e, ReadRecords(bs).value)
    decreases |bs|
  {
    hide GetVarint32, GetVarint64, Read32, Read64, EditCodec.GetBody, ReadBody, EditCodec.Apply;
    NumbersAgree(bs);
    if bs == [] {
      NothingToRead();
    } else if Read32(bs).Some? {
      var kind := Read32(bs).value;
      BodyAgrees(kind.0, kind.1);
      var r := ReadBody(kind.0, kind.1);
      if r.Some? {
        EditIsGood(r.value.1, EditCodec.Apply(e, r.value.0));
        if ReadRecords(bs).Some? {
          assert ReadRecords(bs).value[1..] == ReadRecords(r.value.1).value;
        }
      }
    }
  }

  lemma {:induction false} EditFollowsFormat(rs: seq<EditCodec.Record>)
    requires forall r :: r in rs ==> EditCodec.RecordFits(r)
    ensures ReadRecords(EditCodec.AllBytes(rs)) == Some(rs)
    decreases |rs|
  {
    hide GetVarint32, Read32, EditCodec.GetBody, ReadBody, EditCodec.BodyBytes, Varint, EditCodec.RecordFits, EditCodec.TagOf;
    if rs != [] {
      var r, tail := rs[0], EditCodec.AllBytes(rs[1..]);
      var kind := Varint(EditCodec.TagOf(r));
      Regroup(kind, EditCodec.BodyBytes(r), tail);
      SmallTag(r);
      Varint32RoundTrip(EditCodec.TagOf(r), EditCodec.BodyBytes(r) + tail);
      NumbersAgree(kind + (EditCodec.BodyBytes(r) + tail));
      EditCodec.BodyRoundTrip(r, tail);
      BodyAgrees(EditCodec.TagOf(r), EditCodec.BodyBytes(r) + tail);
      EditFollowsFormat(rs[1..]);
      assert rs == [r] + rs[1..];
      assert kind != [];
    }
  }

  lemma SmallTag(r: EditCodec.Record)
    ensures EditCodec.TagOf(r) < U32
  {
  }

  lemma NothingToRead()
    ensures Read32([]) == None
  {
  }

  // ---- Footers ----

  function ReadHandle(bs: seq<byte>): Option<(TableFooter.BlockHandle, seq<byte>)> {
    var offset := Read64(bs);
    if offset.None? then None
    else
      var size := Read64(offset.value.1);
      if size.None? then None else Some((TableFooter.BlockHandle(offset.value.0, size.value.0), size.value.1))
  }

  lemma HandleAgrees(bs: seq<byte>)
    ensures TableFooter.GetHandle(bs) == AsInput(ReadHandle(bs))
  {
    hide GetVarint32, GetVarint64, Read32, Read64;
    NumbersAgree(bs);
    if Read64(bs).Some? {
      NumbersAgree(Read64(bs).value.1);
    }
  }

  // A footer is accepted exactly when it ends in the magic number and begins with two handles.
  lemma FooterIsGood(bs: seq<byte>)
    requires |bs| == 48
    ensures var meta := ReadHandle(bs);
      TableFooter.DecodeFooter(bs) ==
        if bs[40..] != [0x57, 0xfb, 0x80, 0x8b, 0x24, 0x75, 0x47, 0xdb] || meta.None? || ReadHandle(meta.value.1).None? then None
        else Some((meta.value.0, ReadHandle(meta.value.1).value.0))
  {
    hide TableFooter.GetHandle, ReadHandle, DecodeFixed32;
    HandleAgrees(bs);
    if ReadHandle(bs).Some? {
      HandleAgrees(ReadHandle(bs).value.1);
    }
    MagicIs(bs[40..]);
    assert bs[40..][4..] == bs[44..];
  }

  lemma MagicIs(bs: seq<byte>)
    requires |bs| == 8
    ensures DecodeFixed32(bs) == TableFooter.MAGIC_LOW && DecodeFixed32(bs[4..]) == TableFooter.MAGIC_HIGH <==>
            bs == [0x57, 0xfb, 0x80, 0x8b, 0x24, 0x75, 0x47, 0xdb]
  {
    hide FromLittleEndian, LittleEndian;
    FourIs(bs[..4], TableFooter.MAGIC_LOW, [0x57, 0xfb, 0x80, 0x8b]);
    FourIs(bs[4..], TableFooter.MAGIC_HIGH, [0x24, 0x75, 0x47, 0xdb]);
    assert bs[4..][..4] == bs[4..];
    assert bs == bs[..4] + bs[4..];
  }

  lemma FourIs(bs: seq<byte>, v: nat, expected: seq<byte>)
    requires |bs| == 4 == |expected| && WordOf(expected) == v
    ensures FromLittleEndian(bs) == v <==> bs == expected
  {
    hide WordOf, LittleEndian, FromLittleEndian;
    WordIs(expected);
    LittleEndianOfBytes(bs);
    LittleEndianOfBytes(expected);
  }

  lemma FooterFollowsFormat(meta: TableFooter.BlockHandle, index: TableFooter.BlockHandle)
    requires meta.offset < U64 && meta.size < U64 && index.offset < U64 && index.size < U64
    ensures var bs := TableFooter.FooterBytes(meta, index);
      && |bs| == 48 && bs[40..] == [0x57, 0xfb, 0x80, 0x8b, 0x24, 0x75, 0x47, 0xdb]
      && ReadHandle(bs).Some? && ReadHandle(bs).value.0 == meta
      && ReadHandle(ReadHandle(bs).value.1).Some? && ReadHandle(ReadHandle(bs).value.1).value.0 == index
  {
    hide TableFooter.FooterBytes, TableFooter.DecodeFooter, ReadHandle;
    TableFooter.FooterRoundTrip(meta, index);
    FooterIsGood(TableFooter.FooterBytes(meta, index));
  }
}
