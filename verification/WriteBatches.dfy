/**
  Write batches (db/write_batch.cc): an eight-byte sequence number, a four-byte count and the
  records, in one byte string.
 */
module WriteBatches {
  import opened Bytes
  import opened Coding
  import opened Wrappers

  const HEADER: nat := 12

  datatype BatchOp = Put(key: seq<byte>, value: seq<byte>) | Delete(key: seq<byte>)

  // kTypeValue and kTypeDeletion
  const TYPE_DELETION: byte := 0
  const TYPE_VALUE: byte := 1

  datatype Status = Ok | Corruption(message: string)

  // What a handler is called with, and how the iteration ends.
  datatype Handled = Handled(ops: seq<BatchOp>, status: Status)

  predicate OpFits(op: BatchOp) {
    |op.key| < U32 && (op.Put? ==> |op.value| < U32)
  }

  function OpBytes(op: BatchOp): seq<byte> {
    match op
    case Put(key, value) => [TYPE_VALUE] + (LengthPrefixed(key) + LengthPrefixed(value))
    case Delete(key) => [TYPE_DELETION] + LengthPrefixed(key)
  }

  function AllOps(ops: seq<BatchOp>): seq<byte> {
    if ops == [] then [] else OpBytes(ops[0]) + AllOps(ops[1..])
  }

  // The contents of a batch: n is the sequence number of its first operation.
  function BatchBytes(n: nat, ops: seq<BatchOp>): (bs: seq<byte>)
    ensures |bs| >= HEADER
  {
    LittleEndian(n, 8) + Fixed32(|ops|) + AllOps(ops)
  }

  // One turn of the loop of Iterate, on a non-empty input.
  function GetOp(bs: seq<byte>): (r: Input<BatchOp>)
    requires bs != []
    ensures r.Got? ==> |r.rest| < |bs|
  {
    if bs[0] == TYPE_VALUE then
      var key := GetLengthPrefixed(bs[1..]);
      if key.Bad? then Bad else
      var value := GetLengthPrefixed(key.rest);
      if value.Bad? then Bad else Got(Put(key.value, value.value), value.rest)
    else if bs[0] == TYPE_DELETION then
      var key := GetLengthPrefixed(bs[1..]);
      if key.Bad? then Bad else Got(Delete(key.value), key.rest)
    else Bad
  }

  function WhyBad(bs: seq<byte>): string
    requires bs != []
  {
    if bs[0] == TYPE_VALUE then "bad WriteBatch Put"
    else if bs[0] == TYPE_DELETION then "bad WriteBatch Delete"
    else "unknown WriteBatch tag"
  }

  // The operations of a record area, up to the first that does not parse.
  function GetOps(bs: seq<byte>): (r: Handled)
    decreases |bs|
  {
    if bs == [] then Handled([], Ok)
    else
      var op := GetOp(bs);
      if op.Bad? then Handled([], Corruption(WhyBad(bs)))
      else
        var rest := GetOps(op.rest);
        Handled([op.value] + rest.ops, rest.status)
  }

  // What iterating over a batch does, malformed batches included.
  function IterateSpec(rep: seq<byte>): Handled {
    if |rep| < HEADER then Handled([], Corruption("malformed WriteBatch (too small)"))
    else
      var r := GetOps(rep[HEADER..]);
      if r.status.Ok? && |r.ops| != DecodeFixed32(rep[8..]) then Handled(r.ops, Corruption("WriteBatch has wrong count")) else r
  }

  // ---- Round trip ----

  lemma OpRoundTrip(op: BatchOp, tail: seq<byte>)
    requires OpFits(op)
    ensures OpBytes(op) + tail != [] && GetOp(OpBytes(op) + tail) == Got(op, tail)
  {
    hide GetLengthPrefixed, LengthPrefixed;
    match op
    case Put(key, value) =>
      var k, v := LengthPrefixed(key), LengthPrefixed(value);
      Regroup([TYPE_VALUE], k + v, tail);
      Regroup(k, v, tail);
      AfterTag(TYPE_VALUE, k + v + tail);
      LengthPrefixedRoundTrip(key, v + tail);
      LengthPrefixedRoundTrip(value, tail);
    case Delete(key) =>
      Regroup([TYPE_DELETION], LengthPrefixed(key), tail);
      AfterTag(TYPE_DELETION, LengthPrefixed(key) + tail);
      LengthPrefixedRoundTrip(key, tail);
  }

  lemma AfterTag(tag: byte, bs: seq<byte>)
    ensures ([tag] + bs)[0] == tag && ([tag] + bs)[1..] == bs
  {
  }

  lemma {:induction false} OpsRoundTrip(ops: seq<BatchOp>)
    requires forall op :: op in ops ==> OpFits(op)
    ensures GetOps(AllOps(ops)) == Handled(ops, Ok)
    decreases |ops|
  {
    hide OpBytes, GetOp, OpFits;
    if ops != [] {
      OpRoundTrip(ops[0], AllOps(ops[1..]));
      OpsRoundTrip(ops[1..]);
      assert ops == [ops[0]] + ops[1..];
    }
  }

  lemma {:induction false} OpsOfTwo(a: seq<BatchOp>, b: seq<BatchOp>)
    ensures AllOps(a + b) == AllOps(a) + AllOps(b)
    decreases |a|
  {
    hide OpBytes;
    if a == [] {
      assert a + b == b;
    } else {
      assert (a + b)[1..] == a[1..] + b;
      OpsOfTwo(a[1..], b);
      Regroup(OpBytes(a[0]), AllOps(a[1..]), AllOps(b));
    }
  }

  lemma OneMoreOp(ops: seq<BatchOp>, op: BatchOp)
    ensures AllOps(ops + [op]) == AllOps(ops) + OpBytes(op)
  {
    hide OpBytes;
    OpsOfTwo(ops, [op]);
    assert AllOps([op][1..]) == [];
    assert OpBytes(op) + [] == OpBytes(op);
  }

  lemma BatchParts(n: nat, ops: seq<BatchOp>)
    ensures var bs := BatchBytes(n, ops); bs[..8] == LittleEndian(n, 8) && bs[8..] == Fixed32(|ops|) + AllOps(ops) && bs[HEADER..] == AllOps(ops)
  {
    hide LittleEndian, AllOps;
  }

  // Iterating over a batch calls the handler with its operations, in order.
  lemma BatchRoundTrip(n: nat, ops: seq<BatchOp>)
    requires |ops| < U32 && forall op :: op in ops ==> OpFits(op)
    ensures IterateSpec(BatchBytes(n, ops)) == Handled(ops, Ok)
  {
    hide GetOps, AllOps, OpFits, DecodeFixed32, Fixed32;
    BatchParts(n, ops);
    OpsRoundTrip(ops);
    Fixed32RoundTrip(|ops|, AllOps(ops));
  }

  // Iterating over an appended batch is iterating over its parts, in order.
  lemma IterateAppended(n: nat, a: seq<BatchOp>, m: nat, b: seq<BatchOp>)
    requires |a| + |b| < U32 && (forall op :: op in a + b ==> OpFits(op))
    ensures IterateSpec(BatchBytes(n, a + b)).status == Ok
    ensures IterateSpec(BatchBytes(n, a + b)).ops == IterateSpec(BatchBytes(n, a)).ops + IterateSpec(BatchBytes(m, b)).ops
  {
    hide IterateSpec, BatchBytes, OpFits;
    assert forall op :: op in a ==> op in a + b;
    assert forall op :: op in b ==> op in a + b;
    BatchRoundTrip(n, a + b);
    BatchRoundTrip(n, a);
    BatchRoundTrip(m, b);
  }

  // The inserter gives consecutive numbers to the operations of a batch.
  function Numbered(n: nat, ops: seq<BatchOp>): (r: seq<(nat, BatchOp)>)
    ensures |r| == |ops|
  {
    seq(|ops|, i requires 0 <= i < |ops| => (n + i, ops[i]))
  }

  class WriteBatch {
    var rep: seq<byte>

    // The batch holds these operations, numbered from n.
    ghost predicate Holds(n: nat, ops: seq<BatchOp>)
      reads this
    {
      rep == BatchBytes(n, ops) && |ops| < U32 && n < U64 && forall op :: op in ops ==> OpFits(op)
    }

    ghost predicate Contains(ops: seq<BatchOp>)
      reads this
    {
      |rep| >= HEADER && Holds(Sequence(), ops)
    }

    // WriteBatch(), which calls Clear()
    constructor ()
      ensures Holds(0, []) && Contains([])
    {
      rep := seq(HEADER, _ => 0);
      new;
      ClearedBatch();
      CountIs(0, []);
    }

    method Clear()
      modifies this
      ensures Holds(0, []) && Contains([])
    {
      rep := seq(HEADER, _ => 0);
      ClearedBatch();
      CountIs(0, []);
    }

    function Count(): nat
      requires |rep| >= HEADER
      reads this
    {
      DecodeFixed32(rep[8..])
    }

    method SetCount(count: nat)
      requires |rep| >= HEADER
      modifies this
      ensures rep == old(rep)[..8] + Fixed32(count) + old(rep)[HEADER..]
    {
      rep := rep[..8] + Fixed32(count) + rep[HEADER..];
    }

    // WriteBatchInternal::SetSequence
    method SetSequence(n: nat, ghost ops: seq<BatchOp>)
      requires Contains(ops) && n < U64
      modifies this
      ensures Holds(n, ops) && Contains(ops)
    {
      BatchParts(Sequence(), ops);
      rep := LittleEndian(n, 8) + rep[8..];
      Regroup(LittleEndian(n, 8), Fixed32(|ops|), AllOps(ops));
      CountIs(n, ops);
    }

    function Sequence(): nat
      requires |rep| >= 8
      reads this
    {
      FromLittleEndian(rep[..8])
    }

    method Put(key: seq<byte>, value: seq<byte>, ghost n: nat, ghost ops: seq<BatchOp>)
      requires Holds(n, ops) && |ops| + 1 < U32 && |key| < U32 && |value| < U32
      modifies this
      ensures Holds(n, ops + [BatchOp.Put(key, value)])
    {
      hide AllOps, LengthPrefixed, Fixed32, DecodeFixed32, BatchBytes;
      CountIs(n, ops);
      Pushed(n, ops, BatchOp.Put(key, value));
      SetCount(Count() + 1);
      ghost var before := rep;
      rep := rep + [TYPE_VALUE];
      rep := rep + LengthPrefixed(key);
      rep := rep + LengthPrefixed(value);
      Regroup(before, [TYPE_VALUE], LengthPrefixed(key));
      Regroup(before, [TYPE_VALUE] + LengthPrefixed(key), LengthPrefixed(value));
      Regroup([TYPE_VALUE], LengthPrefixed(key), LengthPrefixed(value));
    }

    method Delete(key: seq<byte>, ghost n: nat, ghost ops: seq<BatchOp>)
      requires Holds(n, ops) && |ops| + 1 < U32 && |key| < U32
      modifies this
      ensures Holds(n, ops + [BatchOp.Delete(key)])
    {
      hide AllOps, LengthPrefixed, Fixed32, DecodeFixed32, BatchBytes;
      CountIs(n, ops);
      Pushed(n, ops, BatchOp.Delete(key));
      SetCount(Count() + 1);
      ghost var before := rep;
      rep := rep + [TYPE_DELETION];
      rep := rep + LengthPrefixed(key);
      Regroup(before, [TYPE_DELETION], LengthPrefixed(key));
    }

    // WriteBatchInternal::Append
    method Append(src: WriteBatch, ghost ops: seq<BatchOp>, ghost more: seq<BatchOp>)
      requires Contains(ops) && src.Contains(more) && |ops| + |more| < U32 && src != this
      modifies this
      ensures Contains(ops + more)
    {
      hide AllOps, Fixed32, DecodeFixed32, BatchBytes, OpFits;
      ghost var n, m := Sequence(), src.Sequence();
      CountIs(n, ops);
      src.CountIs(m, more);
      Joined(n, ops, m, more);
      SetCount(Count() + src.Count());
      rep := rep + src.rep[HEADER..];
      CountIs(n, ops + more);
    }

    lemma CountIs(n: nat, ops: seq<BatchOp>)
      requires Holds(n, ops)
      ensures Count() == |ops| && Sequence() == n && Contains(ops) && |rep| == HEADER + |AllOps(ops)|
    {
      hide AllOps;
      BatchParts(n, ops);
      Fixed32RoundTrip(|ops|, AllOps(ops));
      WordSizes();
      LittleEndianRoundTrip(n, 8);
    }

    lemma SizeIs(ops: seq<BatchOp>)
      requires Contains(ops)
      ensures |rep| == HEADER + |AllOps(ops)| && |ops| < U32
    {
      CountIs(Sequence(), ops);
    }

    // WriteBatch::Iterate: a handler sees the operations one by one.
    method Iterate() returns (r: Handled)
      ensures r == IterateSpec(rep)
    {
      if |rep| < HEADER {
        return Handled([], Corruption("malformed WriteBatch (too small)"));
      }
      var input := rep[HEADER..];
      var ops: seq<BatchOp> := [];
      var found := 0;
      while input != []
        invariant found == |ops|
        invariant GetOps(rep[HEADER..]) == Handled(ops + GetOps(input).ops, GetOps(input).status)
        decreases |input|
      {
        found := found + 1;
        var op := GetOp(input);
        if op.Bad? {
          assert ops + [] == ops;
          return Handled(ops, Corruption(WhyBad(input)));
        }
        Regroup(ops, [op.value], GetOps(op.rest).ops);
        ops := ops + [op.value];
        input := op.rest;
      }
      assert ops + [] == ops;
      r := Handled(ops, if found != Count() then Corruption("WriteBatch has wrong count") else Ok);
    }

    // WriteBatchInternal::InsertInto: the entries that go to the memtable.
    method InsertInto(ghost n: nat, ghost ops: seq<BatchOp>) returns (entries: seq<(nat, BatchOp)>, status: Status)
      requires Holds(n, ops)
      ensures status == Ok && entries == Numbered(n, ops)
    {
      hide GetOps, AllOps, IterateSpec, BatchBytes;
      CountIs(n, ops);
      BatchRoundTrip(n, ops);
      var r := Iterate();
      var number := Sequence();
      entries := [];
      for i := 0 to |r.ops|
        invariant number == n + i && |entries| == i
        invariant forall j :: 0 <= j < i ==> entries[j] == (n + j, ops[j])
      {
        entries := entries + [(number, r.ops[i])];
        number := number + 1;
      }
      status := r.status;
    }
  }

  lemma ClearedBatch()
    ensures BatchBytes(0, []) == seq(HEADER, _ => 0)
  {
    assert LittleEndian(0, 4) == [0, 0, 0, 0];
    assert LittleEndian(0, 8) == [0, 0, 0, 0] + LittleEndian(0, 4);
  }

  lemma Pushed(n: nat, ops: seq<BatchOp>, op: BatchOp)
    ensures var a := BatchBytes(n, ops);
      a[..8] + Fixed32(|ops| + 1) + a[HEADER..] + OpBytes(op) == BatchBytes(n, ops + [op])
  {
    hide AllOps, OpBytes, Fixed32, LittleEndian;
    BatchParts(n, ops);
    OneMoreOp(ops, op);
    Regroup(LittleEndian(n, 8) + Fixed32(|ops| + 1), AllOps(ops), OpBytes(op));
  }

  lemma Joined(n: nat, ops: seq<BatchOp>, m: nat, more: seq<BatchOp>)
    ensures var a, b := BatchBytes(n, ops), BatchBytes(m, more);
      a[..8] + Fixed32(|ops| + |more|) + a[HEADER..] + b[HEADER..] == BatchBytes(n, ops + more)
  {
    hide AllOps, Fixed32, LittleEndian;
    BatchParts(n, ops);
    BatchParts(m, more);
    OpsOfTwo(ops, more);
    Regroup(LittleEndian(n, 8) + Fixed32(|ops| + |more|), AllOps(ops), AllOps(more));
  }
}
