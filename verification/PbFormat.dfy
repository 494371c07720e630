/**
  The wire format, as the Protocol Buffers encoding guide gives it, read without looking at the encoder: a
  message is a sequence of records, each a key and a payload.  A key is tag * 8 + wire type; wire type 0 is a
  base-128 number, 1 is eight bytes, 2 is a length and that many bytes, and 5 is four bytes.
 */
module PbFormat {
  import opened Wrappers
  import opened Bytes
  import opened PbWire
  import opened PbFields
  import opened PbEncode

  // ---- A reader of the format ----

  datatype Payload = Number(n: nat) | Eight(bytes: seq<byte>) | Sized(bytes: seq<byte>) | Four(bytes: seq<byte>)
  datatype Record = Record(tag: nat, payload: Payload)

  function ReadPart(bs: seq<byte>, n: nat): (r: Option<(seq<byte>, seq<byte>)>)
    ensures r.Some? ==> |r.value.1| <= |bs|
  {
    if |bs| < n then None else Some((bs[..n], bs[n..]))
  }

  function ReadPayload(wireType: nat, bs: seq<byte>): (r: Option<(Payload, seq<byte>)>)
    ensures r.Some? ==> |r.value.1| <= |bs|
  {
    if wireType == 0 then
      var r := ReadNumber(bs);
      if r.None? then None else Some((Number(r.value.0), r.value.1))
    else if wireType == 1 then
      var r := ReadPart(bs, 8);
      if r.None? then None else Some((Eight(r.value.0), r.value.1))
    else if wireType == 2 then
      var n := ReadNumber(bs);
      if n.None? then None
      else
        var r := ReadPart(n.value.1, n.value.0);
        if r.None? then None else Some((Sized(r.value.0), r.value.1))
    else if wireType == 5 then
      var r := ReadPart(bs, 4);
      if r.None? then None else Some((Four(r.value.0), r.value.1))
    else None
  }

  function ReadRecord(bs: seq<byte>): (r: Option<(Record, seq<byte>)>)
    ensures r.Some? ==> |r.value.1| < |bs|
  {
    var key := ReadNumber(bs);
    if key.None? then None
    else
      var r := ReadPayload(key.value.0 % 8, key.value.1);
      if r.None? then None else Some((Record(key.value.0 / 8, r.value.0), r.value.1))
  }

  function ReadRecords(bs: seq<byte>): Option<seq<Record>>
    decreases |bs|
  {
    if bs == [] then Some([])
    else
      var r := ReadRecord(bs);
      if r.None? then None
      else
        var rest := ReadRecords(r.value.1);
        if rest.None? then None else Some([r.value.0] + rest.value)
  }

  // ---- What records say about a message ----

  predicate IsNumber(lt: LType) {
    match lt
    case TBool => true
    case TVarint(_) => true
    case TUvarint(_) => true
    case TSvarint(_) => true
    case _ => false
  }

  // A number type and the fixed-size words can be packed.
  predicate IsScalar(lt: LType) {
    IsNumber(lt) || lt == TFixed32 || lt == TFixed64
  }

  // The wire type of a type.
  function WireNumber(lt: LType): nat {
    if lt == TFixed32 then 5 else if lt == TFixed64 then 1 else if IsNumber(lt) then 0 else 2
  }

  // A value with nothing in it: a proto3 field of this value is not written.
  ghost predicate Empty(lt: LType, v: Value)
    requires HasType(lt, v)
    decreases lt
  {
    match lt
    case TBool => v.b == false
    case TBytes(_) => v.bytes == []
    case TString(_) => v.bytes == []
    case TFixedBytes(_) => v.bytes == []
    case TMessage(fields) => Shaped(fields, v.slots) && forall i :: 0 <= i < |fields| ==> RecordCount(fields[i], v.slots[i]) == 0
    case _ => v.i == 0
  }

  // How many records a field is written as.
  ghost function RecordCount(f: Field, s: Slot): nat
    requires SlotShaped(f, s)
    decreases f
  {
    match s
    case One(v) => if f.rule == Singular && Empty(f.ltype, v) then 0 else 1
    case Maybe(o) => if o.None? then 0 else 1
    case Many(items) => if items == [] then 0 else if IsScalar(f.ltype) then 1 else |items|
  }

  // The payload is this value.
  ghost predicate Says(lt: LType, v: Value, p: Payload)
    requires HasType(lt, v)
    decreases lt, 0
  {
    match lt
    case TBool => p == Number(if v.b then 1 else 0)
    case TVarint(_) => p.Number? && p.n == if v.i >= 0 then v.i else v.i + 0x1_0000_0000_0000_0000
    case TUvarint(_) => p == Number(v.i)
    case TSvarint(_) => p == Number(if v.i >= 0 then 2 * v.i else -2 * v.i - 1)
    case TFixed32 => p.Four? && |p.bytes| == 4 && WordOf(p.bytes) == v.i
    case TFixed64 => p.Eight? && |p.bytes| == 8 && WordOf(p.bytes) == v.i
    case TMessage(fields) => p.Sized? && var rs := ReadRecords(p.bytes); rs.Some? && Tells(fields, v.slots, |fields|, rs.value)
    case TBytes(_) => p == Sized(v.bytes)
    case TString(_) => p == Sized(v.bytes)
    case TFixedBytes(_) => p == Sized(v.bytes)
  }

  // Items one after the other, without keys.
  ghost predicate SaysPacked(lt: LType, items: seq<Value>, bs: seq<byte>)
    requires AllTyped(lt, items)
    decreases lt, 1, items
  {
    if items == [] then bs == []
    else
      var r := ReadPayload(WireNumber(lt), bs);
      r.Some? && Says(lt, items[0], r.value.0) && SaysPacked(lt, items[1..], r.value.1)
  }

  // These are the records of a field.
  ghost predicate FieldSays(f: Field, s: Slot, rs: seq<Record>)
    requires SlotShaped(f, s)
    decreases f
  {
    && |rs| == RecordCount(f, s)
    && (forall i :: 0 <= i < |rs| ==> rs[i].tag == f.tag)
    && (rs != [] ==>
          match s
          case One(v) => Says(f.ltype, v, rs[0].payload)
          case Maybe(o) => Says(f.ltype, o.value, rs[0].payload)
          case Many(items) =>
            if IsScalar(f.ltype) then rs[0].payload.Sized? && SaysPacked(f.ltype, items, rs[0].payload.bytes)
            else forall i :: 0 <= i < |rs| ==> Says(f.ltype, items[i], rs[i].payload))
  }

  // These are the records of the first n fields, in order.
  ghost predicate Tells(fields: seq<Field>, slots: seq<Slot>, n: nat, rs: seq<Record>)
    requires Shaped(fields, slots) && n <= |fields|
    decreases fields, n
  {
    if n == 0 then rs == []
    else
      var k := RecordCount(fields[n - 1], slots[n - 1]);
      k <= |rs| && Tells(fields, slots, n - 1, rs[..|rs| - k]) && FieldSays(fields[n - 1], slots[n - 1], rs[|rs| - k..])
  }

  // ---- Numbers and words ----

  lemma PartIsRead(a: seq<byte>, tail: seq<byte>)
    ensures ReadPart(a + tail, |a|) == Some((a, tail))
  {
  }

  lemma SizedIsRead(bs: seq<byte>, tail: seq<byte>)
    ensures ReadPayload(2, Delimited(bs) + tail) == Some((Sized(bs), tail))
  {
    hide ReadNumber, ReadPart, Varint;
    Regroup(Varint(|bs|), bs, tail);
    NumberIsRead(|bs|, bs + tail);
    PartIsRead(bs, tail);
  }

  // ---- Nothing in a value ----

  lemma EmptyIff(lt: LType, v: Value)
    requires HasType(lt, v)
    ensures IsDefaultValue(lt, v) <==> Empty(lt, v)
    decreases lt
  {
    if lt.TMessage? {
      NothingWrittenIff(lt.fields, v.slots);
    }
  }

  lemma NothingWrittenIff(fields: seq<Field>, slots: seq<Slot>)
    requires |fields| == |slots| && forall i :: 0 <= i < |fields| ==> SlotShaped(fields[i], slots[i])
    ensures AllDefault(fields, slots) <==> forall i :: 0 <= i < |fields| ==> RecordCount(fields[i], slots[i]) == 0
    decreases fields
  {
    if fields != [] {
      CountIff(fields[0], slots[0]);
      NothingWrittenIff(fields[1..], slots[1..]);
      hide RecordCount, IsDefaultSlot, SlotShaped;
      assert forall i :: 0 < i < |fields| ==> fields[i] == fields[1..][i - 1] && slots[i] == slots[1..][i - 1];
    }
  }

  lemma CountIff(f: Field, s: Slot)
    requires SlotShaped(f, s)
    ensures IsDefaultSlot(f, s) <==> RecordCount(f, s) == 0
    decreases f
  {
    if s.One? {
      EmptyIff(f.ltype, s.value);
    }
  }

  // ---- What the encoder writes is read ----

  // A payload as it was written.
  ghost predicate ReadsValue(lt: LType, v: Value, p: Payload)
    requires HasType(lt, v)
  {
    Says(lt, v, p) && forall tail :: ReadPayload(WireNumber(lt), EncValue(lt, v) + tail) == Some((p, tail))
  }

  lemma ScalarIsRead(lt: LType, v: Value) returns (p: Payload)
    requires ValidType(lt) && IsScalar(lt) && HasType(lt, v)
    ensures ReadsValue(lt, v, p)
  {
    if lt.TFixed32? {
      p := WordPayload(lt, v, 4);
    } else if lt.TFixed64? {
      p := WordPayload(lt, v, 8);
    } else {
      p := NumberPayload(lt, v);
    }
  }

  lemma WordPayload(lt: LType, v: Value, size: nat) returns (p: Payload)
    requires HasType(lt, v) && size == (if lt.TFixed32? then 4 else 8) && (lt.TFixed32? || lt.TFixed64?)
    ensures ReadsValue(lt, v, p)
  {
    hide Pow2, WordOf, LittleEndian, Varint, ReadNumber;
    WordSizes();
    assert 8 * 4 == 32 && 8 * 8 == 64;
    WordIsRead(v.i, size);
    var bytes := LittleEndian(v.i, size);
    p := if size == 4 then Four(bytes) else Eight(bytes);
    forall tail ensures ReadPayload(WireNumber(lt), EncValue(lt, v) + tail) == Some((p, tail)) {
      PartIsRead(bytes, tail);
    }
  }

  lemma NumberPayload(lt: LType, v: Value) returns (p: Payload)
    requires ValidType(lt) && IsNumber(lt) && HasType(lt, v)
    ensures ReadsValue(lt, v, p)
  {
    hide Varint, ReadNumber, Pow2;
    if lt.TVarint? || lt.TSvarint? {
      BelowWord(lt.bits, v.i);
    }
    var n: nat := if lt.TBool? then (if v.b then 1 else 0) else if lt.TVarint? then Unsigned64(v.i)
      else if lt.TUvarint? then v.i else Zigzag(v.i);
    p := Number(n);
    forall tail ensures ReadPayload(WireNumber(lt), EncValue(lt, v) + tail) == Some((p, tail)) {
      NumberIsRead(n, tail);
    }
  }

  lemma BelowWord(bits: nat, i: int)
    requires ValidBits(bits) && FitsSigned(i, bits)
    ensures Unsigned64(i) == if i >= 0 then i else i + 0x1_0000_0000_0000_0000
  {
    Pow2Monotone(bits - 1, 63);
    WordSizes();
    assert Pow2(63) * 2 == U64;
  }

  lemma BytesAreRead(lt: LType, v: Value) returns (p: Payload)
    requires HasType(lt, v) && (lt.TBytes? || lt.TString? || lt.TFixedBytes?)
    ensures ReadsValue(lt, v, p)
  {
    hide ReadPayload, Delimited;
    p := Sized(v.bytes);
    forall tail ensures ReadPayload(WireNumber(lt), EncValue(lt, v) + tail) == Some((p, tail)) {
      SizedIsRead(v.bytes, tail);
    }
  }

  lemma ValueIsRead(lt: LType, v: Value) returns (p: Payload)
    requires ValidType(lt) && HasType(lt, v)
    ensures ReadsValue(lt, v, p)
    decreases lt, 1
  {
    if lt.TMessage? {
      p := MessageIsRead(lt, v);
    } else if IsScalar(lt) {
      p := ScalarIsRead(lt, v);
    } else {
      p := BytesAreRead(lt, v);
    }
  }

  lemma MessageIsRead(lt: LType, v: Value) returns (p: Payload)
    requires ValidType(lt) && HasType(lt, v) && lt.TMessage?
    ensures ReadsValue(lt, v, p)
    decreases lt, 0
  {
    var bs := Enc(lt.fields, v.slots);
    p := Sized(bs);
    var rs := FormatOfEncoding(lt.fields, v.slots);
    hide ReadPayload, Delimited, Enc, Tells, ReadRecords, Shaped, ValidFields;
    forall tail ensures ReadPayload(WireNumber(lt), EncValue(lt, v) + tail) == Some((p, tail)) {
      SizedIsRead(bs, tail);
    }
  }

  lemma RecordIsRead(tag: nat, wireType: nat, bs: seq<byte>, p: Payload, tail: seq<byte>)
    requires wireType < 8 && ReadPayload(wireType, bs + tail) == Some((p, tail))
    ensures ReadRecord(EncTag(wireType, tag) + bs + tail) == Some((Record(tag, p), tail))
    ensures ReadRecords(tail).Some? ==> ReadRecords(EncTag(wireType, tag) + bs + tail) == Some([Record(tag, p)] + ReadRecords(tail).value)
  {
    hide ReadPayload, Varint, ReadNumber;
    Regroup(EncTag(wireType, tag), bs, tail);
    NumberIsRead(tag * 8 + wireType, bs + tail);
    assert (tag * 8 + wireType) % 8 == wireType && (tag * 8 + wireType) / 8 == tag;
    NotEmpty(tag * 8 + wireType, bs + tail);
  }

  lemma NotEmpty(n: nat, tail: seq<byte>)
    ensures Varint(n) + tail != []
  {
  }

  // One value under its key.
  lemma KeyedIsRead(f: Field, v: Value, tail: seq<byte>) returns (r: Record)
    requires ValidField(f) && HasType(f.ltype, v) && ReadRecords(tail).Some?
    ensures r.tag == f.tag && Says(f.ltype, v, r.payload)
    ensures ReadRecords(EncTag(WireType(f.ltype), f.tag) + EncValue(f.ltype, v) + tail) == Some([r] + ReadRecords(tail).value)
    decreases f.ltype, 2
  {
    var p := ValueIsRead(f.ltype, v);
    hide ReadPayload, EncValue, EncTag, ReadRecords, Says, HasType;
    r := Record(f.tag, p);
    RecordIsRead(f.tag, WireType(f.ltype), EncValue(f.ltype, v), p, tail);
  }

  lemma {:induction false} PackedFromFront(lt: LType, items: seq<Value>)
    requires AllTyped(lt, items) && items != []
    ensures EncPacked(lt, items) == EncValue(lt, items[0]) + EncPacked(lt, items[1..])
    decreases items
  {
    var n := |items| - 1;
    hide EncValue, HasType;
    if n == 0 {
      assert items[..0] == [] && items[1..] == [];
      assert [] + EncValue(lt, items[0]) == EncValue(lt, items[0]) + [];
    } else {
      PackedFromFront(lt, items[..n]);
      assert items[..n][1..] == items[1..][..n - 1];
      Regroup(EncValue(lt, items[0]), EncPacked(lt, items[1..n]), EncValue(lt, items[n]));
    }
  }

  lemma {:induction false} PackedIsRead(lt: LType, items: seq<Value>)
    requires ValidType(lt) && IsScalar(lt) && AllTyped(lt, items)
    ensures SaysPacked(lt, items, EncPacked(lt, items))
    decreases items
  {
    if items != [] {
      var p := ScalarIsRead(lt, items[0]);
      PackedFromFront(lt, items);
      PackedIsRead(lt, items[1..]);
      hide EncPacked, EncValue, ReadPayload, Says, HasType;
    }
  }

  lemma {:induction false} TaggedAreRead(f: Field, items: seq<Value>, k: nat, tail: seq<byte>) returns (rs: seq<Record>)
    requires ValidField(f) && AllTyped(f.ltype, items) && k <= |items| && ReadRecords(tail).Some?
    ensures |rs| == k && forall i :: 0 <= i < k ==> rs[i].tag == f.tag && Says(f.ltype, items[i], rs[i].payload)
    ensures ReadRecords(EncTagged(f, items[..k]) + tail) == Some(rs + ReadRecords(tail).value)
    decreases f.ltype, 3, k
  {
    hide EncTagged, EncValue, EncTag, WireType, HasType, ReadRecords, Says, ValidField;
    if k == 0 {
      NoTags(f, items);
      rs := [];
      assert EncTagged(f, items[..0]) + tail == tail;
      assert [] + ReadRecords(tail).value == ReadRecords(tail).value;
    } else {
      TaggedStep(f, items, k - 1);
      var r := KeyedIsRead(f, items[k - 1], tail);
      var keyed := EncTag(WireType(f.ltype), f.tag) + EncValue(f.ltype, items[k - 1]);
      var before := TaggedAreRead(f, items, k - 1, keyed + tail);
      rs := before + [r];
      Regroup(EncTagged(f, items[..k - 1]), keyed, tail);
      assert before + ([r] + ReadRecords(tail).value) == rs + ReadRecords(tail).value;
    }
  }

  lemma NoTags(f: Field, items: seq<Value>)
    requires AllTyped(f.ltype, items)
    ensures EncTagged(f, items[..0]) == []
  {
  }

  lemma FieldIsRead(f: Field, s: Slot, tail: seq<byte>) returns (rs: seq<Record>)
    requires ValidField(f) && SlotShaped(f, s) && ReadRecords(tail).Some?
    ensures FieldSays(f, s, rs)
    ensures ReadRecords(EncField(f, s) + tail) == Some(rs + ReadRecords(tail).value)
    decreases f
  {
    CountIff(f, s);
    if RecordCount(f, s) == 0 {
      rs := [];
      NothingWritten(f, s);
      assert [] + tail == tail && [] + ReadRecords(tail).value == ReadRecords(tail).value;
    } else if s.Many? {
      rs := ItemsAreRead(f, s.items, tail);
    } else {
      var v := if s.One? then s.value else s.option.value;
      var r := KeyedIsRead(f, v, tail);
      rs := [r];
      hide ReadRecords, EncValue, EncTag, Says, HasType, ValidField;
    }
  }

  lemma NothingWritten(f: Field, s: Slot)
    requires SlotShaped(f, s) && RecordCount(f, s) == 0
    ensures EncField(f, s) == []
  {
    if s.One? {
      EmptyIff(f.ltype, s.value);
    }
  }

  lemma ItemsAreRead(f: Field, items: seq<Value>, tail: seq<byte>) returns (rs: seq<Record>)
    requires ValidField(f) && SlotShaped(f, Many(items)) && items != [] && ReadRecords(tail).Some?
    ensures FieldSays(f, Many(items), rs)
    ensures ReadRecords(EncField(f, Many(items)) + tail) == Some(rs + ReadRecords(tail).value)
    decreases f.ltype, 4
  {
    if IsScalar(f.ltype) {
      var data := EncPacked(f.ltype, items);
      PackedIsRead(f.ltype, items);
      SizedIsRead(data, tail);
      RecordIsRead(f.tag, 2, Delimited(data), Sized(data), tail);
      rs := [Record(f.tag, Sized(data))];
      hide ReadRecords, ReadPayload, EncPacked, Delimited, EncTag, SaysPacked, HasType;
    } else {
      rs := TaggedAreRead(f, items, |items|, tail);
      assert items[..|items|] == items;
      hide ReadRecords, EncTagged, HasType, Says;
    }
  }

  lemma {:induction false} FieldsAreRead(fields: seq<Field>, slots: seq<Slot>, n: nat, tail: seq<byte>) returns (rs: seq<Record>)
    requires ValidFields(fields) && Shaped(fields, slots) && n <= |fields| && ReadRecords(tail).Some?
    ensures Tells(fields, slots, n, rs)
    ensures ReadRecords(EncFields(fields, slots, n) + tail) == Some(rs + ReadRecords(tail).value)
    decreases fields, n
  {
    if n == 0 {
      rs := [];
      assert [] + tail == tail && [] + ReadRecords(tail).value == ReadRecords(tail).value;
    } else {
      assert ValidField(fields[n - 1]) && SlotShaped(fields[n - 1], slots[n - 1]);
      var bytes := EncField(fields[n - 1], slots[n - 1]);
      var last := FieldIsRead(fields[n - 1], slots[n - 1], tail);
      var before := FieldsAreRead(fields, slots, n - 1, bytes + tail);
      hide ReadRecords, EncField, FieldSays, Shaped, SlotShaped, ValidFields;
      rs := before + last;
      Regroup(EncFields(fields, slots, n - 1), bytes, tail);
      assert before + (last + ReadRecords(tail).value) == rs + ReadRecords(tail).value;
      assert rs[..|rs| - |last|] == before && rs[|rs| - |last|..] == last;
    }
  }

  // The encoding of a message is read as exactly the records of its fields, in order, and nested messages
  // likewise.
  lemma FormatOfEncoding(fields: seq<Field>, slots: seq<Slot>) returns (rs: seq<Record>)
    requires ValidFields(fields) && Shaped(fields, slots)
    ensures ReadRecords(Enc(fields, slots)) == Some(rs) && Tells(fields, slots, |fields|, rs)
    decreases fields, |fields| + 1
  {
    assert ReadRecords([]) == Some([]);
    rs := FieldsAreRead(fields, slots, |fields|, []);
    hide Tells, ReadRecords;
    assert Enc(fields, slots) + [] == Enc(fields, slots) && rs + [] == rs;
  }
}
