/**
  Messages that no encoder here writes: with unknown fields in between, with arrays that are not packed, and in
  several parts.  The format promises that unknown fields are ignored and that parts merge.
 */
module PbParts {
  import opened Wrappers
  import opened Bytes
  import opened PbWire
  import opened PbFields
  import opened PbEncode
  import opened PbDecode
  import opened PbFormat
  import opened PbReading
  import opened PbRoundTrip
  import opened PbMessages

  // ---- Records as the decoder takes them ----

  // Keys and lengths fit 32 bits, and the key is not the zero that ends a message.
  predicate Regular(r: Record) {
    r.tag < 0x2000_0000 && !(r.tag == 0 && r.payload.Number?) && (r.payload.Sized? ==> |r.payload.bytes| < 0x1_0000_0000)
  }

  function WireOf(p: Payload): nat {
    match p
    case Number(_) => 0
    case Eight(_) => 1
    case Sized(_) => 2
    case Four(_) => 5
  }

  lemma RecordParts(bs: seq<byte>)
    requires ReadRecord(bs).Some? && Regular(ReadRecord(bs).value.0)
    ensures var (r, rest) := ReadRecord(bs).value;
      var key := DecodeVarint32(bs);
      && bs != [] && key.Parsed? && key.value == r.tag * 8 + WireOf(r.payload) && key.value != 0
      && key.value / 8 == r.tag && key.value % 8 == WireOf(r.payload)
      && ReadPayload(WireOf(r.payload), key.rest) == Some((r.payload, rest))
      && (r.payload.Sized? ==> FitsWord32(key.rest))
  {
    hide ReadNumber, DecodeVarint32;
    WholeVarint32(bs);
  }

  // ---- Reading is local ----

  lemma {:induction false} NumberLocal(a: seq<byte>, b: seq<byte>)
    ensures ReadNumber(a).Some? ==> ReadNumber(a + b) == Some((ReadNumber(a).value.0, ReadNumber(a).value.1 + b))
  {
    if a != [] {
      assert (a + b)[1..] == a[1..] + b;
      NumberLocal(a[1..], b);
    }
  }

  lemma PayloadLocal(wireType: nat, a: seq<byte>, b: seq<byte>)
    ensures ReadPayload(wireType, a).Some? ==>
              ReadPayload(wireType, a + b) == Some((ReadPayload(wireType, a).value.0, ReadPayload(wireType, a).value.1 + b))
  {
    hide ReadNumber;
    NumberLocal(a, b);
    if wireType == 2 && ReadNumber(a).Some? {
      PartLocal(ReadNumber(a).value.1, b, ReadNumber(a).value.0);
    }
    PartLocal(a, b, 8);
    PartLocal(a, b, 4);
  }

  lemma PartLocal(a: seq<byte>, b: seq<byte>, n: nat)
    ensures ReadPart(a, n).Some? ==> ReadPart(a + b, n) == Some((ReadPart(a, n).value.0, ReadPart(a, n).value.1 + b))
  {
    if n <= |a| {
      assert (a + b)[..n] == a[..n] && (a + b)[n..] == a[n..] + b;
    }
  }

  lemma RecordLocal(a: seq<byte>, b: seq<byte>)
    ensures ReadRecord(a).Some? ==> ReadRecord(a + b) == Some((ReadRecord(a).value.0, ReadRecord(a).value.1 + b))
  {
    hide ReadNumber, ReadPayload;
    NumberLocal(a, b);
    if ReadNumber(a).Some? {
      PayloadLocal(ReadNumber(a).value.0 % 8, ReadNumber(a).value.1, b);
    }
  }

  // ---- Unknown fields ----

  ghost predicate Unknown(fields: seq<Field>, tag: nat) {
    forall n :: 0 <= n < |fields| ==> fields[n].tag != tag
  }

  // A record of an unknown field changes nothing.
  lemma UnknownRecord(fields: seq<Field>, slots: seq<Slot>, seen: set<nat>, bs: seq<byte>)
    requires ValidFields(fields) && Shaped(fields, slots)
    requires ReadRecord(bs).Some? && Regular(ReadRecord(bs).value.0) && Unknown(fields, ReadRecord(bs).value.0.tag)
    ensures DecodeFrom(fields, slots, seen, bs) == DecodeFrom(fields, slots, seen, ReadRecord(bs).value.1)
  {
    hide ReadPayload, ReadRecord, DecodeVarint32, SkipField, DecodeField, Shaped, ValidFields, Regular;
    RecordParts(bs);
    var key := DecodeVarint32(bs);
    SkipAgrees(key.value % 8, key.rest);
    assert forall n :: !HasTag(fields, n, key.value / 8);
  }

  ghost predicate AllUnknown(fields: seq<Field>, bs: seq<byte>) {
    ReadRecords(bs).Some? && forall r :: r in ReadRecords(bs).value ==> Regular(r) && Unknown(fields, r.tag)
  }

  lemma {:induction false} UnknownRecords(fields: seq<Field>, slots: seq<Slot>, seen: set<nat>, bs: seq<byte>, tail: seq<byte>)
    requires ValidFields(fields) && Shaped(fields, slots) && AllUnknown(fields, bs)
    ensures DecodeFrom(fields, slots, seen, bs + tail) == DecodeFrom(fields, slots, seen, tail)
    decreases |bs|
  {
    hide ReadRecord, DecodeFrom, Shaped, ValidFields, Regular, Unknown;
    if bs == [] {
      assert bs + tail == tail;
    } else {
      var (r, rest) := ReadRecord(bs).value;
      assert r in ReadRecords(bs).value;
      RecordLocal(bs, tail);
      UnknownRecord(fields, slots, seen, bs + tail);
      assert forall x :: x in ReadRecords(rest).value ==> x in ReadRecords(bs).value;
      UnknownRecords(fields, slots, seen, rest, tail);
    }
  }

  // The first n fields of a message, with unknown records before each.
  ghost function Mixed(fields: seq<Field>, m: seq<Slot>, unknown: seq<seq<byte>>, n: nat): seq<byte>
    requires Shaped(fields, m) && n <= |fields| <= |unknown|
  {
    if n == 0 then [] else Mixed(fields, m, unknown, n - 1) + (unknown[n - 1] + FieldBytes(fields, m, n - 1))
  }

  lemma {:induction false} MixedDecodes(fields: seq<Field>, m: seq<Slot>, unknown: seq<seq<byte>>, n: nat, tail: seq<byte>)
    requires ValidFields(fields) && Shaped(fields, m) && Fits(fields, m) && |Enc(fields, m)| < U32 && n <= |fields| <= |unknown|
    requires forall i :: 0 <= i < |unknown| ==> AllUnknown(fields, unknown[i])
    ensures After(fields, m, 0, Mixed(fields, m, unknown, n) + tail) == After(fields, m, n, tail)
    decreases n
  {
    hide After, Shaped, ValidFields, Fits, Enc, AllUnknown, FieldBytes;
    if n == 0 {
      assert [] + tail == tail;
    } else {
      var bytes := FieldBytes(fields, m, n - 1);
      Regroup(Mixed(fields, m, unknown, n - 1), unknown[n - 1] + bytes, tail);
      Regroup(unknown[n - 1], bytes, tail);
      MixedDecodes(fields, m, unknown, n - 1, unknown[n - 1] + (bytes + tail));
      UnknownAfter(fields, m, n - 1, unknown[n - 1], bytes + tail);
      FieldAdded(fields, m, n - 1, tail);
    }
  }

  lemma UnknownAfter(fields: seq<Field>, m: seq<Slot>, n: nat, bs: seq<byte>, tail: seq<byte>)
    requires ValidFields(fields) && Shaped(fields, m) && n <= |fields| && AllUnknown(fields, bs)
    ensures After(fields, m, n, bs + tail) == After(fields, m, n, tail)
  {
    hide ValidFields, AllUnknown, Partly, SlotShaped;
    PartlyShaped(fields, m, n);
    UnknownRecords(fields, Partly(fields, m, n), SeenUpTo(fields, n), bs, tail);
  }

  // A message with unknown fields put anywhere between its fields is decoded to the same message.
  lemma UnknownFieldsAreIgnored(fields: seq<Field>, m: seq<Slot>, unknown: seq<seq<byte>>)
    requires ValidFields(fields) && Shaped(fields, m) && Fits(fields, m) && |Enc(fields, m)| < U32 && |unknown| == |fields| + 1
    requires forall i :: 0 <= i < |unknown| ==> AllUnknown(fields, unknown[i])
    ensures Decode(fields, Mixed(fields, m, unknown, |fields|) + unknown[|fields|]) == Parsed(m, [])
  {
    hide Shaped, ValidFields, Fits, Enc, AllUnknown, After, Mixed, DecodeFrom, AllSeen, Defaults;
    var n := |fields|;
    DefaultsShaped(fields);
    MixedDecodes(fields, m, unknown, n, unknown[n]);
    assert unknown[n] + [] == unknown[n];
    UnknownAfter(fields, m, n, unknown[n], []);
    FirstAndLast(fields, m);
    AllRequiredSeen(fields);
  }

  // ---- The tags are those of the records ----

  // The payload has the wire type of the field with this tag: an array of scalars may be packed or not.
  ghost predicate SuitsField(fields: seq<Field>, r: Record) {
    forall n :: 0 <= n < |fields| && fields[n].tag == r.tag ==> Suits(fields[n], WireOf(r.payload))
  }

  predicate Suits(f: Field, wireType: nat) {
    wireType == WireNumber(f.ltype) || (f.rule.Repeated? && IsScalar(f.ltype) && wireType == 2)
  }

  // The decoder of a field ends where the payload does.
  lemma ValueRest(lt: LType, current: Value, item: bool, bs: seq<byte>)
    requires ValidType(lt) && HasType(lt, current) && (WireNumber(lt) == 2 ==> FitsWord32(bs))
    ensures var p := DecodeValue(lt, current, item, bs);
      p.Parsed? ==> ReadPayload(WireNumber(lt), bs).Some? && p.rest == ReadPayload(WireNumber(lt), bs).value.1
  {
    if IsNumber(lt) {
      NumberRest(lt, bs);
      hide DecodeScalar, ReadNumber;
    } else if lt == TFixed32 || lt == TFixed64 {
      WordMeans(lt, bs);
      hide DecodeScalar, ReadPayload;
    } else {
      DelimitedAgrees(bs);
      hide DecodeDelimited, ReadPayload, Terminated, DecodeMessage, HasType;
    }
  }

  lemma NumberRest(lt: LType, bs: seq<byte>)
    requires IsNumber(lt)
    ensures DecodeScalar(lt, bs).Parsed? ==> ReadNumber(bs).Some? && DecodeScalar(lt, bs).rest == ReadNumber(bs).value.1
  {
    WholeVarint(bs);
    WholeVarint32(bs);
    hide DecodeVarint, DecodeVarint32, ReadNumber, Pow2, Signed, Unzigzag, FitsSigned;
  }

  lemma FieldRest(fields: seq<Field>, slots: seq<Slot>, n: nat, wireType: nat, bs: seq<byte>)
    requires ValidFields(fields) && Shaped(fields, slots) && n < |fields| && Suits(fields[n], wireType)
    requires wireType == 2 ==> FitsWord32(bs)
    ensures var p := DecodeField(fields, slots, n, wireType, bs);
      p.Parsed? ==> ReadPayload(wireType, bs).Some? && p.rest == ReadPayload(wireType, bs).value.1
  {
    var f, s := fields[n], slots[n];
    assert ValidField(f) && SlotShaped(f, s);
    DefaultTyped(f);
    hide DecodeValue, DecodeDelimited, DecodePacked, ReadPayload, HasType, OneOfsOnce, ValidType, SetOneOf, Pow2;
    if f.rule.Repeated? && wireType == 2 && IsScalar(f.ltype) {
      DelimitedAgrees(bs);
    } else {
      var current := if s.One? then s.value else if s.Maybe? && s.option.Some? && f.rule.Optional? then s.option.value else DefaultValue(f.ltype);
      ValueRest(f.ltype, current, f.rule.Repeated?, bs);
    }
  }

  function TagsOf(rs: seq<Record>): (tags: seq<nat>)
    ensures |tags| == |rs|
  {
    if rs == [] then [] else [rs[0].tag] + TagsOf(rs[1..])
  }

  lemma {:induction false} TagsAreRecords(fields: seq<Field>, slots: seq<Slot>, bs: seq<byte>)
    requires ValidFields(fields) && Shaped(fields, slots)
    requires ReadRecords(bs).Some? && forall r :: r in ReadRecords(bs).value ==> Regular(r) && SuitsField(fields, r)
    ensures var w := Walk(fields, slots, bs);
      w.Parsed? ==> w.value.tags == TagsOf(ReadRecords(bs).value) && !w.value.stopped && w.rest == []
    decreases |bs|
  {
    hide ReadRecord, ReadPayload, DecodeVarint32, DecodeField, SkipField, Shaped, ValidFields, Regular, Suits;
    if bs != [] {
      var (r, rest) := ReadRecord(bs).value;
      var key := DecodeVarint32(bs);
      assert r in ReadRecords(bs).value;
      RecordParts(bs);
      assert forall x :: x in ReadRecords(rest).value ==> x in ReadRecords(bs).value;
      RecordRest(fields, slots, r, key.rest);
      var p := OneRecord(fields, slots, r.tag, WireOf(r.payload), key.rest);
      if p.Parsed? {
        TagsAreRecords(fields, p.value, rest);
        assert ReadRecords(bs).value[1..] == ReadRecords(rest).value;
      }
    }
  }

  lemma RecordRest(fields: seq<Field>, slots: seq<Slot>, r: Record, bs: seq<byte>)
    requires ValidFields(fields) && Shaped(fields, slots) && SuitsField(fields, r)
    requires ReadPayload(WireOf(r.payload), bs).Some? && (r.payload.Sized? ==> FitsWord32(bs))
    ensures var p := OneRecord(fields, slots, r.tag, WireOf(r.payload), bs);
      p.Parsed? ==> p.rest == ReadPayload(WireOf(r.payload), bs).value.1
  {
    hide ReadPayload, DecodeField, SkipField, Shaped, ValidFields, Suits;
    if n: nat :| HasTag(fields, n, r.tag) {
      IsField(fields, n, r.tag);
      FieldRest(fields, slots, n, WireOf(r.payload), bs);
    } else {
      SkipAgrees(WireOf(r.payload), bs);
    }
  }

  // A message is refused unless a reader of the format finds each of the first 64 required fields in it, and
  // when it does, it is refused only if some record is.
  lemma RequiredInRecords(fields: seq<Field>, slots: seq<Slot>, bs: seq<byte>)
    requires ValidFields(fields) && Shaped(fields, slots)
    requires ReadRecords(bs).Some? && forall r :: r in ReadRecords(bs).value ==> Regular(r) && SuitsField(fields, r)
    ensures DecodeMessage(fields, slots, bs).Parsed? <==>
              Walk(fields, slots, bs).Parsed? && forall n: nat :: Demanded(fields, n) ==> fields[n].tag in TagsOf(ReadRecords(bs).value)
    ensures DecodeMessage(fields, slots, bs).Parsed? ==> DecodeMessage(fields, slots, bs) == Parsed(Walk(fields, slots, bs).value.slots, [])
  {
    hide DecodeMessage, Walk, ReadRecords, Shaped, ValidFields, Regular, SuitsField, Demanded;
    RequiredIff(fields, slots, bs);
    TagsAreRecords(fields, slots, bs);
  }

  // ---- Arrays that are not packed ----

  // A packable array with each item under its own key is decoded like the packed one.
  lemma UnpackedArray(fields: seq<Field>, slots: seq<Slot>, seen: set<nat>, n: nat, items: seq<Value>, tail: seq<byte>)
    requires ValidFields(fields) && Shaped(fields, slots) && n < |fields| && fields[n].rule.Repeated? && Packable(fields[n].ltype)
    requires slots[n] == Many([]) && AllTyped(fields[n].ltype, items) && |items| <= fields[n].rule.arraySize
    requires |EncTagged(fields[n], items)| < U32 && |EncPacked(fields[n].ltype, items)| < U32
    ensures Shaped(fields, slots[n := Many(items)])
    ensures DecodeFrom(fields, slots, seen, EncTagged(fields[n], items) + tail) == DecodeFrom(fields, slots[n := Many(items)], seen, tail)
    ensures DecodeFrom(fields, slots, seen, EncTag(2, fields[n].tag) + (Delimited(EncPacked(fields[n].ltype, items)) + tail)) ==
              DecodeFrom(fields, slots[n := Many(items)], seen, tail)
  {
    hide DecodeFrom, EncTagged, EncPacked, EncTag, ValidFields, DecodePackedArray;
    assert items[..|items|] == items;
    TaggedRoundTrip(fields, slots, seen, n, items, |items|, tail);
    PackedAtOnce(fields, slots, seen, n, items, tail);
  }

  lemma PackedAtOnce(fields: seq<Field>, slots: seq<Slot>, seen: set<nat>, n: nat, items: seq<Value>, tail: seq<byte>)
    requires ValidFields(fields) && Shaped(fields, slots) && n < |fields| && fields[n].rule.Repeated? && Packable(fields[n].ltype)
    requires slots[n] == Many([]) && AllTyped(fields[n].ltype, items) && |items| <= fields[n].rule.arraySize
    requires |EncPacked(fields[n].ltype, items)| < U32 && Shaped(fields, slots[n := Many(items)])
    ensures DecodeFrom(fields, slots, seen, EncTag(2, fields[n].tag) + (Delimited(EncPacked(fields[n].ltype, items)) + tail)) ==
              DecodeFrom(fields, slots[n := Many(items)], seen, tail)
  {
    hide DecodeFrom, EncPacked, EncTag, DecodePackedArray, SlotShaped, OneOfsOnce, ValidType;
    var f, rest := fields[n], Delimited(EncPacked(fields[n].ltype, items)) + tail;
    assert ValidField(f);
    TagDecodes(fields, slots, seen, n, 2, rest);
    PackedArrayRoundTrip(f.ltype, items, f.rule.arraySize, tail);
    assert DecodeField(fields, slots, n, 2, rest) == Parsed(slots[n := Many(items)], tail);
  }

  // ---- A zero ends a message ----

  lemma ZeroEnds(fields: seq<Field>, slots: seq<Slot>, seen: set<nat>, tail: seq<byte>)
    requires ValidFields(fields) && Shaped(fields, slots)
    ensures DecodeFrom(fields, slots, seen, [0] + tail) == Parsed((slots, seen), tail)
  {
    hide ValidFields, Shaped, DecodeField, SkipField;
    assert ([0] + tail)[1..] == tail;
  }

  // ---- Messages in parts ----

  lemma {:induction false} VarintLocal(a: seq<byte>, b: seq<byte>, bitpos: nat, result: nat)
    ensures var p := DecodeVarintFrom(a, bitpos, result);
      p.Parsed? ==> DecodeVarintFrom(a + b, bitpos, result) == Parsed(p.value, p.rest + b)
    decreases |a|
  {
    hide Shl, Low7;
    if a != [] && bitpos < 64 {
      assert (a + b)[1..] == a[1..] + b;
      VarintLocal(a[1..], b, bitpos + 7, (result + Shl(Low7(a[0] as nat), bitpos)) % U64);
    }
  }

  lemma {:induction false} Varint32FromLocal(a: seq<byte>, b: seq<byte>, bitpos: nat, result: nat)
    requires result < U32
    ensures var p := DecodeVarint32From(a, bitpos, result);
      p.Parsed? ==> DecodeVarint32From(a + b, bitpos, result) == Parsed(p.value, p.rest + b)
    decreases |a|
  {
    hide Shl, Low7;
    if a != [] {
      assert (a + b)[1..] == a[1..] + b;
      Varint32FromLocal(a[1..], b, bitpos + 7, if bitpos >= 32 then result else (result + Shl(Low7(a[0] as nat), bitpos)) % U32);
    }
  }

  lemma Varint32Local(a: seq<byte>, b: seq<byte>)
    ensures DecodeVarint32(a).Parsed? ==> DecodeVarint32(a + b) == Parsed(DecodeVarint32(a).value, DecodeVarint32(a).rest + b)
  {
    hide DecodeVarint32From, Low7;
    if a != [] {
      assert (a + b)[1..] == a[1..] + b;
      if a[0] >= 128 {
        Varint32FromLocal(a[1..], b, 7, Low7(a[0] as nat));
      }
    }
  }

  lemma SplitLocal(a: seq<byte>, b: seq<byte>, n: nat)
    requires n <= |a|
    ensures (a + b)[..n] == a[..n] && (a + b)[n..] == a[n..] + b
  {
  }

  lemma DelimitedLocal(a: seq<byte>, b: seq<byte>)
    ensures DecodeDelimited(a).Parsed? ==> DecodeDelimited(a + b) == Parsed(DecodeDelimited(a).value, DecodeDelimited(a).rest + b)
  {
    hide DecodeVarint32;
    Varint32Local(a, b);
    var p := DecodeVarint32(a);
    if p.Parsed? && p.value <= |p.rest| {
      SplitLocal(p.rest, b, p.value);
    }
  }

  lemma ScalarLocal(lt: LType, a: seq<byte>, b: seq<byte>)
    requires Packable(lt)
    ensures DecodeScalar(lt, a).Parsed? ==> DecodeScalar(lt, a + b) == Parsed(DecodeScalar(lt, a).value, DecodeScalar(lt, a).rest + b)
  {
    hide DecodeVarint32, DecodeVarintFrom, Signed, Unzigzag, FitsSigned, FromLittleEndian, Pow2;
    Varint32Local(a, b);
    VarintLocal(a, b, 0, 0);
    if |a| >= 4 {
      SplitLocal(a, b, 4);
    }
    if |a| >= 8 {
      SplitLocal(a, b, 8);
    }
  }

  lemma ValueLocal(lt: LType, current: Value, item: bool, a: seq<byte>, b: seq<byte>)
    requires ValidType(lt) && HasType(lt, current)
    ensures var p := DecodeValue(lt, current, item, a);
      p.Parsed? ==> DecodeValue(lt, current, item, a + b) == Parsed(p.value, p.rest + b)
  {
    hide DecodeDelimited, DecodeScalar, DecodeMessage, Terminated, HasType, Shaped, ValidFields;
    if Packable(lt) {
      ScalarLocal(lt, a, b);
    } else {
      DelimitedLocal(a, b);
    }
  }

  lemma FieldLocal(fields: seq<Field>, slots: seq<Slot>, n: nat, wireType: nat, a: seq<byte>, b: seq<byte>)
    requires ValidFields(fields) && Shaped(fields, slots) && n < |fields|
    ensures var p := DecodeField(fields, slots, n, wireType, a);
      p.Parsed? ==> DecodeField(fields, slots, n, wireType, a + b) == Parsed(p.value, p.rest + b)
  {
    var f, s := fields[n], slots[n];
    assert ValidField(f) && SlotShaped(f, s);
    DefaultTyped(f);
    hide DecodeValue, DecodeDelimited, DecodePacked, HasType, OneOfsOnce, ValidType, SetOneOf, Packable;
    if f.rule.Repeated? && wireType == WT_STRING && Packable(f.ltype) {
      DelimitedLocal(a, b);
    } else {
      var current := if s.One? then s.value else if s.Maybe? && s.option.Some? && f.rule.Optional? then s.option.value else DefaultValue(f.ltype);
      ValueLocal(f.ltype, current, f.rule.Repeated?, a, b);
    }
  }

  lemma {:induction false} SkipVarintLocal(a: seq<byte>, b: seq<byte>)
    ensures SkipVarint(a).Parsed? ==> SkipVarint(a + b) == Parsed((), SkipVarint(a).rest + b)
  {
    if a != [] {
      assert (a + b)[1..] == a[1..] + b;
      SkipVarintLocal(a[1..], b);
    }
  }

  lemma SkipLocal(wireType: nat, a: seq<byte>, b: seq<byte>)
    ensures SkipField(wireType, a).Parsed? ==> SkipField(wireType, a + b) == Parsed((), SkipField(wireType, a).rest + b)
  {
    hide SkipVarint, DecodeDelimited;
    SkipVarintLocal(a, b);
    DelimitedLocal(a, b);
    if |a| >= 4 {
      SplitLocal(a, b, 4);
    }
    if |a| >= 8 {
      SplitLocal(a, b, 8);
    }
  }

  lemma RecordLocally(fields: seq<Field>, slots: seq<Slot>, tag: nat, wireType: nat, a: seq<byte>, b: seq<byte>)
    requires ValidFields(fields) && Shaped(fields, slots)
    ensures var p := OneRecord(fields, slots, tag, wireType, a);
      p.Parsed? ==> OneRecord(fields, slots, tag, wireType, a + b) == Parsed(p.value, p.rest + b)
  {
    hide DecodeField, SkipField, Shaped, ValidFields;
    if n: nat :| HasTag(fields, n, tag) {
      IsField(fields, n, tag);
      KnownRecord(fields, slots, n, wireType, a);
      KnownRecord(fields, slots, n, wireType, a + b);
      FieldLocal(fields, slots, n, wireType, a, b);
    } else {
      SkipLocal(wireType, a, b);
    }
  }

  // The records of two parts are those of the first, and then those of the second on top.
  lemma {:induction false} WalkOn(fields: seq<Field>, slots: seq<Slot>, a: seq<byte>, b: seq<byte>)
    requires ValidFields(fields) && Shaped(fields, slots)
    requires var w := Walk(fields, slots, a); w.Parsed? && !w.value.stopped
    ensures var w := Walk(fields, slots, a);
      var v := Walk(fields, w.value.slots, b);
      Walk(fields, slots, a + b) == if v.Fail? then Fail else Parsed(v.value.(tags := w.value.tags + v.value.tags), v.rest)
    decreases |a|
  {
    hide DecodeVarint32, OneRecord, Shaped, ValidFields;
    if a == [] {
      assert a + b == b;
      NoTagsBefore(Walk(fields, slots, b));
    } else {
      Varint32Local(a, b);
      var key := DecodeVarint32(a);
      var tag := key.value / 8;
      RecordLocally(fields, slots, tag, key.value % 8, key.rest, b);
      var p := OneRecord(fields, slots, tag, key.value % 8, key.rest);
      WalkOn(fields, p.value, p.rest, b);
      var w, v := Walk(fields, p.value, p.rest), Walk(fields, Walk(fields, slots, a).value.slots, b);
      if v.Parsed? {
        assert [tag] + (w.value.tags + v.value.tags) == [tag] + w.value.tags + v.value.tags;
      }
    }
  }

  lemma NoTagsBefore(w: Parsed<Walked>)
    ensures w.Parsed? ==> w.value.(tags := [] + w.value.tags) == w.value
  {
    if w.Parsed? {
      assert [] + w.value.tags == w.value.tags;
    }
  }

  // Decoding two parts put together is decoding the first and merging the second into it.
  lemma PartsMerge(fields: seq<Field>, slots: seq<Slot>, a: seq<byte>, b: seq<byte>)
    requires ValidFields(fields) && Shaped(fields, slots)
    requires DecodeMessage(fields, slots, a).Parsed? && Walk(fields, slots, a).Parsed? && !Walk(fields, slots, a).value.stopped
    requires DecodeMessage(fields, DecodeMessage(fields, slots, a).value, b).Parsed?
    ensures DecodeMessage(fields, slots, a + b) == DecodeMessage(fields, DecodeMessage(fields, slots, a).value, b)
  {
    hide DecodeMessage, Walk, Shaped, ValidFields, Demanded;
    RequiredIff(fields, slots, a);
    RequiredIff(fields, DecodeMessage(fields, slots, a).value, b);
    RequiredIff(fields, slots, a + b);
    WalkOn(fields, slots, a, b);
  }

  // So a submessage that comes in two records is the one their bytes would make together.
  lemma SubmessageInParts(lt: LType, current: Value, a: seq<byte>, b: seq<byte>, rest: seq<byte>, tail: seq<byte>)
    requires ValidType(lt) && HasType(lt, current) && lt.TMessage? && |a + b| < U32
    requires Shaped(lt.fields, current.slots)
    requires Walk(lt.fields, current.slots, a).Parsed? && !Walk(lt.fields, current.slots, a).value.stopped
    requires DecodeValue(lt, current, false, Delimited(a) + rest).Parsed?
    requires DecodeValue(lt, DecodeValue(lt, current, false, Delimited(a) + rest).value, false, Delimited(b) + tail).Parsed?
    ensures DecodeValue(lt, current, false, Delimited(a + b) + tail) ==
              DecodeValue(lt, DecodeValue(lt, current, false, Delimited(a) + rest).value, false, Delimited(b) + tail)
  {
    hide DecodeMessage, Walk, Shaped, ValidFields, DecodeDelimited, Delimited;
    DelimitedRoundTrip(a, rest);
    DelimitedRoundTrip(b, tail);
    DelimitedRoundTrip(a + b, tail);
    PartsMerge(lt.fields, current.slots, a, b);
  }
}
