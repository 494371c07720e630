/**
  What a message in the wire format means, without looking at the decoder: its records are merged one after the
  other into the slots, and the decoder gives exactly that.
 */
module PbMerge {
  import opened Wrappers
  import opened Bytes
  import opened PbWire
  import opened PbFields
  import opened PbEncode
  import opened PbDecode
  import opened PbFormat
  import opened PbReading
  import opened PbMessages
  import opened PbParts

  // ---- One value ----

  lemma MeaningTyped(lt: LType, n: nat)
    requires IsNumber(lt) && ValidType(lt)
    ensures Meaning(lt, n).Some? ==> HasType(lt, Meaning(lt, n).value)
  {
    if lt != TBool {
      PowerIs(lt.bits);
    }
    hide Pow2, Power, InRange, FitsSigned, AsSigned;
  }

  lemma WordTyped(lt: LType, bs: seq<byte>)
    requires (lt == TFixed32 && |bs| == 4) || (lt == TFixed64 && |bs| == 8)
    ensures HasType(lt, VInt(WordOf(bs)))
  {
    WordIs(bs);
    WordSizes();
    assert 8 * 4 == 32 && 8 * 8 == 64;
    hide WordOf, FromLittleEndian, Pow2;
  }

  // The value a payload stands for.  A submessage is merged into the current one.
  ghost function ValueMeant(lt: LType, current: Value, p: Payload): (v: Option<Value>)
    requires ValidType(lt) && HasType(lt, current) && (p.Sized? ==> |p.bytes| < 0x1_0000_0000)
    ensures v.Some? ==> HasType(lt, v.value)
  {
    match p
    case Number(n) =>
      if !IsNumber(lt) then None else
      MeaningTyped(lt, n);
      Meaning(lt, n)
    case Four(bs) =>
      if lt != TFixed32 || |bs| != 4 then None else
      WordTyped(lt, bs);
      Some(VInt(WordOf(bs)))
    case Eight(bs) =>
      if lt != TFixed64 || |bs| != 8 then None else
      WordTyped(lt, bs);
      Some(VInt(WordOf(bs)))
    case Sized(bs) =>
      if IsScalar(lt) then None
      else if lt.TMessage? then
        var m := DecodeMessage(lt.fields, current.slots, bs);
        if m.Fail? then None else Some(VMessage(m.value))
      else BytesMeaning(lt, bs)
  }

  // Numbers and lengths fit the words they are read into.
  ghost predicate FitsPayload(lt: LType, bs: seq<byte>) {
    if !IsScalar(lt) || lt == TBool then FitsWord32(bs) else IsNumber(lt) ==> FitsWord64(bs)
  }

  lemma SmallPayload(bs: seq<byte>)
    requires FitsWord32(bs)
    ensures ReadPayload(2, bs).Some? ==> ReadPayload(2, bs).value.0.Sized? && |ReadPayload(2, bs).value.0.bytes| < 0x1_0000_0000
  {
    hide ReadNumber;
  }

  lemma KindOfPayload(wireType: nat, bs: seq<byte>)
    requires ReadPayload(wireType, bs).Some?
    ensures var p := ReadPayload(wireType, bs).value.0;
      && WireOf(p) == wireType && (p.Four? ==> |p.bytes| == 4) && (p.Eight? ==> |p.bytes| == 8)
    ensures wireType != 2 ==> |ReadPayload(wireType, bs).value.1| < |bs|
  {
    hide ReadNumber;
  }

  // What is taken from the front of bs.
  ghost function Taken(lt: LType, current: Value, bs: seq<byte>): Parsed<Value>
    requires ValidType(lt) && HasType(lt, current) && FitsPayload(lt, bs)
  {
    var r := ReadPayload(WireNumber(lt), bs);
    if r.None? then Fail
    else
      KindOfPayload(WireNumber(lt), bs);
      SmallPayloadOf(lt, bs);
      var v := ValueMeant(lt, current, r.value.0);
      if v.None? then Fail else Parsed(v.value, r.value.1)
  }

  lemma SmallPayloadOf(lt: LType, bs: seq<byte>)
    requires FitsPayload(lt, bs)
    ensures var r := ReadPayload(WireNumber(lt), bs); r.Some? && r.value.0.Sized? ==> |r.value.0.bytes| < 0x1_0000_0000
  {
    hide ReadPayload, FitsWord32, FitsWord64;
    if IsScalar(lt) {
      if ReadPayload(WireNumber(lt), bs).Some? {
        KindOfPayload(WireNumber(lt), bs);
      }
    } else {
      SmallPayload(bs);
    }
  }

  lemma ValueIsMeant(lt: LType, current: Value, bs: seq<byte>)
    requires ValidType(lt) && HasType(lt, current) && FitsPayload(lt, bs)
    ensures DecodeValue(lt, current, false, bs) == Taken(lt, current, bs)
  {
    hide DecodeScalar, DecodeDelimited, DecodeMessage, Terminated, BytesMeaning, Meaning, WordOf, ReadNumber, HasType;
    if IsNumber(lt) {
      NumberMeans(lt, bs);
    } else if IsScalar(lt) {
      WordMeans(lt, bs);
      hide ReadPayload;
      if ReadPayload(WireNumber(lt), bs).Some? {
        KindOfPayload(WireNumber(lt), bs);
      }
    } else {
      SmallPayload(bs);
      hide DecodeValue, ReadPayload;
      if lt.TMessage? {
        MessageMeans(lt, current, false, bs);
      } else {
        BytesMean(lt, current, false, bs);
      }
    }
  }

  // A new item starts from the default value.
  lemma ItemIsMeant(lt: LType, bs: seq<byte>)
    requires ValidType(lt) && FitsPayload(lt, bs)
    ensures HasType(lt, DefaultValue(lt))
    ensures DecodeValue(lt, DefaultValue(lt), true, bs) == Taken(lt, DefaultValue(lt), bs)
  {
    hide Taken, DecodeScalar, DecodeDelimited, DecodeMessage, FitsPayload;
    DefaultTyped(Field(1, Required, lt));
    ValueIsMeant(lt, DefaultValue(lt), bs);
  }

  // ---- Packed arrays ----

  // The items up to the end, if there is room for all of them.
  ghost function PackedMeant(lt: LType, items: seq<Value>, max: nat, bs: seq<byte>): (r: Option<seq<Value>>)
    requires IsScalar(lt) && ValidType(lt) && AllTyped(lt, items) && AllFit(lt, bs)
    ensures r.Some? ==> AllTyped(lt, r.value)
    decreases |bs|
  {
    if bs == [] then Some(items)
    else if |items| >= max then None
    else
      DefaultTyped(Field(1, Required, lt));
      var p := Taken(lt, DefaultValue(lt), bs);
      TakenTyped(lt, DefaultValue(lt), bs);
      if p.Fail? then None else PackedMeant(lt, items + [p.value], max, p.rest)
  }

  ghost predicate AllFit(lt: LType, bs: seq<byte>)
    requires IsScalar(lt)
    decreases |bs|
  {
    bs == [] || (FitsPayload(lt, bs) &&
      (ReadPayload(WireNumber(lt), bs).Some? ==> (KindOfPayload(WireNumber(lt), bs); AllFit(lt, ReadPayload(WireNumber(lt), bs).value.1))))
  }

  lemma TakenTyped(lt: LType, current: Value, bs: seq<byte>)
    requires ValidType(lt) && HasType(lt, current) && FitsPayload(lt, bs)
    ensures var p := Taken(lt, current, bs);
      p.Parsed? ==> ReadPayload(WireNumber(lt), bs).Some? && p.rest == ReadPayload(WireNumber(lt), bs).value.1 && HasType(lt, p.value) && |p.rest| < |bs|
  {
    hide ReadPayload, DecodeValue, HasType;
    ValueIsMeant(lt, current, bs);
  }

  lemma {:induction false} PackedIsMeant(lt: LType, items: seq<Value>, max: nat, bs: seq<byte>)
    requires IsScalar(lt) && ValidType(lt) && AllTyped(lt, items) && AllFit(lt, bs)
    ensures DecodePacked(lt, items, max, bs) == PackedMeant(lt, items, max, bs)
    decreases |bs|
  {
    hide Taken, DecodeScalar, ReadPayload, HasType, FitsPayload;
    if bs != [] && |items| < max {
      ItemIsMeant(lt, bs);
      TakenTyped(lt, DefaultValue(lt), bs);
      var p := Taken(lt, DefaultValue(lt), bs);
      if p.Parsed? {
        PackedIsMeant(lt, items + [p.value], max, p.rest);
      }
    }
  }

  // ---- One record ----

  ghost predicate FitsField(f: Field, wireType: nat, bs: seq<byte>) {
    if f.rule.Repeated? && IsScalar(f.ltype) && wireType == 2 then
      FitsWord32(bs) && (ReadPayload(2, bs).Some? ==> (KindOfPayload(2, bs); AllFit(f.ltype, ReadPayload(2, bs).value.0.bytes)))
    else FitsPayload(f.ltype, bs)
  }

  ghost predicate FitsInField(f: Field, p: Payload) {
    && (p.Sized? ==> |p.bytes| < 0x1_0000_0000)
    && (f.rule.Repeated? && IsScalar(f.ltype) && p.Sized? ==> AllFit(f.ltype, p.bytes))
  }

  // The last value of a field wins, a submessage is merged, items are added as long as there is room, and a member
  // of a oneof replaces the others.
  ghost function MergedField(fields: seq<Field>, slots: seq<Slot>, n: nat, p: Payload): (q: Option<seq<Slot>>)
    requires ValidFields(fields) && Shaped(fields, slots) && n < |fields| && FitsInField(fields[n], p)
    ensures q.Some? ==> Shaped(fields, q.value)
  {
    var f, s := fields[n], slots[n];
    assert ValidField(f) && SlotShaped(f, s);
    DefaultTyped(f);
    hide HasType, OneOfsOnce, ValidType, ValueMeant;
    match f.rule
    case Required => WithSlot(fields, slots, n, ValueMeant(f.ltype, s.value, p))
    case Singular => WithSlot(fields, slots, n, ValueMeant(f.ltype, s.value, p))
    case Optional => WithSlot(fields, slots, n, ValueMeant(f.ltype, if s.option.Some? then s.option.value else DefaultValue(f.ltype), p))
    case OneOf(_) => WithSlot(fields, slots, n, ValueMeant(f.ltype, DefaultValue(f.ltype), p))
    case Repeated(max) =>
      if IsScalar(f.ltype) && p.Sized? then WithItems(fields, slots, n, PackedMeant(f.ltype, s.items, max, p.bytes))
      else if |s.items| >= max then None
      else
        var v := ValueMeant(f.ltype, DefaultValue(f.ltype), p);
        WithItems(fields, slots, n, if v.None? then None else Some(s.items + [v.value]))
  }

  ghost function WithSlot(fields: seq<Field>, slots: seq<Slot>, n: nat, v: Option<Value>): (q: Option<seq<Slot>>)
    requires Shaped(fields, slots) && n < |fields| && !fields[n].rule.Repeated? && (v.Some? ==> HasType(fields[n].ltype, v.value))
    ensures q.Some? ==> Shaped(fields, q.value)
  {
    if v.None? then None
    else if fields[n].rule.OneOf? then Some(SetOneOf(fields, slots, n, v.value))
    else Some(slots[n := if fields[n].rule.Optional? then Maybe(v) else One(v.value)])
  }

  ghost function WithItems(fields: seq<Field>, slots: seq<Slot>, n: nat, items: Option<seq<Value>>): (q: Option<seq<Slot>>)
    requires Shaped(fields, slots) && n < |fields| && fields[n].rule.Repeated? && (items.Some? ==> AllTyped(fields[n].ltype, items.value))
    ensures q.Some? ==> Shaped(fields, q.value)
  {
    if items.None? then None else Some(slots[n := Many(items.value)])
  }

  lemma FieldFits(f: Field, wireType: nat, bs: seq<byte>)
    requires Suits(f, wireType) && FitsField(f, wireType, bs) && ReadPayload(wireType, bs).Some?
    ensures FitsInField(f, ReadPayload(wireType, bs).value.0)
  {
    hide ReadPayload, FitsWord32, FitsWord64, AllFit;
    KindOfPayload(wireType, bs);
    if wireType == 2 {
      SmallPayload(bs);
    }
  }

  lemma FieldIsMeant(fields: seq<Field>, slots: seq<Slot>, n: nat, wireType: nat, bs: seq<byte>)
    requires ValidFields(fields) && Shaped(fields, slots) && n < |fields| && Suits(fields[n], wireType) && FitsField(fields[n], wireType, bs)
    requires ReadPayload(wireType, bs).Some? && FitsInField(fields[n], ReadPayload(wireType, bs).value.0)
    ensures var r := ReadPayload(wireType, bs).value;
      var q := MergedField(fields, slots, n, r.0);
      DecodeField(fields, slots, n, wireType, bs) == if q.None? then Fail else Parsed(q.value, r.1)
  {
    hide DecodeValue, DecodeDelimited, DecodePacked, ReadPayload, HasType, OneOfsOnce, ValidType, SetOneOf, PackedMeant, ValueMeant, AllFit;
    var f, s := fields[n], slots[n];
    assert ValidField(f) && SlotShaped(f, s);
    DefaultTyped(f);
    KindOfPayload(wireType, bs);
    var r := ReadPayload(wireType, bs).value;
    if f.rule.Repeated? && IsScalar(f.ltype) && wireType == 2 {
      DelimitedAgrees(bs);
      PackedIsMeant(f.ltype, s.items, f.rule.arraySize, r.0.bytes);
    } else if f.rule.Repeated? {
      ItemIsMeant(f.ltype, bs);
    } else {
      var current := if s.One? then s.value else if s.option.Some? && f.rule.Optional? then s.option.value else DefaultValue(f.ltype);
      ValueIsMeant(f.ltype, current, bs);
    }
  }

  // A record changes the field with its tag, and nothing when there is none.
  ghost function MergedRecord(fields: seq<Field>, slots: seq<Slot>, r: Record): (q: Option<seq<Slot>>)
    requires ValidFields(fields) && Shaped(fields, slots) && FitsInMessage(fields, r)
    ensures q.Some? ==> Shaped(fields, q.value)
  {
    if n :| HasTag(fields, n, r.tag) then MergedField(fields, slots, n, r.payload) else Some(slots)
  }

  ghost predicate FitsInMessage(fields: seq<Field>, r: Record) {
    forall n: nat :: HasTag(fields, n, r.tag) ==> FitsInField(fields[n], r.payload)
  }

  // ---- Messages ----

  ghost function MergedRecords(fields: seq<Field>, slots: seq<Slot>, rs: seq<Record>): (q: Option<seq<Slot>>)
    requires ValidFields(fields) && Shaped(fields, slots) && forall r :: r in rs ==> FitsInMessage(fields, r)
    ensures q.Some? ==> Shaped(fields, q.value)
    decreases |rs|
  {
    if rs == [] then Some(slots)
    else
      var q := MergedRecord(fields, slots, rs[0]);
      if q.None? then None else MergedRecords(fields, q.value, rs[1..])
  }

  // The bytes are records, none of them with a zero key; each known one has the wire type of its field, and numbers
  // and lengths fit the words they are read into.
  ghost predicate Plain(fields: seq<Field>, bs: seq<byte>)
    decreases |bs|
  {
    bs == [] || (ReadRecord(bs).Some? && PlainRecord(fields, bs) && Plain(fields, ReadRecord(bs).value.1))
  }

  ghost predicate PlainRecord(fields: seq<Field>, bs: seq<byte>)
    requires ReadRecord(bs).Some?
  {
    var r := ReadRecord(bs).value.0;
    && Regular(r)
    && forall n: nat :: HasTag(fields, n, r.tag) ==>
         Suits(fields[n], WireOf(r.payload)) && FitsField(fields[n], WireOf(r.payload), ReadNumber(bs).value.1)
  }

  lemma KeyAndPayload(bs: seq<byte>)
    requires ReadRecord(bs).Some? && Regular(ReadRecord(bs).value.0)
    ensures var (r, rest) := ReadRecord(bs).value;
      && ReadNumber(bs).Some?
      && DecodeVarint32(bs) == Parsed(r.tag * 8 + WireOf(r.payload), ReadNumber(bs).value.1)
      && ReadPayload(WireOf(r.payload), ReadNumber(bs).value.1) == Some((r.payload, rest))
  {
    hide ReadNumber, DecodeVarint32;
    RecordParts(bs);
    WholeVarint32(bs);
  }

  lemma RecordFits(fields: seq<Field>, bs: seq<byte>)
    requires ReadRecord(bs).Some? && PlainRecord(fields, bs)
    ensures FitsInMessage(fields, ReadRecord(bs).value.0)
  {
    hide ReadRecord, ReadPayload, ReadNumber, DecodeVarint32, Suits, FitsField, FitsInField, Regular;
    KeyAndPayload(bs);
    var r := ReadRecord(bs).value.0;
    forall n: nat | HasTag(fields, n, r.tag) ensures FitsInField(fields[n], r.payload) {
      FieldFits(fields[n], WireOf(r.payload), ReadNumber(bs).value.1);
    }
  }

  lemma {:induction false} RecordsFit(fields: seq<Field>, bs: seq<byte>)
    requires Plain(fields, bs)
    ensures ReadRecords(bs).Some? && forall r :: r in ReadRecords(bs).value ==> FitsInMessage(fields, r)
    decreases |bs|
  {
    hide ReadRecord, PlainRecord, FitsInMessage;
    if bs != [] {
      RecordFits(fields, bs);
      RecordsFit(fields, ReadRecord(bs).value.1);
    }
  }

  lemma RecordIsMeant(fields: seq<Field>, slots: seq<Slot>, bs: seq<byte>)
    requires ValidFields(fields) && Shaped(fields, slots) && ReadRecord(bs).Some? && PlainRecord(fields, bs)
    requires FitsInMessage(fields, ReadRecord(bs).value.0)
    ensures ReadNumber(bs).Some?
    ensures var (r, rest) := ReadRecord(bs).value;
      var q := MergedRecord(fields, slots, r);
      OneRecord(fields, slots, r.tag, WireOf(r.payload), ReadNumber(bs).value.1) == if q.None? then Fail else Parsed(q.value, rest)
  {
    hide ReadRecord, ReadPayload, ReadNumber, DecodeVarint32, DecodeField, MergedField, SkipField, Shaped, ValidFields, Suits, FitsField, FitsInField;
    KeyAndPayload(bs);
    var r := ReadRecord(bs).value.0;
    if n: nat :| HasTag(fields, n, r.tag) {
      IsField(fields, n, r.tag);
      FieldIsMeant(fields, slots, n, WireOf(r.payload), ReadNumber(bs).value.1);
    } else {
      RecordParts(bs);
      SkipAgrees(WireOf(r.payload), ReadNumber(bs).value.1);
    }
  }

  lemma {:induction false} WalkIsMeant(fields: seq<Field>, slots: seq<Slot>, bs: seq<byte>)
    requires ValidFields(fields) && Shaped(fields, slots) && Plain(fields, bs)
    requires ReadRecords(bs).Some? && forall r :: r in ReadRecords(bs).value ==> FitsInMessage(fields, r)
    ensures var rs := ReadRecords(bs).value;
      var q := MergedRecords(fields, slots, rs);
      Walk(fields, slots, bs) == if q.None? then Fail else Parsed(Walked(q.value, TagsOf(rs), false), [])
    decreases |bs|
  {
    hide ReadRecord, ReadNumber, DecodeVarint32, OneRecord, MergedRecord, PlainRecord, Shaped, ValidFields, FitsInMessage;
    if bs != [] {
      var (r, rest) := ReadRecord(bs).value;
      var rs := ReadRecords(bs).value;
      assert rs == [r] + ReadRecords(rest).value && rs[1..] == ReadRecords(rest).value;
      assert r in rs;
      assert forall x :: x in rs[1..] ==> x in rs;
      PlainKey(fields, bs);
      RecordIsMeant(fields, slots, bs);
      var q := MergedRecord(fields, slots, r);
      if q.Some? {
        WalkIsMeant(fields, q.value, rest);
      }
    }
  }

  lemma PlainKey(fields: seq<Field>, bs: seq<byte>)
    requires ReadRecord(bs).Some? && PlainRecord(fields, bs)
    ensures var r := ReadRecord(bs).value.0; var key := DecodeVarint32(bs);
      ReadNumber(bs).Some? && key.Parsed? && key.value != 0 && key.value / 8 == r.tag && key.value % 8 == WireOf(r.payload) && key.rest == ReadNumber(bs).value.1
  {
    hide ReadRecord, ReadNumber, DecodeVarint32, ReadPayload;
    RecordParts(bs);
    KeyAndPayload(bs);
  }

  // A message is decoded to what its records make of the slots, and refused exactly when one of them cannot be
  // merged or a required field is on none of them.
  lemma DecodingIsMerging(fields: seq<Field>, slots: seq<Slot>, bs: seq<byte>)
    requires ValidFields(fields) && Shaped(fields, slots) && Plain(fields, bs)
    ensures ReadRecords(bs).Some? && forall r :: r in ReadRecords(bs).value ==> FitsInMessage(fields, r)
    ensures var rs := ReadRecords(bs).value;
      var q := MergedRecords(fields, slots, rs);
      DecodeMessage(fields, slots, bs) ==
        if q.Some? && forall n: nat :: Demanded(fields, n) ==> fields[n].tag in TagsOf(rs) then Parsed(q.value, []) else Fail
  {
    hide DecodeMessage, Walk, ReadRecords, MergedRecords, Shaped, ValidFields, Plain, FitsInMessage, Demanded;
    RecordsFit(fields, bs);
    WalkIsMeant(fields, slots, bs);
    RequiredIff(fields, slots, bs);
  }

  // The wire type of a known field is not looked at, except to tell a packed array: these two bytes are no record, for
  // they announce four bytes and have one, and are decoded as a truth value.
  lemma WireTypeIsIgnored()
    ensures var fields, bs := [Field(1, Required, TBool)], [0x0D, 0x01];
      ValidFields(fields) && ReadRecords(bs) == None && Decode(fields, bs) == Parsed([One(VBool(true))], [])
  {
    var fields: seq<Field>, bs: seq<byte> := [Field(1, Required, TBool)], [0x0D, 0x01];
    DefaultsShaped(fields);
    var slots, done := Defaults(fields), [One(VBool(true))];
    assert slots == [One(VBool(false))];
    TrueByte(bs[1..]);
    assert ValidField(fields[0]) && SlotShaped(fields[0], slots[0]);
    assert DecodeValue(TBool, VBool(false), false, bs[1..]) == Parsed(VBool(true), []);
    assert slots[0 := One(VBool(true))] == done && [1] + [] == [1];
    assert DecodeField(fields, slots, 0, 5, bs[1..]) == Parsed(done, []);
    KnownRecord(fields, slots, 0, 5, bs[1..]);
    assert OneRecord(fields, slots, 1, 5, bs[1..]) == Parsed(done, []);
    assert Walk(fields, done, []) == Parsed(Walked(done, [], false), []);
    assert DecodeVarint32(bs) == Parsed(13, bs[1..]);
    assert Walk(fields, slots, bs) == Parsed(Walked(done, [1], false), []);
    RequiredIff(fields, slots, bs);
  }

  lemma TrueByte(bs: seq<byte>)
    requires bs == [0x01]
    ensures DecodeScalar(TBool, bs) == Parsed(VBool(true), [])
  {
    assert bs[1..] == [];
  }
}
