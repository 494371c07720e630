/**
  Decoding what nanopb encodes gives back the message, for nested messages with required,
  optional, singular, repeated and oneof fields.
 */
module PbRoundTrip {
  import opened Wrappers
  import opened Bytes
  import opened PbWire
  import opened PbFields
  import opened PbEncode
  import opened PbDecode

  // ---- Scalars ----

  lemma ScalarRoundTrip(lt: LType, v: Value, tail: seq<byte>)
    requires ValidType(lt) && Packable(lt) && HasType(lt, v)
    ensures DecodeScalar(lt, EncScalar(lt, v) + tail) == Parsed(v, tail)
  {
    hide Varint, DecodeVarint, DecodeVarint32, DecodeFixed, LittleEndian, Pow2;
    if lt.TBool? {
      Varint32RoundTrip(if v.b then 1 else 0, tail);
    } else if lt.TFixed32? {
      FixedSizes();
      FixedRoundTrip(v.i, 4, tail);
    } else if lt.TFixed64? {
      FixedSizes();
      FixedRoundTrip(v.i, 8, tail);
    } else if lt.TUvarint? {
      FitsWord(lt.bits);
      VarintRoundTrip(v.i, tail);
    } else {
      SignedFits(lt.bits, v.i);
      VarintRoundTrip(if lt.TVarint? then Unsigned64(v.i) else Zigzag(v.i), tail);
    }
  }

  lemma FixedSizes()
    ensures Pow2(8 * 4) == U32 && Pow2(8 * 8) == U64
  {
    WordSizes();
  }

  lemma FitsWord(bits: nat)
    requires ValidBits(bits)
    ensures Pow2(bits) <= U64
  {
    WordSizes();
    Pow2Monotone(bits, 64);
  }

  lemma SignedFits(bits: nat, v: int)
    requires ValidBits(bits) && FitsSigned(v, bits)
    ensures Zigzag(v) < U64 && Unzigzag(Zigzag(v)) == v
    ensures Signed(Unsigned64(v), if bits == 64 then 64 else 32) == v
  {
    Pow2Monotone(bits - 1, if bits == 64 then 63 else 31);
    Pow2Monotone(bits - 1, 63);
    ZigzagRoundTrip(v);
    SignedRoundTrip(v);
  }

  lemma DelimitedRoundTrip(bs: seq<byte>, tail: seq<byte>)
    requires |bs| < U32
    ensures DecodeDelimited(Delimited(bs) + tail) == Parsed(bs, tail)
  {
    assert Delimited(bs) + tail == Varint(|bs|) + (bs + tail);
    hide DecodeVarint32, Varint;
    Varint32RoundTrip(|bs|, bs + tail);
  }

  // ---- Defaults ----

  // A value that counts as default, and is not encoded, is the value decoding starts from.
  lemma DefaultIsUnique(lt: LType, v: Value)
    requires HasType(lt, v) && IsDefaultValue(lt, v)
    ensures v == DefaultValue(lt)
    decreases lt
  {
    if lt.TMessage? {
      AllDefaultIsUnique(lt.fields, v.slots);
    }
  }

  lemma AllDefaultIsUnique(fields: seq<Field>, slots: seq<Slot>)
    requires |fields| == |slots| && AllDefault(fields, slots)
    requires forall i :: 0 <= i < |fields| ==> SlotShaped(fields[i], slots[i])
    ensures slots == Defaults(fields)
    decreases fields
  {
    if fields != [] {
      DefaultSlotIsUnique(fields[0], slots[0]);
      AllDefaultIsUnique(fields[1..], slots[1..]);
    }
  }

  lemma DefaultSlotIsUnique(f: Field, s: Slot)
    requires SlotShaped(f, s) && IsDefaultSlot(f, s)
    ensures s == DefaultSlot(f)
    decreases f
  {
    if s.One? {
      DefaultIsUnique(f.ltype, s.value);
    }
  }

  // ---- One field at a time ----

  // The message after decoding its first n fields.
  ghost function Partly(fields: seq<Field>, m: seq<Slot>, n: nat): (r: seq<Slot>)
    requires |m| == |fields| && n <= |fields|
    ensures |r| == |fields|
  {
    m[..n] + Defaults(fields)[n..]
  }

  lemma PartlyShaped(fields: seq<Field>, m: seq<Slot>, n: nat)
    requires ValidFields(fields) && Shaped(fields, m) && n <= |fields|
    ensures Shaped(fields, Partly(fields, m, n))
  {
    DefaultsShaped(fields);
    hide SlotShaped, ValidFields, ValidField, DefaultSlot;
    var r := Partly(fields, m, n);
    assert forall i :: 0 <= i < |fields| ==> r[i] == if i < n then m[i] else Defaults(fields)[i];
    hide Partly;
    assert forall i :: 0 <= i < |fields| ==> SlotShaped(fields[i], r[i]);
    PartlyOnce(fields, m, n, r);
  }

  lemma PartlyOnce(fields: seq<Field>, m: seq<Slot>, n: nat, r: seq<Slot>)
    requires |m| == |fields| == |r| && n <= |fields| && OneOfsOnce(fields, m)
    requires forall i :: 0 <= i < |fields| ==> r[i] == if i < n then m[i] else Defaults(fields)[i]
    ensures OneOfsOnce(fields, r)
  {
    assert forall i :: n <= i < |fields| && r[i].Maybe? ==> r[i].option.None? by {
      hide OneOfsOnce;
    }
    hide DefaultSlot, Defaults, SameGroup;
  }

  lemma PartlyNext(fields: seq<Field>, m: seq<Slot>, n: nat)
    requires |m| == |fields| && n < |fields|
    ensures Partly(fields, m, n)[n := m[n]] == Partly(fields, m, n + 1)
    ensures Partly(fields, m, n)[n] == DefaultSlot(fields[n])
  {
  }

  // The required fields among the first n.
  function SeenUpTo(fields: seq<Field>, n: nat): set<nat>
    requires n <= |fields|
  {
    if n == 0 then {} else Mark(fields, SeenUpTo(fields, n - 1), n - 1)
  }

  lemma {:induction false} SeenAll(fields: seq<Field>, n: nat, r: nat)
    requires n <= |fields| && r < CountRequired(fields, n) && r < MAX_REQUIRED_FIELDS
    ensures r in SeenUpTo(fields, n)
  {
    if n > 0 && r < CountRequired(fields, n - 1) {
      SeenAll(fields, n - 1, r);
    }
  }

  ghost function Continue(fields: seq<Field>, seen: set<nat>, n: nat, p: Parsed<seq<Slot>>): Parsed<(seq<Slot>, set<nat>)>
    requires ValidFields(fields) && n < |fields| && (p.Parsed? ==> Shaped(fields, p.value))
  {
    if p.Fail? then Fail else DecodeFrom(fields, p.value, Mark(fields, seen, n), p.rest)
  }

  // The tag of a field leads to the decoder of that field.
  lemma TagDecodes(fields: seq<Field>, slots: seq<Slot>, seen: set<nat>, n: nat, wt: nat, rest: seq<byte>)
    requires ValidFields(fields) && Shaped(fields, slots) && n < |fields| && wt < 8
    ensures DecodeFrom(fields, slots, seen, EncTag(wt, fields[n].tag) + rest) ==
              Continue(fields, seen, n, DecodeField(fields, slots, n, wt, rest))
  {
    OnlyField(fields, n);
    hide DecodeVarint32, Varint, DecodeField, Shaped, ValidFields, SkipField, HasTag, Mark;
    var t := fields[n].tag * 8 + wt;
    Varint32RoundTrip(t, rest);
    assert HasTag(fields, n, t / 8);
  }

  // ---- Repeated fields ----

  lemma {:induction false} PackedRoundTrip(lt: LType, items: seq<Value>, k: nat, max: nat, tail: seq<byte>)
    requires ValidType(lt) && Packable(lt) && AllTyped(lt, items) && k <= |items| <= max
    ensures DecodePacked(lt, [], max, EncPacked(lt, items[..k]) + tail) == DecodePacked(lt, items[..k], max, tail)
  {
    NothingPacked(lt);
    hide DecodePacked, EncPacked, EncScalar, HasType, Packable, ValidType;
    if k == 0 {
      assert items[..0] == [] && [] + tail == tail;
    } else {
      PackedStep(lt, items, k - 1);
      var before, item := EncPacked(lt, items[..k - 1]), EncScalar(lt, items[k - 1]);
      assert EncPacked(lt, items[..k]) + tail == before + (item + tail);
      PackedRoundTrip(lt, items, k - 1, max, item + tail);
      OnePackedItem(lt, items, k - 1, max, tail);
    }
  }

  lemma NothingPacked(lt: LType)
    ensures EncPacked(lt, []) == []
  {
  }

  lemma OnePackedItem(lt: LType, items: seq<Value>, k: nat, max: nat, tail: seq<byte>)
    requires ValidType(lt) && Packable(lt) && AllTyped(lt, items) && k < |items| <= max
    ensures DecodePacked(lt, items[..k], max, EncScalar(lt, items[k]) + tail) == DecodePacked(lt, items[..k + 1], max, tail)
  {
    ScalarRoundTrip(lt, items[k], tail);
    ScalarNotEmpty(lt, items[k]);
    assert items[..k] + [items[k]] == items[..k + 1];
    hide DecodeScalar, EncScalar, HasType, Packable, ValidType;
  }

  lemma ScalarNotEmpty(lt: LType, v: Value)
    requires Packable(lt) && HasType(lt, v)
    ensures EncScalar(lt, v) != []
  {
    hide Varint, LittleEndian;
  }

  lemma PackedArrayRoundTrip(lt: LType, items: seq<Value>, max: nat, tail: seq<byte>)
    requires ValidType(lt) && Packable(lt) && AllTyped(lt, items) && |items| <= max && |EncPacked(lt, items)| < U32
    ensures DecodePackedArray(lt, [], max, Delimited(EncPacked(lt, items)) + tail) == Parsed(items, tail)
  {
    var data := EncPacked(lt, items);
    DelimitedRoundTrip(data, tail);
    PackedRoundTrip(lt, items, |items|, max, []);
    assert items[..|items|] == items && data + [] == data;
    hide DecodeDelimited, Delimited, EncPacked, Packable, ValidType, AllTyped;
  }

  // ---- Values and fields ----

  // How a value is decoded from: any array item, and otherwise the value a message starts with.
  ghost predicate Start(lt: LType, current: Value, item: bool) {
    HasType(lt, current) && (lt.TMessage? && !item ==> current == DefaultValue(lt))
  }

  lemma ValueRoundTrip(lt: LType, v: Value, current: Value, item: bool, tail: seq<byte>)
    requires ValidType(lt) && HasType(lt, v) && ValueFits(lt, v) && |EncValue(lt, v)| < U32 && Start(lt, current, item)
    ensures DecodeValue(lt, current, item, EncValue(lt, v) + tail) == Parsed(v, tail)
    decreases lt
  {
    match lt
    case TMessage(fields) =>
      DelimitedRoundTrip(Enc(fields, v.slots), tail);
      MessageRoundTrip(fields, v.slots);
      hide Delimited, DecodeDelimited, DecodeMessage, Enc, Defaults, Shaped, ValidFields;
    case TBytes(_) =>
      DelimitedRoundTrip(v.bytes, tail);
      hide Delimited, DecodeDelimited;
    case TString(_) =>
      DelimitedRoundTrip(v.bytes, tail);
      hide Delimited, DecodeDelimited, Terminated;
    case TFixedBytes(_) =>
      DelimitedRoundTrip(v.bytes, tail);
      hide Delimited, DecodeDelimited;
    case _ =>
      ScalarRoundTrip(lt, v, tail);
      hide DecodeScalar, EncScalar, HasType, ValidType, Pow2;
  }

  // Items each under its own tag, packable or not.
  lemma TaggedRoundTrip(fields: seq<Field>, slots: seq<Slot>, seen: set<nat>, n: nat, items: seq<Value>, k: nat, tail: seq<byte>)
    requires ValidFields(fields) && Shaped(fields, slots) && n < |fields| && fields[n].rule.Repeated?
    requires AllTyped(fields[n].ltype, items) && k <= |items| <= fields[n].rule.arraySize
    requires slots[n] == Many([]) && |EncTagged(fields[n], items)| < U32
    requires forall i :: 0 <= i < |items| ==> ValueFits(fields[n].ltype, items[i])
    ensures Shaped(fields, slots[n := Many(items[..k])])
    ensures DecodeFrom(fields, slots, seen, EncTagged(fields[n], items[..k]) + tail) ==
              DecodeFrom(fields, slots[n := Many(items[..k])], seen, tail)
    decreases fields[n], k
  {
    hide DecodeFrom, EncTagged, EncTag, EncValue, WireType, HasType, ValidFields, ValueFits, Packable;
    var f := fields[n];
    NothingTagged(f);
    if k == 0 {
      assert items[..0] == [] && slots[n := Many([])] == slots && [] + tail == tail;
    } else {
      TaggedStep(f, items, k - 1);
      var before, tag, value := EncTagged(f, items[..k - 1]), EncTag(WireType(f.ltype), f.tag), EncValue(f.ltype, items[k - 1]);
      assert before + (tag + value) + tail == before + (tag + (value + tail));
      TaggedRoundTrip(fields, slots, seen, n, items, k - 1, tag + (value + tail));
      hide Shaped;
      var cur := slots[n := Many(items[..k - 1])];
      OneTaggedItem(fields, cur, seen, n, items, k - 1, tail);
      assert cur[n := Many(items[..k])] == slots[n := Many(items[..k])];
    }
  }

  lemma NothingTagged(f: Field)
    ensures EncTagged(f, []) == []
  {
  }

  lemma OneTaggedItem(fields: seq<Field>, slots: seq<Slot>, seen: set<nat>, n: nat, items: seq<Value>, k: nat, tail: seq<byte>)
    requires ValidFields(fields) && Shaped(fields, slots) && n < |fields| && fields[n].rule.Repeated?
    requires AllTyped(fields[n].ltype, items) && k < |items| <= fields[n].rule.arraySize
    requires slots[n] == Many(items[..k]) && |EncValue(fields[n].ltype, items[k])| < U32
    requires ValueFits(fields[n].ltype, items[k])
    ensures Shaped(fields, slots[n := Many(items[..k + 1])])
    ensures DecodeFrom(fields, slots, seen,
              EncTag(WireType(fields[n].ltype), fields[n].tag) + (EncValue(fields[n].ltype, items[k]) + tail)) ==
              DecodeFrom(fields, slots[n := Many(items[..k + 1])], seen, tail)
    decreases fields[n], 0
  {
    hide DecodeFrom, DecodeValue, EncValue, EncTag, HasType, ValidType;
    var f := fields[n];
    assert ValidField(f);
    DefaultTyped(f);
    var rest := EncValue(f.ltype, items[k]) + tail;
    TagDecodes(fields, slots, seen, n, WireType(f.ltype), rest);
    ValueRoundTrip(f.ltype, items[k], DefaultValue(f.ltype), true, tail);
    assert items[..k] + [items[k]] == items[..k + 1];
    assert DecodeField(fields, slots, n, WireType(f.ltype), rest) == Parsed(slots[n := Many(items[..k + 1])], tail);
  }

  // Decoding bs after the first n fields.
  ghost function After(fields: seq<Field>, m: seq<Slot>, n: nat, bs: seq<byte>): Parsed<(seq<Slot>, set<nat>)>
    requires ValidFields(fields) && Shaped(fields, m) && n <= |fields|
  {
    PartlyShaped(fields, m, n);
    DecodeFrom(fields, Partly(fields, m, n), SeenUpTo(fields, n), bs)
  }

  // A field that is not encoded leaves everything as it is.
  lemma AbsentField(fields: seq<Field>, m: seq<Slot>, n: nat, bs: seq<byte>)
    requires ValidFields(fields) && Shaped(fields, m) && n < |fields|
    requires m[n] == DefaultSlot(fields[n]) && !fields[n].rule.Required?
    ensures After(fields, m, n, bs) == After(fields, m, n + 1, bs)
  {
    PartlyNext(fields, m, n);
    assert Partly(fields, m, n + 1) == Partly(fields, m, n);
  }

  // The value of a field that is not repeated.
  function SingleValue(s: Slot): Option<Value> {
    match s
    case One(v) => Some(v)
    case Maybe(o) => o
    case Many(_) => None
  }

  lemma PresentField(fields: seq<Field>, m: seq<Slot>, n: nat, v: Value, tail: seq<byte>)
    requires ValidFields(fields) && Shaped(fields, m) && n < |fields| && SingleValue(m[n]) == Some(v)
    requires HasType(fields[n].ltype, v) && ValueFits(fields[n].ltype, v) && |EncValue(fields[n].ltype, v)| < U32
    ensures After(fields, m, n,
              EncTag(WireType(fields[n].ltype), fields[n].tag) + (EncValue(fields[n].ltype, v) + tail)) ==
              After(fields, m, n + 1, tail)
    decreases fields[n], 0
  {
    hide DecodeFrom, DecodeValue, EncValue, EncTag, HasType, ValidType, Partly, ValueFits, SetOneOf;
    var f, cur := fields[n], Partly(fields, m, n);
    assert ValidField(f) && SlotShaped(f, m[n]);
    PartlyShaped(fields, m, n);
    PartlyShaped(fields, m, n + 1);
    PartlyNext(fields, m, n);
    DefaultTyped(f);
    var rest := EncValue(f.ltype, v) + tail;
    TagDecodes(fields, cur, SeenUpTo(fields, n), n, WireType(f.ltype), rest);
    ValueRoundTrip(f.ltype, v, DefaultValue(f.ltype), false, tail);
    if f.rule.OneOf? {
      OneMember(fields, m, n, v);
    }
    assert DecodeField(fields, cur, n, WireType(f.ltype), rest) == Parsed(Partly(fields, m, n + 1), tail);
  }

  // The other members of the group have no value anyway.
  lemma OneMember(fields: seq<Field>, m: seq<Slot>, n: nat, v: Value)
    requires Shaped(fields, m) && n < |fields| && fields[n].rule.OneOf? && m[n] == Maybe(Some(v))
    ensures SetOneOf(fields, Partly(fields, m, n), n, v) == Partly(fields, m, n + 1)
  {
    var cur := Partly(fields, m, n);
    forall i | 0 <= i < |fields| && i != n && SameGroup(fields[n], fields[i]) ensures cur[i] == Maybe(None) {
      assert SlotShaped(fields[i], m[i]);
      assert i > n ==> cur[i] == DefaultSlot(fields[i]);
    }
    PartlyNext(fields, m, n);
  }

  lemma PackedField(fields: seq<Field>, m: seq<Slot>, n: nat, tail: seq<byte>)
    requires ValidFields(fields) && Shaped(fields, m) && n < |fields| && fields[n].rule.Repeated? && Packable(fields[n].ltype)
    requires m[n].Many? && |m[n].items| <= fields[n].rule.arraySize
    requires AllTyped(fields[n].ltype, m[n].items) && |EncPacked(fields[n].ltype, m[n].items)| < U32
    ensures After(fields, m, n,
              EncTag(WT_STRING, fields[n].tag) + (Delimited(EncPacked(fields[n].ltype, m[n].items)) + tail)) ==
              After(fields, m, n + 1, tail)
  {
    var f, cur := fields[n], Partly(fields, m, n);
    assert ValidField(f) && SlotShaped(f, m[n]);
    PartlyShaped(fields, m, n);
    PartlyShaped(fields, m, n + 1);
    PartlyNext(fields, m, n);
    var rest := Delimited(EncPacked(f.ltype, m[n].items)) + tail;
    TagDecodes(fields, cur, SeenUpTo(fields, n), n, WT_STRING, rest);
    PackedArrayRoundTrip(f.ltype, m[n].items, f.rule.arraySize, tail);
    hide DecodeFrom, DecodePackedArray, EncPacked, EncTag, HasType, ValidType, Shaped, Partly, Packable;
    assert DecodeField(fields, cur, n, WT_STRING, rest) == Parsed(Partly(fields, m, n + 1), tail);
  }

  lemma TaggedField(fields: seq<Field>, m: seq<Slot>, n: nat, tail: seq<byte>)
    requires ValidFields(fields) && Shaped(fields, m) && n < |fields| && fields[n].rule.Repeated? && !Packable(fields[n].ltype)
    requires m[n].Many? && SlotShaped(fields[n], m[n]) && SlotFits(fields[n], m[n]) && |EncTagged(fields[n], m[n].items)| < U32
    ensures After(fields, m, n, EncTagged(fields[n], m[n].items) + tail) ==
              After(fields, m, n + 1, tail)
    decreases fields[n], |m[n].items| + 1
  {
    var items := m[n].items;
    assert SlotShaped(fields[n], m[n]);
    PartlyShaped(fields, m, n);
    PartlyShaped(fields, m, n + 1);
    PartlyNext(fields, m, n);
    hide DecodeFrom, HasType, Shaped, Partly, Packable, ValueFits, EncTagged, ValidFields;
    TaggedRoundTrip(fields, Partly(fields, m, n), SeenUpTo(fields, n), n, items, |items|, tail);
    assert items[..|items|] == items;
  }

  lemma PackedCase(fields: seq<Field>, m: seq<Slot>, n: nat, tail: seq<byte>)
    requires ValidFields(fields) && Shaped(fields, m) && n < |fields| == |m| && SlotShaped(fields[n], m[n]) && SlotFits(fields[n], m[n])
    requires |EncField(fields[n], m[n])| < U32 && m[n].Many? && m[n].items != [] && Packable(fields[n].ltype)
    ensures After(fields, m, n, EncField(fields[n], m[n]) + tail) == After(fields, m, n + 1, tail)
  {
    hide After, Shaped, ValidFields, EncField, SlotShaped, SlotFits, HasType, EncPacked, EncTag, Packable, Delimited;
    FieldCases(fields[n], m[n]);
    var tag, data := EncTag(WT_STRING, fields[n].tag), Delimited(EncPacked(fields[n].ltype, m[n].items));
    assert |EncPacked(fields[n].ltype, m[n].items)| <= |data| by {
      DelimitedLength(EncPacked(fields[n].ltype, m[n].items));
    }
    Regroup(tag, data, tail);
    PackedField(fields, m, n, tail);
  }

  lemma DelimitedLength(bs: seq<byte>)
    ensures |bs| <= |Delimited(bs)|
  {
  }

  lemma PresentCase(fields: seq<Field>, m: seq<Slot>, n: nat, tail: seq<byte>)
    requires ValidFields(fields) && Shaped(fields, m) && n < |fields| == |m| && SlotShaped(fields[n], m[n]) && SlotFits(fields[n], m[n])
    requires |EncField(fields[n], m[n])| < U32 && EncodedValue(fields[n], m[n]).Some?
    ensures After(fields, m, n, EncField(fields[n], m[n]) + tail) == After(fields, m, n + 1, tail)
    decreases fields[n], 1
  {
    hide After, Shaped, ValidFields, EncField, SlotShaped, SlotFits, HasType, EncTag, EncValue, ValueFits, WireType;
    FieldCases(fields[n], m[n]);
    var v := EncodedValue(fields[n], m[n]).value;
    var tag, value := EncTag(WireType(fields[n].ltype), fields[n].tag), EncValue(fields[n].ltype, v);
    Regroup(tag, value, tail);
    PresentField(fields, m, n, v, tail);
  }

  lemma AbsentCase(fields: seq<Field>, m: seq<Slot>, n: nat, tail: seq<byte>)
    requires ValidFields(fields) && Shaped(fields, m) && n < |fields| == |m| && SlotShaped(fields[n], m[n])
    requires EncodedValue(fields[n], m[n]).None? && (m[n].Many? ==> m[n].items == [])
    ensures After(fields, m, n, EncField(fields[n], m[n]) + tail) == After(fields, m, n + 1, tail)
  {
    hide After, Shaped, ValidFields, EncField, SlotShaped;
    NotEncoded(fields[n], m[n]);
    AbsentField(fields, m, n, tail);
    assert EncField(fields[n], m[n]) + tail == tail;
  }

  // One field of the message is decoded on top of the fields before it.
  lemma FieldRoundTrip(fields: seq<Field>, m: seq<Slot>, n: nat, tail: seq<byte>)
    requires ValidFields(fields) && Shaped(fields, m) && n < |fields| == |m| && SlotShaped(fields[n], m[n]) && SlotFits(fields[n], m[n])
    requires |EncField(fields[n], m[n])| < U32
    ensures After(fields, m, n, EncField(fields[n], m[n]) + tail) == After(fields, m, n + 1, tail)
    decreases fields[n]
  {
    hide After, Shaped, ValidFields, EncField, SlotShaped, SlotFits, HasType, EncTagged, Packable, EncodedValue;
    var f, s := fields[n], m[n];
    FieldCases(f, s);
    if EncodedValue(f, s).Some? {
      PresentCase(fields, m, n, tail);
    } else if s.Many? && s.items != [] {
      if Packable(f.ltype) {
        PackedCase(fields, m, n, tail);
      } else {
        TaggedField(fields, m, n, tail);
      }
    } else {
      AbsentCase(fields, m, n, tail);
    }
  }

  lemma SlotOf(fields: seq<Field>, m: seq<Slot>, n: nat)
    requires Shaped(fields, m) && n < |fields|
    ensures SlotShaped(fields[n], m[n])
  {
  }

  // What encode_basic_field writes, case by case.
  lemma FieldCases(f: Field, s: Slot)
    requires SlotShaped(f, s) && SlotFits(f, s)
    ensures s.Many? ==> f.rule.Repeated? && AllTyped(f.ltype, s.items) && |s.items| <= f.rule.arraySize
    ensures s.Many? && s.items != [] && Packable(f.ltype) ==>
              EncField(f, s) == EncTag(WT_STRING, f.tag) + Delimited(EncPacked(f.ltype, s.items))
    ensures s.Many? && s.items != [] && !Packable(f.ltype) ==> EncField(f, s) == EncTagged(f, s.items)
    ensures EncodedValue(f, s).Some? ==>
              var v := EncodedValue(f, s).value;
              && SingleValue(s) == Some(v) && HasType(f.ltype, v) && ValueFits(f.ltype, v)
              && EncField(f, s) == EncTag(WireType(f.ltype), f.tag) + EncValue(f.ltype, v)
  {
    hide HasType, EncValue, EncTagged, EncPacked, EncTag, Delimited, Packable, ValueFits, IsDefaultValue;
  }

  function EncodedValue(f: Field, s: Slot): Option<Value> {
    if s.One? && f.rule.Singular? && IsDefaultValue(f.ltype, s.value) then None else SingleValue(s)
  }

  lemma NotEncoded(f: Field, s: Slot)
    requires SlotShaped(f, s) && EncodedValue(f, s).None? && (s.Many? ==> s.items == [])
    ensures EncField(f, s) == [] && s == DefaultSlot(f) && !f.rule.Required?
  {
    if s.One? {
      DefaultIsUnique(f.ltype, s.value);
    }
  }

  lemma MessageRoundTrip(fields: seq<Field>, m: seq<Slot>)
    requires ValidFields(fields) && Shaped(fields, m) && Fits(fields, m) && |Enc(fields, m)| < U32
    ensures Shaped(fields, Defaults(fields))
    ensures DecodeMessage(fields, Defaults(fields), Enc(fields, m)) == Parsed(m, [])
    decreases fields
  {
    DefaultsShaped(fields);
    var all := |fields|;
    FieldsRoundTrip(fields, m, all, []);
    assert Enc(fields, m) + [] == Enc(fields, m);
    FirstAndLast(fields, m);
    AllRequiredSeen(fields);
    hide Shaped, ValidFields, Fits, Enc, Defaults, DecodeFrom, AllSeen, After;
  }

  lemma AllRequiredSeen(fields: seq<Field>)
    ensures AllSeen(fields, SeenUpTo(fields, |fields|))
  {
    forall r: nat | r < CountRequired(fields, |fields|) && r < MAX_REQUIRED_FIELDS ensures r in SeenUpTo(fields, |fields|) {
      SeenAll(fields, |fields|, r);
    }
  }

  lemma FirstAndLast(fields: seq<Field>, m: seq<Slot>)
    requires ValidFields(fields) && Shaped(fields, m)
    ensures Shaped(fields, Defaults(fields))
    ensures forall bs :: After(fields, m, 0, bs) == DecodeFrom(fields, Defaults(fields), {}, bs)
    ensures After(fields, m, |fields|, []) == Parsed((m, SeenUpTo(fields, |fields|)), [])
  {
    DefaultsShaped(fields);
    assert Partly(fields, m, |fields|) == m && Partly(fields, m, 0) == Defaults(fields);
    hide Shaped, ValidFields, Defaults, Partly;
  }

  lemma OneFits(fields: seq<Field>, m: seq<Slot>, n: nat)
    requires Shaped(fields, m) && n < |fields| && Fits(fields, m)
    ensures SlotFits(fields[n], m[n]) && |EncField(fields[n], m[n])| <= |EncFields(fields, m, n + 1)|
  {
  }

  lemma {:induction false} FieldsRoundTrip(fields: seq<Field>, m: seq<Slot>, n: nat, tail: seq<byte>)
    requires ValidFields(fields) && Shaped(fields, m) && Fits(fields, m) && |Enc(fields, m)| < U32 && n <= |fields|
    ensures After(fields, m, 0, EncFields(fields, m, n) + tail) == After(fields, m, n, tail)
    decreases fields, 1, n
  {
    hide After, Shaped, ValidFields, EncFields, Fits, Enc;
    if n == 0 {
      NothingEncoded(fields, m, tail);
    } else {
      FieldAdded(fields, m, n - 1, tail);
      FieldsRoundTrip(fields, m, n - 1, FieldBytes(fields, m, n - 1) + tail);
    }
  }

  ghost function FieldBytes(fields: seq<Field>, m: seq<Slot>, n: nat): seq<byte>
    requires Shaped(fields, m) && n < |fields|
  {
    EncField(fields[n], m[n])
  }

  lemma FieldAdded(fields: seq<Field>, m: seq<Slot>, n: nat, tail: seq<byte>)
    requires ValidFields(fields) && Shaped(fields, m) && Fits(fields, m) && |Enc(fields, m)| < U32 && n < |fields|
    ensures EncFields(fields, m, n + 1) + tail == EncFields(fields, m, n) + (FieldBytes(fields, m, n) + tail)
    ensures After(fields, m, n, FieldBytes(fields, m, n) + tail) == After(fields, m, n + 1, tail)
    decreases fields, 0
  {
    FieldsStep(fields, m, n);
    OneFits(fields, m, n);
    SlotOf(fields, m, n);
    hide After, Shaped, ValidFields, EncFields, Fits, Enc, EncField, SlotShaped, SlotFits;
    Regroup(EncFields(fields, m, n), FieldBytes(fields, m, n), tail);
    FieldRoundTrip(fields, m, n, tail);
  }

  lemma NothingEncoded(fields: seq<Field>, m: seq<Slot>, tail: seq<byte>)
    requires Shaped(fields, m)
    ensures EncFields(fields, m, 0) + tail == tail
  {
  }

  // pb_decode after pb_encode: the message comes back, and nothing is left over.
  lemma RoundTrip(fields: seq<Field>, m: seq<Slot>)
    requires ValidFields(fields) && Shaped(fields, m) && Fits(fields, m) && |Enc(fields, m)| < U32
    ensures Decode(fields, Enc(fields, m)) == Parsed(m, [])
  {
    MessageRoundTrip(fields, m);
  }

  // Different messages are encoded differently.
  lemma EncodingIsInjective(fields: seq<Field>, m: seq<Slot>, m': seq<Slot>)
    requires ValidFields(fields) && Shaped(fields, m) && Fits(fields, m) && |Enc(fields, m)| < U32
    requires Shaped(fields, m') && Fits(fields, m') && Enc(fields, m') == Enc(fields, m)
    ensures m == m'
  {
    RoundTrip(fields, m);
    RoundTrip(fields, m');
  }
}
