/**
  Whatever the bytes are, nothing is decoded that the message has no room for: arrays stay within their size, and
  so do byte strings, at every depth.
 */
module PbRoom {
  import opened Wrappers
  import opened Bytes
  import opened PbWire
  import opened PbFields
  import opened PbEncode
  import opened PbDecode
  import opened PbMessages

  // ---- Defaults ----

  lemma DefaultsFit(fields: seq<Field>)
    requires ValidFields(fields)
    ensures Shaped(fields, Defaults(fields)) && Fits(fields, Defaults(fields))
    decreases fields
  {
    hide SlotFits, ValidField, Shaped;
    DefaultsShaped(fields);
    EachShaped(fields, Defaults(fields));
    forall i | 0 <= i < |fields| ensures SlotFits(fields[i], DefaultSlot(fields[i])) {
      DefaultSlotFits(fields[i]);
    }
  }

  lemma EachShaped(fields: seq<Field>, slots: seq<Slot>)
    requires Shaped(fields, slots)
    ensures |fields| == |slots| && forall i :: 0 <= i < |fields| ==> SlotShaped(fields[i], slots[i])
  {
  }

  lemma DefaultSlotFits(f: Field)
    requires ValidField(f)
    ensures SlotShaped(f, DefaultSlot(f)) && SlotFits(f, DefaultSlot(f))
    decreases f, 1
  {
    hide ValueFits;
    DefaultShaped(f);
    DefaultTyped(f);
    DefaultValueFits(f);
  }

  lemma DefaultValueFits(f: Field)
    requires ValidField(f) && HasType(f.ltype, DefaultValue(f.ltype))
    ensures ValueFits(f.ltype, DefaultValue(f.ltype))
    decreases f, 0
  {
    if f.ltype.TMessage? {
      DefaultsFit(f.ltype.fields);
    }
  }

  // A value with nothing in it takes no room.
  lemma EmptyFits(lt: LType, v: Value)
    requires ValidType(lt) && HasType(lt, v) && IsDefaultValue(lt, v)
    ensures ValueFits(lt, v)
  {
    if lt.TMessage? {
      AllDefaultFit(lt.fields, v.slots);
    }
  }

  lemma {:induction false} AllDefaultFit(fields: seq<Field>, slots: seq<Slot>)
    requires |fields| == |slots| && AllDefault(fields, slots)
    requires forall i :: 0 <= i < |fields| ==> SlotShaped(fields[i], slots[i])
    ensures forall i :: 0 <= i < |fields| ==> SlotFits(fields[i], slots[i])
    decreases |fields|
  {
    hide SlotShaped, ValueFits;
    if fields != [] {
      EmptySlotFits(fields[0], slots[0]);
      AllDefaultFit(fields[1..], slots[1..]);
      forall i | 0 <= i < |fields| ensures SlotFits(fields[i], slots[i]) {
        if i > 0 {
          assert SlotFits(fields[1..][i - 1], slots[1..][i - 1]);
        }
      }
    }
  }

  lemma EmptySlotFits(f: Field, s: Slot)
    requires SlotShaped(f, s) && IsDefaultSlot(f, s)
    ensures SlotFits(f, s)
  {
  }

  // ---- Values ----

  lemma {:induction false} ValueKeepsRoom(lt: LType, current: Value, item: bool, bs: seq<byte>)
    requires ValidType(lt) && HasType(lt, current) && ValueFits(lt, current) && DecodeValue(lt, current, item, bs).Parsed?
    ensures ValueFits(lt, DecodeValue(lt, current, item, bs).value)
    decreases |bs|, 0
  {
    hide DecodeMessage, DecodeScalar, DecodeDelimited, Terminated;
    if lt.TMessage? {
      DefaultsFit(lt.fields);
      var p := DecodeDelimited(bs);
      MessageKeepsRoom(lt.fields, if item then Defaults(lt.fields) else current.slots, p.value);
    }
  }

  lemma {:induction false} PackedKeepsRoom(lt: LType, items: seq<Value>, max: nat, bs: seq<byte>)
    requires Packable(lt) && AllTyped(lt, items) && |items| <= max && DecodePacked(lt, items, max, bs).Some?
    ensures |DecodePacked(lt, items, max, bs).value| <= max
    decreases |bs|
  {
    hide DecodeScalar, HasType;
    if bs != [] {
      DecodeScalarTyped(lt, bs);
      var p := DecodeScalar(lt, bs);
      PackedKeepsRoom(lt, items + [p.value], max, p.rest);
    }
  }

  // ---- Fields ----

  lemma {:induction false} FieldKeepsRoom(fields: seq<Field>, slots: seq<Slot>, n: nat, wt: nat, bs: seq<byte>)
    requires ValidFields(fields) && Shaped(fields, slots) && Fits(fields, slots) && n < |fields|
    requires DecodeField(fields, slots, n, wt, bs).Parsed?
    ensures Fits(fields, DecodeField(fields, slots, n, wt, bs).value)
    decreases |bs|, 1
  {
    hide DecodeValue, DecodePackedArray, HasType, OneOfsOnce, ValidType, ValueFits, IsDefaultValue;
    var f, s := fields[n], slots[n];
    assert ValidField(f) && SlotShaped(f, s) && SlotFits(f, s);
    DefaultTyped(f);
    DefaultValueFits(f);
    if f.rule.Repeated? && wt == WT_STRING && Packable(f.ltype) {
      PackedArrayKeepsRoom(f.ltype, s.items, f.rule.arraySize, bs);
    } else {
      if f.rule.Singular? && IsDefaultValue(f.ltype, s.value) {
        EmptyFits(f.ltype, s.value);
      }
      var current := if s.One? then s.value else if s.Maybe? && s.option.Some? && f.rule.Optional? then s.option.value else DefaultValue(f.ltype);
      ValueKeepsRoom(f.ltype, current, f.rule.Repeated?, bs);
    }
  }

  lemma PackedArrayKeepsRoom(lt: LType, items: seq<Value>, max: nat, bs: seq<byte>)
    requires Packable(lt) && AllTyped(lt, items) && |items| <= max && DecodePackedArray(lt, items, max, bs).Parsed?
    ensures var p := DecodePackedArray(lt, items, max, bs).value; |p| <= max && forall i :: 0 <= i < |p| ==> ValueFits(lt, p[i])
  {
    hide DecodeDelimited, DecodePacked, HasType;
    PackedKeepsRoom(lt, items, max, DecodeDelimited(bs).value);
  }

  // ---- Messages ----

  lemma {:induction false} MessageKeepsRoom(fields: seq<Field>, slots: seq<Slot>, bs: seq<byte>)
    requires ValidFields(fields) && Shaped(fields, slots) && Fits(fields, slots) && DecodeMessage(fields, slots, bs).Parsed?
    ensures Fits(fields, DecodeMessage(fields, slots, bs).value)
    decreases |bs|, 4
  {
    hide DecodeFrom, Fits, Shaped, ValidFields, AllSeen;
    RecordsKeepRoom(fields, slots, {}, bs);
  }

  lemma {:induction false} RecordsKeepRoom(fields: seq<Field>, slots: seq<Slot>, seen: set<nat>, bs: seq<byte>)
    requires ValidFields(fields) && Shaped(fields, slots) && Fits(fields, slots) && DecodeFrom(fields, slots, seen, bs).Parsed?
    ensures Fits(fields, DecodeFrom(fields, slots, seen, bs).value.0)
    decreases |bs|, 3
  {
    hide DecodeField, SkipField, DecodeVarint32, Fits, Shaped, ValidFields;
    if bs != [] {
      var t := DecodeVarint32(bs);
      if t.value != 0 {
        if n: nat :| HasTag(fields, n, t.value / 8) {
          IsField(fields, n, t.value / 8);
          FieldKeepsRoom(fields, slots, n, t.value % 8, t.rest);
          var p := DecodeField(fields, slots, n, t.value % 8, t.rest);
          RecordsKeepRoom(fields, p.value, Mark(fields, seen, n), p.rest);
        } else {
          RecordsKeepRoom(fields, slots, seen, SkipField(t.value % 8, t.rest).rest);
        }
      }
    }
  }

  // So it is with pb_decode.
  lemma DecodedFits(fields: seq<Field>, bs: seq<byte>)
    requires ValidFields(fields) && Decode(fields, bs).Parsed?
    ensures Fits(fields, Decode(fields, bs).value)
  {
    hide DecodeMessage, Fits, ValidFields, Shaped;
    DefaultsFit(fields);
    MessageKeepsRoom(fields, Defaults(fields), bs);
  }
}
