/**
  nanopb's decoder (pb_decode.c) as functions of the bytes that are left in a stream.  Every call
  consumes bytes or works on a shorter substream, so decoding ends on every input.
 */
module PbDecode {
  import opened Wrappers
  import opened Bytes
  import opened PbWire
  import opened PbFields
  import opened PbEncode

  // ---- Values ----

  // pb_dec_bool, pb_dec_varint, pb_dec_uvarint, pb_dec_svarint, pb_dec_fixed32, pb_dec_fixed64
  function DecodeScalar(lt: LType, bs: seq<byte>): (p: Parsed<Value>)
    requires Packable(lt)
    ensures p.Parsed? ==> |p.rest| < |bs|
  {
    if lt.TBool? then
      var p := DecodeVarint32(bs);
      if p.Fail? then Fail else Parsed(VBool(p.value != 0), p.rest)
    else if lt.TFixed32? || lt.TFixed64? then
      var p := DecodeFixed(bs, if lt.TFixed32? then 4 else 8);
      if p.Fail? then Fail else Parsed(VInt(p.value), p.rest)
    else
      var p := DecodeVarint(bs);
      if p.Fail? then Fail
      else if lt.TUvarint? then
        if p.value < Pow2(lt.bits) then Parsed(VInt(p.value), p.rest) else Fail
      else
        // Up to 32 bits, a signed number is taken from the low 32 bits of the varint.
        var v := if lt.TSvarint? then Unzigzag(p.value) else Signed(p.value, if lt.bits == 64 then 64 else 32);
        if lt.bits > 0 && FitsSigned(v, lt.bits) then Parsed(VInt(v), p.rest) else Fail
  }

  // pb_make_string_substream: the part, and what follows it.
  function DecodeDelimited(bs: seq<byte>): (p: Parsed<seq<byte>>)
    ensures p.Parsed? ==> |p.value| + |p.rest| < |bs| && |p.value| < U32
  {
    var p := DecodeVarint32(bs);
    if p.Fail? || |p.rest| < p.value then Fail
    else Parsed(p.rest[..p.value], p.rest[p.value..])
  }

  // A C string ends at its first zero.
  function Terminated(bs: seq<byte>): (r: seq<byte>)
    ensures |r| <= |bs| && 0 !in r
    ensures 0 !in bs ==> r == bs
  {
    if bs == [] || bs[0] == 0 then [] else [bs[0]] + Terminated(bs[1..])
  }

  // The decoder of a type.  A submessage is merged into the current value, unless it is a new
  // array item.
  ghost function DecodeValue(lt: LType, current: Value, item: bool, bs: seq<byte>): (p: Parsed<Value>)
    requires ValidType(lt) && HasType(lt, current)
    ensures p.Parsed? ==> |p.rest| < |bs| && HasType(lt, p.value)
    decreases |bs|, 0
  {
    match lt
    case TBytes(size) =>
      var p := DecodeDelimited(bs);
      if p.Fail? || |p.value| + BYTES_HEADER > size then Fail else Parsed(VBytes(p.value), p.rest)
    case TString(size) =>
      var p := DecodeDelimited(bs);
      if p.Fail? || |p.value| + 1 > size || |p.value| + 1 >= U32 then Fail else Parsed(VBytes(Terminated(p.value)), p.rest)
    case TFixedBytes(size) =>
      var p := DecodeDelimited(bs);
      if p.Fail? then Fail
      else if p.value == [] then Parsed(VBytes(Zeros(size)), p.rest)
      else if |p.value| != size then Fail
      else Parsed(VBytes(p.value), p.rest)
    case TMessage(fields) =>
      var p := DecodeDelimited(bs);
      if p.Fail? then Fail
      else
        DefaultsShaped(fields);
        var m := DecodeMessage(fields, if item then Defaults(fields) else current.slots, p.value);
        if m.Fail? then Fail else Parsed(VMessage(m.value), p.rest)
    case _ => DecodeScalarTyped(lt, bs); DecodeScalar(lt, bs)
  }

  lemma DecodeScalarTyped(lt: LType, bs: seq<byte>)
    requires Packable(lt)
    ensures DecodeScalar(lt, bs).Parsed? ==> HasType(lt, DecodeScalar(lt, bs).value)
  {
    hide Pow2, DecodeVarint, DecodeVarint32, Unzigzag, Signed, FitsSigned, FromLittleEndian;
    WordSizes();
    assert 8 * 4 == 32 && 8 * 8 == 64;
  }

  lemma DefaultsShaped(fields: seq<Field>)
    requires ValidFields(fields)
    ensures Shaped(fields, Defaults(fields))
    decreases fields
  {
    hide SlotShaped, ValidField;
    forall i | 0 <= i < |fields| ensures SlotShaped(fields[i], DefaultSlot(fields[i])) {
      DefaultShaped(fields[i]);
    }
  }

  lemma DefaultShaped(f: Field)
    requires ValidField(f)
    ensures SlotShaped(f, DefaultSlot(f))
    decreases f, 1
  {
    DefaultTyped(f);
  }

  lemma DefaultTyped(f: Field)
    requires ValidField(f)
    ensures HasType(f.ltype, DefaultValue(f.ltype))
    decreases f, 0
  {
    if f.ltype.TMessage? {
      DefaultsShaped(f.ltype.fields);
    }
  }

  // ---- Fields ----

  // The items of a packed array, as long as there is room for them.
  ghost function DecodePacked(lt: LType, items: seq<Value>, max: nat, bs: seq<byte>): (r: Option<seq<Value>>)
    requires Packable(lt) && AllTyped(lt, items)
    ensures r.Some? ==> AllTyped(lt, r.value)
    decreases |bs|
  {
    if bs == [] then Some(items)
    else if |items| >= max then None
    else
      var p := DecodeScalar(lt, bs);
      DecodeScalarTyped(lt, bs);
      if p.Fail? then None else DecodePacked(lt, items + [p.value], max, p.rest)
  }

  // Setting a member of a oneof unsets the others.
  function SetOneOf(fields: seq<Field>, slots: seq<Slot>, n: nat, v: Value): (r: seq<Slot>)
    requires |fields| == |slots| && n < |fields|
    ensures |r| == |slots|
  {
    seq(|slots|, i requires 0 <= i < |slots| =>
      if i == n then Maybe(Some(v)) else if SameGroup(fields[n], fields[i]) then Maybe(None) else slots[i])
  }

  // decode_static_field
  ghost function DecodeField(fields: seq<Field>, slots: seq<Slot>, n: nat, wt: nat, bs: seq<byte>): (p: Parsed<seq<Slot>>)
    requires ValidFields(fields) && Shaped(fields, slots) && n < |fields|
    ensures p.Parsed? ==> |p.rest| < |bs| && Shaped(fields, p.value)
    decreases |bs|, 1
  {
    var f, s := fields[n], slots[n];
    assert ValidField(f) && SlotShaped(f, s);
    DefaultTyped(f);
    hide HasType, OneOfsOnce, ValidType;
    match f.rule
    case Required => SetOne(fields, slots, n, DecodeValue(f.ltype, s.value, false, bs))
    case Singular => SetOne(fields, slots, n, DecodeValue(f.ltype, s.value, false, bs))
    case Optional =>
      var current := if s.option.Some? then s.option.value else DefaultValue(f.ltype);
      SetMaybe(fields, slots, n, DecodeValue(f.ltype, current, false, bs))
    case OneOf(_) => SetMember(fields, slots, n, DecodeValue(f.ltype, DefaultValue(f.ltype), false, bs))
    case Repeated(max) =>
      if wt == WT_STRING && Packable(f.ltype) then
        SetMany(fields, slots, n, DecodePackedArray(f.ltype, s.items, max, bs))
      else if |s.items| >= max then Fail
      else
        SetMany(fields, slots, n, OneMoreItem(f.ltype, s.items, DecodeValue(f.ltype, DefaultValue(f.ltype), true, bs)))
  }

  ghost function DecodePackedArray(lt: LType, items: seq<Value>, max: nat, bs: seq<byte>): (q: Parsed<seq<Value>>)
    requires Packable(lt) && AllTyped(lt, items)
    ensures q.Parsed? ==> |q.rest| < |bs| && AllTyped(lt, q.value)
  {
    var p := DecodeDelimited(bs);
    if p.Fail? then Fail
    else
      var r := DecodePacked(lt, items, max, p.value);
      if r.None? then Fail else Parsed(r.value, p.rest)
  }

  ghost function OneMoreItem(lt: LType, items: seq<Value>, p: Parsed<Value>): (q: Parsed<seq<Value>>)
    requires AllTyped(lt, items) && (p.Parsed? ==> HasType(lt, p.value))
    ensures q.Parsed? <==> p.Parsed?
    ensures q.Parsed? ==> q.rest == p.rest && AllTyped(lt, q.value)
  {
    if p.Fail? then Fail else Parsed(items + [p.value], p.rest)
  }

  ghost function SetOne(fields: seq<Field>, slots: seq<Slot>, n: nat, p: Parsed<Value>): (q: Parsed<seq<Slot>>)
    requires Shaped(fields, slots) && n < |fields| && (fields[n].rule.Required? || fields[n].rule.Singular?)
    requires p.Parsed? ==> HasType(fields[n].ltype, p.value)
    ensures q.Parsed? <==> p.Parsed?
    ensures q.Parsed? ==> q.rest == p.rest && Shaped(fields, q.value)
  {
    if p.Fail? then Fail else Parsed(slots[n := One(p.value)], p.rest)
  }

  ghost function SetMaybe(fields: seq<Field>, slots: seq<Slot>, n: nat, p: Parsed<Value>): (q: Parsed<seq<Slot>>)
    requires Shaped(fields, slots) && n < |fields| && fields[n].rule.Optional?
    requires p.Parsed? ==> HasType(fields[n].ltype, p.value)
    ensures q.Parsed? <==> p.Parsed?
    ensures q.Parsed? ==> q.rest == p.rest && Shaped(fields, q.value)
  {
    if p.Fail? then Fail else Parsed(slots[n := Maybe(Some(p.value))], p.rest)
  }

  ghost function SetMember(fields: seq<Field>, slots: seq<Slot>, n: nat, p: Parsed<Value>): (q: Parsed<seq<Slot>>)
    requires Shaped(fields, slots) && n < |fields| && fields[n].rule.OneOf?
    requires p.Parsed? ==> HasType(fields[n].ltype, p.value)
    ensures q.Parsed? <==> p.Parsed?
    ensures q.Parsed? ==> q.rest == p.rest && Shaped(fields, q.value)
  {
    if p.Fail? then Fail else Parsed(SetOneOf(fields, slots, n, p.value), p.rest)
  }

  ghost function SetMany(fields: seq<Field>, slots: seq<Slot>, n: nat, p: Parsed<seq<Value>>): (q: Parsed<seq<Slot>>)
    requires Shaped(fields, slots) && n < |fields| && fields[n].rule.Repeated?
    requires p.Parsed? ==> AllTyped(fields[n].ltype, p.value)
    ensures q.Parsed? <==> p.Parsed?
    ensures q.Parsed? ==> q.rest == p.rest && Shaped(fields, q.value)
  {
    if p.Fail? then Fail else Parsed(slots[n := Many(p.value)], p.rest)
  }

  // ---- Messages ----

  // pb_skip_varint
  function SkipVarint(bs: seq<byte>): (p: Parsed<()>)
    ensures p.Parsed? ==> |p.rest| < |bs|
  {
    if bs == [] then Fail else if bs[0] >= 128 then SkipVarint(bs[1..]) else Parsed((), bs[1..])
  }

  // pb_skip_field
  function SkipField(wt: nat, bs: seq<byte>): (p: Parsed<()>)
    ensures p.Parsed? ==> |p.rest| < |bs|
  {
    if wt == WT_VARINT then SkipVarint(bs)
    else if wt == WT_64BIT then if |bs| < 8 then Fail else Parsed((), bs[8..])
    else if wt == WT_STRING then
      var p := DecodeDelimited(bs);
      if p.Fail? then Fail else Parsed((), p.rest)
    else if wt == WT_32BIT then if |bs| < 4 then Fail else Parsed((), bs[4..])
    else Fail
  }

  // What pb_field_iter_find finds.
  ghost predicate HasTag(fields: seq<Field>, n: nat, tag: nat) {
    n < |fields| && fields[n].tag == tag
  }

  lemma OnlyField(fields: seq<Field>, n: nat)
    requires ValidFields(fields) && n < |fields|
    ensures 0 < fields[n].tag < 0x2000_0000
    ensures forall k :: HasTag(fields, k, fields[n].tag) <==> k == n
  {
    assert ValidField(fields[n]);
  }

  // fields_seen
  function Mark(fields: seq<Field>, seen: set<nat>, n: nat): set<nat>
    requires n < |fields|
  {
    if fields[n].rule.Required? && CountRequired(fields, n) < MAX_REQUIRED_FIELDS
    then seen + {CountRequired(fields, n)} else seen
  }

  // The loop of pb_decode_noinit.  A zero tag ends the message early.
  ghost function DecodeFrom(fields: seq<Field>, slots: seq<Slot>, seen: set<nat>, bs: seq<byte>)
      : (p: Parsed<(seq<Slot>, set<nat>)>)
    requires ValidFields(fields) && Shaped(fields, slots)
    ensures p.Parsed? ==> |p.rest| <= |bs| && Shaped(fields, p.value.0)
    decreases |bs|, 3
  {
    if bs == [] then Parsed((slots, seen), [])
    else
      var t := DecodeVarint32(bs);
      if t.Fail? then Fail
      else if t.value == 0 then Parsed((slots, seen), t.rest)
      else if n :| HasTag(fields, n, t.value / 8) then
        var p := DecodeField(fields, slots, n, t.value % 8, t.rest);
        if p.Fail? then Fail else DecodeFrom(fields, p.value, Mark(fields, seen, n), p.rest)
      else
        var p := SkipField(t.value % 8, t.rest);
        if p.Fail? then Fail else DecodeFrom(fields, slots, seen, p.rest)
  }

  // All required fields, up to the first MAX_REQUIRED_FIELDS, were seen.
  predicate AllSeen(fields: seq<Field>, seen: set<nat>) {
    forall r :: 0 <= r < CountRequired(fields, |fields|) && r < MAX_REQUIRED_FIELDS ==> r in seen
  }

  // pb_decode_noinit
  ghost function DecodeMessage(fields: seq<Field>, slots: seq<Slot>, bs: seq<byte>): (p: Parsed<seq<Slot>>)
    requires ValidFields(fields) && Shaped(fields, slots)
    ensures p.Parsed? ==> |p.rest| <= |bs| && Shaped(fields, p.value)
    decreases |bs|, 4
  {
    var p := DecodeFrom(fields, slots, {}, bs);
    if p.Parsed? && AllSeen(fields, p.value.1) then Parsed(p.value.0, p.rest) else Fail
  }

  // pb_decode
  ghost function Decode(fields: seq<Field>, bs: seq<byte>): (p: Parsed<seq<Slot>>)
    requires ValidFields(fields)
    ensures p.Parsed? ==> Shaped(fields, p.value)
  {
    DefaultsShaped(fields);
    DecodeMessage(fields, Defaults(fields), bs)
  }
}
