/**
  nanopb's field descriptors, the messages they describe as typed values, and the cyclic field
  iterator (pb.h, pb_common.c).
 */
module PbFields {
  import opened Wrappers
  import opened Bytes
  import opened PbWire

  // PB_SIZE_MAX with PB_FIELD_32BIT
  const PB_SIZE_MAX: nat := 0xFFFF_FFFF
  // offsetof(pb_bytes_array_t, bytes)
  const BYTES_HEADER: nat := 4
  const MAX_REQUIRED_FIELDS: nat := 64

  // PB_LTYPE.  Integers carry their width in bits, the others data_size.
  datatype LType =
    | TBool | TVarint(bits: nat) | TUvarint(bits: nat) | TSvarint(bits: nat) | TFixed32 | TFixed64
    | TBytes(dataSize: nat) | TString(dataSize: nat) | TMessage(fields: seq<Field>) | TFixedBytes(dataSize: nat)

  // PB_HTYPE of a statically allocated field.  Singular is a proto3 field without a has_ flag.
  datatype HType = Required | Optional | Singular | Repeated(arraySize: nat) | OneOf(group: nat)

  datatype Field = Field(tag: nat, rule: HType, ltype: LType)

  datatype Value = VBool(b: bool) | VInt(i: int) | VBytes(bytes: seq<byte>) | VMessage(slots: seq<Slot>)

  // An optional field without a value, and a member of a oneof that is not the one set, is
  // Maybe(None); the members of a oneof share storage, so at most one of them has a value.
  datatype Slot = One(value: Value) | Maybe(option: Option<Value>) | Many(items: seq<Value>)

  predicate Packable(lt: LType) {
    lt.TBool? || lt.TVarint? || lt.TUvarint? || lt.TSvarint? || lt.TFixed32? || lt.TFixed64?
  }

  predicate ValidBits(bits: nat) {
    bits == 8 || bits == 16 || bits == 32 || bits == 64
  }

  ghost predicate ValidType(lt: LType)
    decreases lt
  {
    match lt
    case TVarint(bits) => ValidBits(bits)
    case TUvarint(bits) => ValidBits(bits)
    case TSvarint(bits) => ValidBits(bits)
    case TMessage(fields) => ValidFields(fields)
    case TBytes(size) => size >= BYTES_HEADER
    case TString(size) => size > 0
    case TFixedBytes(n) => n < U32
    case _ => true
  }

  ghost predicate ValidFields(fields: seq<Field>)
    decreases fields
  {
    && (forall i, j :: 0 <= i < j < |fields| ==> fields[i].tag != fields[j].tag)
    && forall i :: 0 <= i < |fields| ==> ValidField(fields[i])
  }

  ghost predicate ValidField(f: Field)
    decreases f
  {
    0 < f.tag < 0x2000_0000 && ValidType(f.ltype)
  }

  // ---- Well-typed messages ----

  ghost predicate HasType(lt: LType, v: Value)
    decreases lt
  {
    match lt
    case TBool => v.VBool?
    case TVarint(bits) => bits > 0 && v.VInt? && FitsSigned(v.i, bits)
    case TUvarint(bits) => v.VInt? && 0 <= v.i < Pow2(bits)
    case TSvarint(bits) => bits > 0 && v.VInt? && FitsSigned(v.i, bits)
    case TFixed32 => v.VInt? && 0 <= v.i < U32
    case TFixed64 => v.VInt? && 0 <= v.i < U64
    case TBytes(_) => v.VBytes? && |v.bytes| <= PB_SIZE_MAX
    case TString(size) => v.VBytes? && |v.bytes| < size && |v.bytes| < U32 - 1 && 0 !in v.bytes
    case TMessage(fields) => v.VMessage? && Shaped(fields, v.slots)
    case TFixedBytes(n) => v.VBytes? && |v.bytes| == n
  }

  ghost predicate SlotShaped(f: Field, s: Slot)
    decreases f
  {
    match f.rule
    case Required => s.One? && HasType(f.ltype, s.value)
    case Singular => s.One? && HasType(f.ltype, s.value)
    case Optional => s.Maybe? && (s.option.Some? ==> HasType(f.ltype, s.option.value))
    case OneOf(_) => s.Maybe? && (s.option.Some? ==> HasType(f.ltype, s.option.value))
    case Repeated(_) => s.Many? && forall i :: 0 <= i < |s.items| ==> HasType(f.ltype, s.items[i])
  }

  predicate SameGroup(f: Field, g: Field) {
    f.rule.OneOf? && f.rule == g.rule
  }

  ghost predicate OneOfsOnce(fields: seq<Field>, slots: seq<Slot>)
    requires |fields| == |slots|
  {
    forall i, j ::
      (0 <= i < j < |fields| && SameGroup(fields[i], fields[j]) && slots[i].Maybe? && slots[j].Maybe? && slots[i].option.Some?) ==>
        slots[j].option.None?
  }

  ghost predicate Shaped(fields: seq<Field>, slots: seq<Slot>)
    decreases fields
  {
    && |fields| == |slots|
    && (forall i :: 0 <= i < |fields| ==> SlotShaped(fields[i], slots[i]))
    && OneOfsOnce(fields, slots)
  }

  // ---- Defaults (pb_message_set_to_defaults) ----

  function Zeros(n: nat): (bs: seq<byte>)
    ensures |bs| == n && forall i :: 0 <= i < n ==> bs[i] == 0
  {
    seq(n, _ => 0)
  }

  function DefaultValue(lt: LType): Value
    decreases lt
  {
    match lt
    case TBool => VBool(false)
    case TBytes(_) => VBytes([])
    case TString(_) => VBytes([])
    case TMessage(fields) => VMessage(Defaults(fields))
    case TFixedBytes(n) => VBytes(Zeros(n))
    case _ => VInt(0)
  }

  function DefaultSlot(f: Field): Slot
    decreases f
  {
    match f.rule
    case Repeated(_) => Many([])
    case Optional => Maybe(None)
    case OneOf(_) => Maybe(None)
    case _ => One(DefaultValue(f.ltype))
  }

  function Defaults(fields: seq<Field>): (slots: seq<Slot>)
    ensures |slots| == |fields|
    ensures forall i :: 0 <= i < |fields| ==> slots[i] == DefaultSlot(fields[i])
    decreases fields
  {
    if fields == [] then [] else [DefaultSlot(fields[0])] + Defaults(fields[1..])
  }

  // ---- pb_check_proto3_default_value ----

  predicate IsDefaultValue(lt: LType, v: Value)
    decreases lt
  {
    match v
    case VBool(b) => !b
    case VInt(i) => i == 0
    // A fixed-length value counts as empty only when its length is fixed as 0.
    case VBytes(bs) => bs == []
    case VMessage(slots) => lt.TMessage? && |lt.fields| == |slots| && AllDefault(lt.fields, slots)
  }

  predicate IsDefaultSlot(f: Field, s: Slot)
    decreases f
  {
    if f.rule.Required? then false
    else
      match s
      case Many(items) => items == []
      case Maybe(o) => o.None?
      case One(v) => IsDefaultValue(f.ltype, v)
  }

  predicate AllDefault(fields: seq<Field>, slots: seq<Slot>)
    requires |fields| == |slots|
    decreases fields
  {
    fields == [] || (IsDefaultSlot(fields[0], slots[0]) && AllDefault(fields[1..], slots[1..]))
  }

  // ---- The field iterator ----

  function CountRequired(fields: seq<Field>, n: nat): nat
    requires n <= |fields|
  {
    if n == 0 then 0 else CountRequired(fields, n - 1) + if fields[n - 1].rule.Required? then 1 else 0
  }

  // pb_field_iter_t.  pos wraps around; the position of the terminator is never taken unless
  // there are no fields.
  class FieldIter {
    const fields: seq<Field>
    var pos: nat
    var requiredFieldIndex: nat

    ghost predicate Valid()
      reads this
    {
      && (if fields == [] then pos == 0 else pos < |fields|)
      && requiredFieldIndex == CountRequired(fields, pos)
    }

    // pb_field_iter_begin
    constructor (fields: seq<Field>)
      ensures Valid() && this.fields == fields && pos == 0
    {
      this.fields := fields;
      pos, requiredFieldIndex := 0, 0;
    }

    // pb_field_iter_next: false when it wraps around.
    method Next() returns (more: bool)
      requires Valid()
      modifies this
      ensures Valid()
      ensures more <==> old(pos) + 1 < |fields|
      ensures pos == if more then old(pos) + 1 else 0
    {
      if fields == [] {
        return false;
      }
      var required := fields[pos].rule.Required?;
      pos := pos + 1;
      if pos == |fields| {
        pos, requiredFieldIndex := 0, 0;
        return false;
      }
      if required {
        requiredFieldIndex := requiredFieldIndex + 1;
      }
      return true;
    }

    // How many steps lead from position `start` to position i.
    function TurnsTo(start: nat, i: nat): int {
      if i >= start then i - start else i - start + |fields|
    }

    // pb_field_iter_find: a full turn from the current position.
    method Find(tag: nat) returns (found: bool)
      requires Valid()
      modifies this
      ensures Valid()
      ensures found ==> pos < |fields| && fields[pos].tag == tag
      ensures !found ==> forall i :: 0 <= i < |fields| ==> fields[i].tag != tag
    {
      if fields == [] {
        return false;
      }
      var start := pos;
      ghost var turn := 0;
      while true
        invariant Valid() && start < |fields| && turn < |fields|
        invariant pos == if start + turn < |fields| then start + turn else start + turn - |fields|
        invariant forall i :: 0 <= i < |fields| && TurnsTo(start, i) < turn ==> fields[i].tag != tag
        decreases |fields| - turn
      {
        if fields[pos].tag == tag {
          return true;
        }
        assert TurnsTo(start, pos) == turn;
        var _ := Next();
        turn := turn + 1;
        if pos == start {
          return false;
        }
      }
    }

    // The end of pb_decode_noinit: the number of required fields, found by moving on to the end.
    method RequiredCount() returns (count: nat)
      requires Valid()
      modifies this
      ensures Valid() && count == CountRequired(fields, |fields|)
    {
      if fields == [] {
        return 0;
      }
      var lastRequired := fields[pos].rule.Required?;
      count := requiredFieldIndex;
      var more := Next();
      while more
        invariant Valid()
        invariant more ==> pos > 0 && count == CountRequired(fields, pos - 1) && lastRequired == fields[pos - 1].rule.Required?
        invariant !more ==> count == CountRequired(fields, |fields| - 1) && lastRequired == fields[|fields| - 1].rule.Required?
        decreases more, |fields| - pos
      {
        lastRequired := fields[pos].rule.Required?;
        count := requiredFieldIndex;
        more := Next();
      }
      if lastRequired {
        count := count + 1;
      }
    }
  }
}
