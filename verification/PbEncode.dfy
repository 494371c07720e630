/**
  nanopb's encoder (pb_encode.c): the bytes of a message as a function of it, and the methods that
  write them to a stream or, on a sizing stream, only count them.
 */
module PbEncode {
  import opened Wrappers
  import opened Bytes
  import opened PbWire
  import opened PbFields

  // pb_wire_type_t
  const WT_VARINT: nat := 0
  const WT_64BIT: nat := 1
  const WT_STRING: nat := 2
  const WT_32BIT: nat := 5

  function WireType(lt: LType): (wt: nat)
    ensures wt < 8
  {
    match lt
    case TFixed32 => WT_32BIT
    case TFixed64 => WT_64BIT
    case TBytes(_) => WT_STRING
    case TString(_) => WT_STRING
    case TMessage(_) => WT_STRING
    case TFixedBytes(_) => WT_STRING
    case _ => WT_VARINT
  }

  // ---- What a message is encoded to ----

  function EncTag(wt: nat, tag: nat): seq<byte> {
    Varint(tag * 8 + wt)
  }

  function Delimited(bs: seq<byte>): seq<byte> {
    Varint(|bs|) + bs
  }

  ghost function EncScalar(lt: LType, v: Value): seq<byte>
    requires Packable(lt) && HasType(lt, v)
  {
    match lt
    case TBool => Varint(if v.b then 1 else 0)
    case TVarint(_) => Varint(Unsigned64(v.i))
    case TUvarint(_) => Varint(v.i)
    case TSvarint(_) => Varint(Zigzag(v.i))
    case TFixed32 => LittleEndian(v.i, 4)
    case _ => LittleEndian(v.i, 8)
  }

  ghost function EncValue(lt: LType, v: Value): seq<byte>
    requires HasType(lt, v)
    decreases lt, 0
  {
    match lt
    case TMessage(fields) => Delimited(Enc(fields, v.slots))
    case TBytes(_) => Delimited(v.bytes)
    case TString(_) => Delimited(v.bytes)
    case TFixedBytes(_) => Delimited(v.bytes)
    case _ => EncScalar(lt, v)
  }

  ghost predicate AllTyped(lt: LType, items: seq<Value>) {
    forall i :: 0 <= i < |items| ==> HasType(lt, items[i])
  }

  // The items of a packed array.
  ghost function EncPacked(lt: LType, items: seq<Value>): seq<byte>
    requires AllTyped(lt, items)
    decreases lt, 1, items
  {
    if items == [] then [] else EncPacked(lt, items[..|items| - 1]) + EncValue(lt, items[|items| - 1])
  }

  // The items of an array that cannot be packed, each under its own tag.
  ghost function EncTagged(f: Field, items: seq<Value>): seq<byte>
    requires AllTyped(f.ltype, items)
    decreases f, 1, items
  {
    if items == [] then []
    else EncTagged(f, items[..|items| - 1]) + (EncTag(WireType(f.ltype), f.tag) + EncValue(f.ltype, items[|items| - 1]))
  }

  ghost function EncField(f: Field, s: Slot): seq<byte>
    requires SlotShaped(f, s)
    decreases f, 2
  {
    match s
    case One(v) =>
      if f.rule.Singular? && IsDefaultValue(f.ltype, v) then []
      else EncTag(WireType(f.ltype), f.tag) + EncValue(f.ltype, v)
    case Maybe(o) => if o.None? then [] else EncTag(WireType(f.ltype), f.tag) + EncValue(f.ltype, o.value)
    case Many(items) =>
      if items == [] then []
      else if Packable(f.ltype) then EncTag(WT_STRING, f.tag) + Delimited(EncPacked(f.ltype, items))
      else EncTagged(f, items)
  }

  // The first n fields.
  ghost function EncFields(fields: seq<Field>, slots: seq<Slot>, n: nat): seq<byte>
    requires Shaped(fields, slots) && n <= |fields|
    decreases fields, n
  {
    if n == 0 then [] else EncFields(fields, slots, n - 1) + EncField(fields[n - 1], slots[n - 1])
  }

  ghost function Enc(fields: seq<Field>, slots: seq<Slot>): seq<byte>
    requires Shaped(fields, slots)
    decreases fields, |fields| + 1
  {
    EncFields(fields, slots, |fields|)
  }

  // ---- Capacities ----

  // "bytes size exceeded" and "array max size exceeded" are the only errors a well-typed message
  // can cause.
  ghost predicate ValueFits(lt: LType, v: Value)
    requires HasType(lt, v)
    decreases lt
  {
    match lt
    case TBytes(size) => |v.bytes| + BYTES_HEADER <= size
    case TMessage(fields) => Fits(fields, v.slots)
    case _ => true
  }

  ghost predicate SlotFits(f: Field, s: Slot)
    requires SlotShaped(f, s)
    decreases f
  {
    match s
    case One(v) => (f.rule.Singular? && IsDefaultValue(f.ltype, v)) || ValueFits(f.ltype, v)
    case Maybe(o) => o.Some? ==> ValueFits(f.ltype, o.value)
    case Many(items) => |items| <= f.rule.arraySize && forall i :: 0 <= i < |items| ==> ValueFits(f.ltype, items[i])
  }

  ghost predicate Fits(fields: seq<Field>, slots: seq<Slot>)
    requires Shaped(fields, slots)
    decreases fields
  {
    forall i :: 0 <= i < |fields| ==> SlotFits(fields[i], slots[i])
  }

  // ---- Streams ----

  datatype Error = NoError | StreamFull | ArraySizeExceeded | BytesSizeExceeded | SizeChanged

  // A call that writes bs: it succeeds exactly when the message respects its capacities and the
  // bytes fit, and then the stream has moved on by bs, whether or not it keeps the bytes.
  predicate Moved(sizing: bool, maxSize: nat, written: nat, output: seq<byte>, written': nat, output': seq<byte>,
                  ok: bool, fits: bool, bs: seq<byte>) {
    && (sizing || written' <= maxSize)
    && (ok <==> fits && (sizing || written + |bs| <= maxSize))
    && (ok ==> written' == written + |bs| && output' == if sizing then output else output + bs)
  }

  // One call after another.
  lemma Then(sizing: bool, maxSize: nat, w0: nat, o0: seq<byte>, w1: nat, o1: seq<byte>, w2: nat, o2: seq<byte>,
             a: seq<byte>, ok: bool, fits: bool, b: seq<byte>)
    requires Moved(sizing, maxSize, w0, o0, w1, o1, true, true, a)
    requires Moved(sizing, maxSize, w1, o1, w2, o2, ok, fits, b)
    ensures Moved(sizing, maxSize, w0, o0, w2, o2, ok, fits, a + b)
  {
    assert o0 + a + b == o0 + (a + b);
  }

  // What fails early fails as a whole.
  lemma FailsLonger(sizing: bool, maxSize: nat, w0: nat, o0: seq<byte>, w1: nat, o1: seq<byte>, fits: bool, a: seq<byte>,
                    all: bool, b: seq<byte>)
    requires Moved(sizing, maxSize, w0, o0, w1, o1, false, fits, a)
    requires |a| <= |b| && (all ==> fits)
    ensures Moved(sizing, maxSize, w0, o0, w1, o1, false, all, b)
  {
  }

  lemma Nothing(sizing: bool, maxSize: nat, w0: nat, o0: seq<byte>)
    requires sizing || w0 <= maxSize
    ensures Moved(sizing, maxSize, w0, o0, w0, o0, true, true, [])
  {
  }

  lemma StillValid(sizing: bool, maxSize: nat, w0: nat, o0: seq<byte>, w1: nat, o1: seq<byte>, ok: bool, fits: bool, a: seq<byte>)
    requires Moved(sizing, maxSize, w0, o0, w1, o1, ok, fits, a)
    ensures sizing || w1 <= maxSize
  {
  }

  // pb_ostream_t.  A sizing stream has no callback.
  class OStream {
    const sizing: bool
    const maxSize: nat
    var bytesWritten: nat
    var output: seq<byte>
    var errmsg: Error

    predicate Valid()
      reads this
    {
      sizing || bytesWritten <= maxSize
    }

    constructor (sizing: bool, maxSize: nat, output: seq<byte>)
      ensures this.sizing == sizing && this.maxSize == maxSize && this.output == output
      ensures bytesWritten == 0 && errmsg == NoError && Valid()
    {
      this.sizing, this.maxSize, this.output := sizing, maxSize, output;
      bytesWritten, errmsg := 0, NoError;
    }

    twostate predicate Wrote(ok: bool, fits: bool, bs: seq<byte>)
      reads this
    {
      && Moved(sizing, maxSize, old(bytesWritten), old(output), bytesWritten, output, ok, fits, bs)
      && (ok ==> errmsg == old(errmsg) || errmsg == NoError)
      && (!ok ==> errmsg != NoError && errmsg != SizeChanged)
    }

    // pb_write
    method Write(bs: seq<byte>) returns (ok: bool)
      requires Valid()
      modifies this
      ensures Wrote(ok, true, bs)
    {
      if |bs| > 0 && !sizing {
        if bytesWritten + |bs| > maxSize {
          errmsg := StreamFull;
          return false;
        }
        output := output + bs;
      }
      bytesWritten := bytesWritten + |bs|;
      return true;
    }

    // pb_write on a sizing stream, without the data.
    method Count(n: nat)
      requires sizing
      modifies this`bytesWritten
      ensures bytesWritten == old(bytesWritten) + n
    {
      bytesWritten := bytesWritten + n;
    }

    // pb_encode_varint
    method EncodeVarint(n: nat) returns (ok: bool)
      requires Valid()
      modifies this
      ensures Wrote(ok, true, Varint(n))
    {
      var buffer := VarintBuffer(n);
      ok := Write(buffer);
    }

    // pb_encode_tag
    method EncodeTag(wt: nat, tag: nat) returns (ok: bool)
      requires Valid()
      modifies this
      ensures Wrote(ok, true, EncTag(wt, tag))
    {
      ok := EncodeVarint(tag * 8 + wt);
    }

    // pb_encode_string
    method EncodeString(bs: seq<byte>) returns (ok: bool)
      requires Valid()
      modifies this
      ensures Wrote(ok, true, Delimited(bs))
    {
      ghost var w0, o0 := bytesWritten, output;
      ok := EncodeVarint(|bs|);
      ghost var w1, o1 := bytesWritten, output;
      if ok {
        ok := Write(bs);
        Then(sizing, maxSize, w0, o0, w1, o1, bytesWritten, output, Varint(|bs|), ok, true, bs);
      } else {
        FailsLonger(sizing, maxSize, w0, o0, w1, o1, true, Varint(|bs|), true, Delimited(bs));
      }
    }

    // pb_enc_bool, pb_enc_varint, pb_enc_uvarint, pb_enc_svarint, pb_enc_fixed32, pb_enc_fixed64
    method EncodeScalar(lt: LType, v: Value) returns (ok: bool)
      requires Valid() && Packable(lt) && HasType(lt, v)
      modifies this
      ensures Wrote(ok, true, EncScalar(lt, v))
    {
      hide Varint, LittleEndian;
      if lt.TBool? {
        ok := EncodeVarint(if v.b then 1 else 0);
      } else if lt.TVarint? {
        ok := EncodeVarint(Unsigned64(v.i));
      } else if lt.TUvarint? {
        ok := EncodeVarint(v.i);
      } else if lt.TSvarint? {
        ok := EncodeVarint(Zigzag(v.i));
      } else if lt.TFixed32? {
        ok := Write(LittleEndian(v.i, 4));
      } else {
        ok := Write(LittleEndian(v.i, 8));
      }
    }
  }

  // The loop of pb_encode_varint marks every byte, the last one too.
  function Marked(n: nat): (bs: seq<byte>)
    ensures n == 0 ==> bs == []
    decreases n
  {
    if n == 0 then [] else [(Low7(n) + 128) as byte] + Marked(High(n))
  }

  lemma MarkedStep(n: nat)
    requires n > 0
    ensures Marked(n) == [(Low7(n) + 128) as byte] + Marked(High(n)) && High(n) < n
  {
  }

  lemma OneByteVarint(n: nat)
    requires n < 128
    ensures Varint(n) == [n as byte]
  {
  }

  lemma {:induction false} MarkedIsVarint(n: nat)
    requires n > 0
    ensures |Marked(n)| == |Varint(n)|
    ensures Marked(n)[|Marked(n)| - 1] >= 128
    ensures Varint(n) == Marked(n)[|Marked(n)| - 1 := Marked(n)[|Marked(n)| - 1] - 128]
    decreases n
  {
    if n >= 128 {
      MarkedIsVarint(High(n));
    }
  }

  // The buffer pb_encode_varint fills.
  method VarintBuffer(n: nat) returns (buffer: seq<byte>)
    ensures buffer == Varint(n)
  {
    hide Marked, Low7, High, Varint;
    if n <= 0x7F {
      OneByteVarint(n);
      return [n as byte];
    }
    buffer := [];
    var value := n;
    while value > 0
      invariant buffer + Marked(value) == Marked(n)
      decreases value
    {
      MarkedStep(value);
      buffer := buffer + [(Low7(value) + 128) as byte];
      value := High(value);
    }
    MarkedIsVarint(n);
    // The top bit of the last byte is taken back.
    buffer := buffer[|buffer| - 1 := buffer[|buffer| - 1] - 128];
  }

  // ---- Fields and messages ----

  // The PB_ENCODERS function of a type.
  method EncodeValue(stream: OStream, lt: LType, v: Value) returns (ok: bool)
    requires stream.Valid() && HasType(lt, v)
    modifies stream
    ensures stream.Wrote(ok, ValueFits(lt, v), EncValue(lt, v))
    decreases lt, 0
  {
    match lt
    case TMessage(fields) => ok := EncodeSubmessage(stream, fields, v.slots);
    case TBytes(size) =>
      if |v.bytes| + BYTES_HEADER > size {
        stream.errmsg := BytesSizeExceeded;
        return false;
      }
      ok := stream.EncodeString(v.bytes);
    case TString(_) => ok := stream.EncodeString(v.bytes);
    case TFixedBytes(_) => ok := stream.EncodeString(v.bytes);
    case _ => ok := stream.EncodeScalar(lt, v);
  }

  // A field with its tag.
  method EncodeTagged(stream: OStream, f: Field, v: Value) returns (ok: bool)
    requires stream.Valid() && HasType(f.ltype, v)
    modifies stream
    ensures stream.Wrote(ok, ValueFits(f.ltype, v), EncTag(WireType(f.ltype), f.tag) + EncValue(f.ltype, v))
    decreases f, 0
  {
    hide Moved, EncTag, WireType, EncValue, ValueFits, HasType;
    ghost var sizing, maxSize, w0, o0 := stream.sizing, stream.maxSize, stream.bytesWritten, stream.output;
    ghost var tag, value := EncTag(WireType(f.ltype), f.tag), EncValue(f.ltype, v);
    ok := stream.EncodeTag(WireType(f.ltype), f.tag);
    ghost var w1, o1 := stream.bytesWritten, stream.output;
    StillValid(sizing, maxSize, w0, o0, w1, o1, ok, true, tag);
    if ok {
      ok := EncodeValue(stream, f.ltype, v);
      Then(sizing, maxSize, w0, o0, w1, o1, stream.bytesWritten, stream.output, tag, ok, ValueFits(f.ltype, v), value);
    } else {
      FailsLonger(sizing, maxSize, w0, o0, w1, o1, true, tag, ValueFits(f.ltype, v), tag + value);
    }
  }

  // The data of a packed array.
  lemma NothingPacked(lt: LType, items: seq<Value>)
    requires Packable(lt) && AllTyped(lt, items)
    ensures EncPacked(lt, items[..0]) == []
  {
  }

  method EncodeItems(stream: OStream, lt: LType, items: seq<Value>) returns (ok: bool)
    requires stream.Valid() && Packable(lt) && AllTyped(lt, items)
    modifies stream
    ensures stream.Wrote(ok, true, EncPacked(lt, items))
  {
    hide Moved, EncScalar, HasType, EncPacked;
    NothingPacked(lt, items);
    ghost var sizing, maxSize, w0, o0 := stream.sizing, stream.maxSize, stream.bytesWritten, stream.output;
    Nothing(sizing, maxSize, w0, o0);
    ok := true;
    for i := 0 to |items|
      invariant ok && Moved(sizing, maxSize, w0, o0, stream.bytesWritten, stream.output, true, true, EncPacked(lt, items[..i]))
      invariant stream.errmsg == old(stream.errmsg) || stream.errmsg == NoError
    {
      PackedStep(lt, items, i);
      ghost var before, item := EncPacked(lt, items[..i]), EncScalar(lt, items[i]);
      ghost var w1, o1 := stream.bytesWritten, stream.output;
      StillValid(sizing, maxSize, w0, o0, w1, o1, true, true, before);
      ok := stream.EncodeScalar(lt, items[i]);
      Then(sizing, maxSize, w0, o0, w1, o1, stream.bytesWritten, stream.output, before, ok, true, item);
      if !ok {
        FailsLonger(sizing, maxSize, w0, o0, stream.bytesWritten, stream.output, true, before + item, true, EncPacked(lt, items));
        return;
      }
    }
    assert items[..|items|] == items;
  }

  lemma PackedStep(lt: LType, items: seq<Value>, i: nat)
    requires Packable(lt) && AllTyped(lt, items) && i < |items|
    ensures EncPacked(lt, items[..i + 1]) == EncPacked(lt, items[..i]) + EncScalar(lt, items[i])
    ensures |EncPacked(lt, items[..i + 1])| <= |EncPacked(lt, items)|
    decreases |items| - i
  {
    var next := items[..i + 1];
    assert next[..i] == items[..i] && next[i] == items[i];
    if i + 1 < |items| {
      PackedStep(lt, items, i + 1);
    } else {
      assert next == items;
    }
  }

  lemma TaggedStep(f: Field, items: seq<Value>, i: nat)
    requires AllTyped(f.ltype, items) && i < |items|
    ensures EncTagged(f, items[..i + 1]) ==
              EncTagged(f, items[..i]) + (EncTag(WireType(f.ltype), f.tag) + EncValue(f.ltype, items[i]))
    ensures |EncTagged(f, items[..i + 1])| <= |EncTagged(f, items)|
    decreases |items| - i
  {
    var next := items[..i + 1];
    assert next[..i] == items[..i] && next[i] == items[i];
    if i + 1 < |items| {
      TaggedStep(f, items, i + 1);
    } else {
      assert next == items;
    }
  }

  // The shortcut of encode_array: fixed-size items need no sizing pass.
  lemma {:induction false} FixedItems(lt: LType, items: seq<Value>)
    requires AllTyped(lt, items)
    ensures lt.TFixed32? ==> |EncPacked(lt, items)| == 4 * |items|
    ensures lt.TFixed64? ==> |EncPacked(lt, items)| == 8 * |items|
  {
    if items != [] {
      FixedItems(lt, items[..|items| - 1]);
    }
  }

  // The size of a packed array.
  method PackedSize(lt: LType, items: seq<Value>) returns (size: nat)
    requires Packable(lt) && AllTyped(lt, items)
    ensures size == |EncPacked(lt, items)|
  {
    FixedItems(lt, items);
    if lt.TFixed32? {
      size := 4 * |items|;
    } else if lt.TFixed64? {
      size := 8 * |items|;
    } else {
      var sizestream := new OStream(true, 0, []);
      var _ := EncodeItems(sizestream, lt, items);
      size := sizestream.bytesWritten;
    }
  }

  // encode_array
  method EncodeArray(stream: OStream, f: Field, items: seq<Value>) returns (ok: bool)
    requires stream.Valid() && f.rule.Repeated? && SlotShaped(f, Many(items))
    modifies stream
    ensures stream.Wrote(ok, SlotFits(f, Many(items)), EncField(f, Many(items)))
    decreases f, 2
  {
    if items == [] {
      return true;
    }
    if |items| > f.rule.arraySize {
      stream.errmsg := ArraySizeExceeded;
      return false;
    }
    if Packable(f.ltype) {
      ok := EncodePackedArray(stream, f, items);
    } else {
      ok := EncodeTaggedArray(stream, f, items);
    }
  }

  method EncodePackedArray(stream: OStream, f: Field, items: seq<Value>) returns (ok: bool)
    requires stream.Valid() && Packable(f.ltype) && AllTyped(f.ltype, items)
    modifies stream
    ensures stream.Wrote(ok, true, EncTag(WT_STRING, f.tag) + Delimited(EncPacked(f.ltype, items)))
  {
    hide Moved, EncTag, EncPacked, Packable;
    ghost var data, tag := EncPacked(f.ltype, items), EncTag(WT_STRING, f.tag);
    ghost var sizing, maxSize, w0, o0 := stream.sizing, stream.maxSize, stream.bytesWritten, stream.output;
    ok := stream.EncodeTag(WT_STRING, f.tag);
    ghost var w1, o1 := stream.bytesWritten, stream.output;
    StillValid(sizing, maxSize, w0, o0, w1, o1, ok, true, tag);
    if !ok {
      FailsLonger(sizing, maxSize, w0, o0, w1, o1, true, tag, true, tag + Delimited(data));
      return;
    }
    var size := PackedSize(f.ltype, items);
    ok := EncodeSized(stream, f.ltype, items, size);
    Then(sizing, maxSize, w0, o0, w1, o1, stream.bytesWritten, stream.output, tag, ok, true, Delimited(data));
  }

  method EncodeSized(stream: OStream, lt: LType, items: seq<Value>, size: nat) returns (ok: bool)
    requires stream.Valid() && Packable(lt) && AllTyped(lt, items) && size == |EncPacked(lt, items)|
    modifies stream
    ensures stream.Wrote(ok, true, Delimited(EncPacked(lt, items)))
  {
    hide EncPacked, Packable, AllTyped, Varint;
    ghost var data := EncPacked(lt, items);
    ghost var sizing, maxSize, w0, o0 := stream.sizing, stream.maxSize, stream.bytesWritten, stream.output;
    ok := stream.EncodeVarint(size);
    ghost var w1, o1 := stream.bytesWritten, stream.output;
    if !ok {
      FailsLonger(sizing, maxSize, w0, o0, w1, o1, true, Varint(size), true, Delimited(data));
      return;
    }
    if stream.sizing {
      stream.Count(size);
    } else {
      ok := EncodeItems(stream, lt, items);
    }
    Then(sizing, maxSize, w0, o0, w1, o1, stream.bytesWritten, stream.output, Varint(size), ok, true, data);
  }

  lemma NoItems(f: Field, items: seq<Value>)
    requires AllTyped(f.ltype, items)
    ensures EncTagged(f, items[..0]) == []
  {
  }

  lemma ItemFails(f: Field, items: seq<Value>, i: nat)
    requires AllTyped(f.ltype, items) && i < |items|
    ensures |EncTagged(f, items[..i + 1])| <= |EncTagged(f, items)|
  {
    TaggedStep(f, items, i);
  }

  // One turn of the loop.
  method EncodeNextItem(stream: OStream, f: Field, items: seq<Value>, i: nat, ghost w0: nat, ghost o0: seq<byte>) returns (ok: bool)
    requires stream.Valid() && AllTyped(f.ltype, items) && i < |items|
    requires Moved(stream.sizing, stream.maxSize, w0, o0, stream.bytesWritten, stream.output, true, true, EncTagged(f, items[..i]))
    modifies stream
    ensures Moved(stream.sizing, stream.maxSize, w0, o0, stream.bytesWritten, stream.output, ok, ValueFits(f.ltype, items[i]),
                  EncTagged(f, items[..i + 1]))
    ensures ok ==> stream.errmsg == old(stream.errmsg) || stream.errmsg == NoError
    ensures !ok ==> stream.errmsg != NoError && stream.errmsg != SizeChanged
    decreases f, 1, 0
  {
    hide Moved, HasType, EncTagged, EncTag, EncValue, ValueFits, WireType;
    TaggedStep(f, items, i);
    ghost var w1, o1 := stream.bytesWritten, stream.output;
    ok := EncodeTagged(stream, f, items[i]);
    Then(stream.sizing, stream.maxSize, w0, o0, w1, o1, stream.bytesWritten, stream.output, EncTagged(f, items[..i]), ok,
         ValueFits(f.ltype, items[i]), EncTag(WireType(f.ltype), f.tag) + EncValue(f.ltype, items[i]));
  }

  method EncodeTaggedArray(stream: OStream, f: Field, items: seq<Value>) returns (ok: bool)
    requires stream.Valid() && AllTyped(f.ltype, items)
    modifies stream
    ensures stream.Wrote(ok, forall i :: 0 <= i < |items| ==> ValueFits(f.ltype, items[i]), EncTagged(f, items))
    decreases f, 1, 1
  {
    hide Moved, HasType, EncTagged, ValueFits;
    NoItems(f, items);
    ghost var sizing, maxSize, w0, o0 := stream.sizing, stream.maxSize, stream.bytesWritten, stream.output;
    Nothing(sizing, maxSize, w0, o0);
    ok := true;
    for i := 0 to |items|
      invariant ok && Moved(sizing, maxSize, w0, o0, stream.bytesWritten, stream.output, true, true, EncTagged(f, items[..i]))
      invariant stream.errmsg == old(stream.errmsg) || stream.errmsg == NoError
      invariant forall j :: 0 <= j < i ==> ValueFits(f.ltype, items[j])
    {
      StillValid(sizing, maxSize, w0, o0, stream.bytesWritten, stream.output, true, true, EncTagged(f, items[..i]));
      ok := EncodeNextItem(stream, f, items, i, w0, o0);
      if !ok {
        ItemFails(f, items, i);
        FailsLonger(sizing, maxSize, w0, o0, stream.bytesWritten, stream.output, ValueFits(f.ltype, items[i]), EncTagged(f, items[..i + 1]),
                    forall j :: 0 <= j < |items| ==> ValueFits(f.ltype, items[j]), EncTagged(f, items));
        return;
      }
      AllOk(sizing, maxSize, w0, o0, stream.bytesWritten, stream.output, ValueFits(f.ltype, items[i]), EncTagged(f, items[..i + 1]));
    }
    assert items[..|items|] == items;
  }

  // A call that succeeded found the capacities respected.
  lemma AllOk(sizing: bool, maxSize: nat, w0: nat, o0: seq<byte>, w1: nat, o1: seq<byte>, fits: bool, bs: seq<byte>)
    requires Moved(sizing, maxSize, w0, o0, w1, o1, true, fits, bs)
    ensures fits && Moved(sizing, maxSize, w0, o0, w1, o1, true, true, bs)
  {
  }

  // encode_basic_field
  method EncodeField(stream: OStream, f: Field, s: Slot) returns (ok: bool)
    requires stream.Valid() && SlotShaped(f, s)
    modifies stream
    ensures stream.Wrote(ok, SlotFits(f, s), EncField(f, s))
    decreases f, 3
  {
    ok := true;
    match f.rule
    case Required => ok := EncodeTagged(stream, f, s.value);
    case Singular =>
      if !IsDefaultValue(f.ltype, s.value) {
        ok := EncodeTagged(stream, f, s.value);
      }
    case Optional =>
      if s.option.Some? {
        ok := EncodeTagged(stream, f, s.option.value);
      }
    case OneOf(_) =>
      if s.option.Some? {
        ok := EncodeTagged(stream, f, s.option.value);
      }
    case Repeated(_) => ok := EncodeArray(stream, f, s.items);
  }

  lemma {:induction false} FieldsGrow(fields: seq<Field>, slots: seq<Slot>, n: nat, m: nat)
    requires Shaped(fields, slots) && n <= m <= |fields|
    ensures |EncFields(fields, slots, n)| <= |EncFields(fields, slots, m)|
  {
    if n < m {
      FieldsGrow(fields, slots, n, m - 1);
    }
  }

  // pb_encode
  method Encode(stream: OStream, fields: seq<Field>, slots: seq<Slot>) returns (ok: bool)
    requires stream.Valid() && Shaped(fields, slots)
    modifies stream
    ensures stream.Wrote(ok, Fits(fields, slots), Enc(fields, slots))
    decreases fields, 2
  {
    ghost var sizing, maxSize, w0, o0 := stream.sizing, stream.maxSize, stream.bytesWritten, stream.output;
    Nothing(sizing, maxSize, w0, o0);
    assert EncFields(fields, slots, 0) == [];
    var iter := new FieldIter(fields);
    if fields == [] {
      return true;
    }
    hide Moved, EncField, EncFields, SlotFits, SlotShaped, OneOfsOnce;
    var more := true;
    ghost var done := 0;
    while more
      invariant iter.Valid() && iter.fields == fields && done <= |fields|
      invariant if more then iter.pos == done < |fields| else done == |fields|
      invariant Moved(sizing, maxSize, w0, o0, stream.bytesWritten, stream.output, true, true, EncFields(fields, slots, done))
      invariant stream.errmsg == old(stream.errmsg) || stream.errmsg == NoError
      invariant forall j :: 0 <= j < done ==> SlotFits(fields[j], slots[j])
      decreases |fields| - done
    {
      ghost var before, bs := EncFields(fields, slots, done), EncField(fields[done], slots[done]);
      ghost var w1, o1, fits := stream.bytesWritten, stream.output, SlotFits(fields[done], slots[done]);
      StillValid(sizing, maxSize, w0, o0, w1, o1, true, true, before);
      ok := EncodeField(stream, fields[iter.pos], slots[iter.pos]);
      Then(sizing, maxSize, w0, o0, w1, o1, stream.bytesWritten, stream.output, before, ok, fits, bs);
      FieldsStep(fields, slots, done);
      if !ok {
        FailsLonger(sizing, maxSize, w0, o0, stream.bytesWritten, stream.output, fits, before + bs,
                    Fits(fields, slots), Enc(fields, slots));
        return;
      }
      AllOk(sizing, maxSize, w0, o0, stream.bytesWritten, stream.output, fits, before + bs);
      done := done + 1;
      more := iter.Next();
    }
    return true;
  }

  lemma FieldsStep(fields: seq<Field>, slots: seq<Slot>, n: nat)
    requires Shaped(fields, slots) && n < |fields|
    ensures EncFields(fields, slots, n + 1) == EncFields(fields, slots, n) + EncField(fields[n], slots[n])
    ensures |EncFields(fields, slots, n + 1)| <= |Enc(fields, slots)|
  {
    FieldsGrow(fields, slots, n + 1, |fields|);
  }

  // pb_encode_submessage: a sizing pass, then the size, then the message itself.  The second pass
  // writes as many bytes as the first counted, so "submsg size changed" is never reported.
  method EncodeSubmessage(stream: OStream, fields: seq<Field>, slots: seq<Slot>) returns (ok: bool)
    requires stream.Valid() && Shaped(fields, slots)
    modifies stream
    ensures stream.Wrote(ok, Fits(fields, slots), Delimited(Enc(fields, slots)))
    decreases fields, 3
  {
    hide Enc, Fits, Shaped, Varint;
    ghost var bs, fits := Enc(fields, slots), Fits(fields, slots);
    ghost var sizing, maxSize, w0, o0 := stream.sizing, stream.maxSize, stream.bytesWritten, stream.output;
    var sizestream := new OStream(true, 0, []);
    ok := Encode(sizestream, fields, slots);
    if !ok {
      stream.errmsg := sizestream.errmsg;
      return;
    }
    var size := sizestream.bytesWritten;
    ok := stream.EncodeVarint(size);
    ghost var w1, o1 := stream.bytesWritten, stream.output;
    if !ok {
      FailsLonger(sizing, maxSize, w0, o0, w1, o1, true, Varint(size), fits, Delimited(bs));
      return;
    }
    if stream.sizing {
      stream.Count(size);
      Then(sizing, maxSize, w0, o0, w1, o1, stream.bytesWritten, stream.output, Varint(size), true, fits, bs);
      return;
    }
    if stream.bytesWritten + size > stream.maxSize {
      stream.errmsg := StreamFull;
      return false;
    }
    var substream := new OStream(false, size, stream.output);
    ok := Encode(substream, fields, slots);
    stream.bytesWritten := stream.bytesWritten + substream.bytesWritten;
    stream.output := substream.output;
    stream.errmsg := substream.errmsg;
    assert substream.bytesWritten == size;
    Then(sizing, maxSize, w0, o0, w1, o1, stream.bytesWritten, stream.output, Varint(size), true, fits, bs);
  }

  // pb_get_encoded_size: what a sizing stream counts is what is written.
  method GetEncodedSize(fields: seq<Field>, slots: seq<Slot>) returns (size: Option<nat>)
    requires Shaped(fields, slots)
    ensures size == if Fits(fields, slots) then Some(|Enc(fields, slots)|) else None
  {
    var stream := new OStream(true, 0, []);
    var ok := Encode(stream, fields, slots);
    size := if ok then Some(stream.bytesWritten) else None;
  }
}
