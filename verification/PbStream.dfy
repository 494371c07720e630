/**
  nanopb's decoder as it runs: input streams, substreams, and the loops of pb_decode.c.  Each
  method returns what the functions of module PbDecode say and leaves the stream where they say.
 */
module PbStream {
  import opened Wrappers
  import opened Bytes
  import opened PbWire
  import opened PbFields
  import opened PbEncode
  import opened PbDecode

  // pb_istream_t over a buffer: `data` are the bytes from `state` on.
  class IStream {
    var data: seq<byte>
    var bytesLeft: nat

    predicate Valid()
      reads this
    {
      bytesLeft <= |data|
    }

    // The bytes this stream may read, and those behind them that belong to an enclosing stream.
    function Visible(): (bs: seq<byte>)
      requires Valid()
      reads this
      ensures |bs| == bytesLeft
    {
      data[..bytesLeft]
    }

    function Beyond(): seq<byte>
      requires Valid()
      reads this
    {
      data[bytesLeft..]
    }

    constructor (data: seq<byte>, bytesLeft: nat)
      requires bytesLeft <= |data|
      ensures this.data == data && this.bytesLeft == bytesLeft && Valid()
    {
      this.data, this.bytesLeft := data, bytesLeft;
    }

    // The stream stands in front of `rest`, and what lies behind it is untouched.
    twostate predicate MovedTo(new rest: seq<byte>)
      requires old(Valid())
      reads this
    {
      Valid() && Visible() == rest && Beyond() == old(Beyond())
    }

    // The result of a decoder that is specified by p.
    twostate predicate Gave<T>(new r: Option<T>, new p: Parsed<T>)
      requires old(Valid())
      reads this
    {
      match p
      case Fail => r.None?
      case Parsed(v, rest) => r == Some(v) && MovedTo(rest)
    }

    // pb_readbyte
    method ReadByte() returns (r: Option<byte>)
      requires Valid()
      modifies this
      ensures if old(bytesLeft) == 0 then r.None? else r == Some(old(Visible())[0]) && MovedTo(old(Visible())[1..])
    {
      if bytesLeft == 0 {
        return None;
      }
      r := Some(data[0]);
      data, bytesLeft := data[1..], bytesLeft - 1;
    }

    // pb_read
    method Read(count: nat) returns (r: Option<seq<byte>>)
      requires Valid()
      modifies this
      ensures if old(bytesLeft) < count then r.None?
              else r == Some(old(Visible())[..count]) && MovedTo(old(Visible())[count..])
    {
      if bytesLeft < count {
        return None;
      }
      assert data[..count] == Visible()[..count];
      assert data[count..][..bytesLeft - count] == Visible()[count..];
      assert data[count..][bytesLeft - count..] == Beyond();
      r := Some(data[..count]);
      data, bytesLeft := data[count..], bytesLeft - count;
    }

    // pb_decode_varint
    method DecodeVarint() returns (r: Option<nat>)
      requires Valid()
      modifies this
      ensures Gave(r, PbWire.DecodeVarint(old(Visible())))
    {
      hide Pow2, Shl, Low7;
      var bitpos: nat, result: nat := 0, 0;
      while true
        invariant Valid() && Beyond() == old(Beyond())
        invariant PbWire.DecodeVarint(old(Visible())) == DecodeVarintFrom(Visible(), bitpos, result)
        decreases bytesLeft
      {
        if bitpos >= 64 {
          return None;
        }
        var b := ReadByte();
        if b.None? {
          return None;
        }
        result := (result + Shl(Low7(b.value as nat), bitpos)) % U64;
        bitpos := bitpos + 7;
        if b.value < 128 {
          return Some(result);
        }
      }
    }

    // pb_decode_varint32
    method DecodeVarint32() returns (r: Option<nat>)
      requires Valid()
      modifies this
      ensures Gave(r, PbWire.DecodeVarint32(old(Visible())))
    {
      hide Pow2, Shl, Low7;
      var b := ReadByte();
      if b.None? {
        return None;
      }
      if b.value < 128 {
        return Some(b.value as nat);
      }
      var bitpos: nat, result: nat := 7, Low7(b.value as nat);
      while true
        invariant Valid() && Beyond() == old(Beyond()) && result < U32
        invariant PbWire.DecodeVarint32(old(Visible())) == DecodeVarint32From(Visible(), bitpos, result)
        decreases bytesLeft
      {
        b := ReadByte();
        if b.None? {
          return None;
        }
        var group := Low7(b.value as nat);
        if bitpos >= 32 {
          var signExtension := if bitpos < 63 then 0xFF else 0x01;
          if group != 0 && (result < 0x8000_0000 || b.value != signExtension) {
            return None;
          }
        } else {
          result := (result + Shl(group, bitpos)) % U32;
        }
        bitpos := bitpos + 7;
        if b.value < 128 {
          if bitpos == 35 && b.value >= 16 {
            return None;
          }
          return Some(result);
        }
      }
    }

    // pb_make_string_substream
    method MakeSubstream() returns (sub: IStream?)
      requires Valid()
      modifies this
      ensures match DecodeDelimited(old(Visible()))
              case Fail => sub == null
              case Parsed(part, rest) =>
                && sub != null && fresh(sub) && sub.Valid() && sub.Visible() == part
                && sub.Beyond() == rest + old(Beyond()) && bytesLeft == |rest|
    {
      var size := DecodeVarint32();
      if size.None? || bytesLeft < size.value {
        return null;
      }
      sub := new IStream(data, size.value);
      bytesLeft := bytesLeft - size.value;
    }

    // pb_close_string_substream
    method CloseSubstream(sub: IStream)
      requires sub != this && sub.Valid() && bytesLeft <= |sub.Beyond()|
      modifies this, sub
      ensures Valid() && data == old(sub.Beyond()) && bytesLeft == old(bytesLeft)
    {
      if sub.bytesLeft > 0 {
        var _ := sub.Read(sub.bytesLeft);
      }
      data := sub.data;
    }

    // pb_decode_fixed32, pb_decode_fixed64
    method DecodeFixed(size: nat) returns (r: Option<nat>)
      requires Valid() && size > 0
      modifies this
      ensures Gave(r, PbWire.DecodeFixed(old(Visible()), size))
    {
      var bytes := Read(size);
      if bytes.None? {
        return None;
      }
      r := Some(FromLittleEndian(bytes.value));
    }

    // pb_skip_varint
    method SkipVarint() returns (r: Option<()>)
      requires Valid()
      modifies this
      ensures Gave(r, PbDecode.SkipVarint(old(Visible())))
    {
      while true
        invariant Valid() && Beyond() == old(Beyond())
        invariant PbDecode.SkipVarint(old(Visible())) == PbDecode.SkipVarint(Visible())
        decreases bytesLeft
      {
        var b := ReadByte();
        if b.None? {
          return None;
        }
        if b.value < 128 {
          return Some(());
        }
      }
    }

    // pb_skip_field, with pb_skip_string
    method SkipField(wt: nat) returns (r: Option<()>)
      requires Valid()
      modifies this
      ensures Gave(r, PbDecode.SkipField(wt, old(Visible())))
    {
      hide PbWire.DecodeVarint32, PbDecode.SkipVarint;
      var bytes: Option<seq<byte>>;
      if wt == WT_VARINT {
        r := SkipVarint();
        return;
      } else if wt == WT_64BIT {
        bytes := Read(8);
      } else if wt == WT_STRING {
        var length := DecodeVarint32();
        if length.None? {
          return None;
        }
        bytes := Read(length.value);
      } else if wt == WT_32BIT {
        bytes := Read(4);
      } else {
        return None;
      }
      r := if bytes.None? then None else Some(());
    }

    // The scalar decoders.
    method DecodeScalar(lt: LType) returns (r: Option<Value>)
      requires Valid() && Packable(lt)
      modifies this
      ensures Gave(r, PbDecode.DecodeScalar(lt, old(Visible())))
    {
      hide PbWire.DecodeVarint32, PbWire.DecodeVarint, PbWire.DecodeFixed, Signed, Unzigzag, FitsSigned, Pow2;
      if lt.TBool? {
        var n := DecodeVarint32();
        return if n.None? then None else Some(VBool(n.value != 0));
      }
      if lt.TFixed32? || lt.TFixed64? {
        var n := DecodeFixed(if lt.TFixed32? then 4 else 8);
        return if n.None? then None else Some(VInt(n.value));
      }
      var n := DecodeVarint();
      if n.None? {
        return None;
      }
      if lt.TUvarint? {
        return if n.value < Pow2(lt.bits) then Some(VInt(n.value)) else None;
      }
      var v := if lt.TSvarint? then Unzigzag(n.value) else Signed(n.value, if lt.bits == 64 then 64 else 32);
      return if lt.bits > 0 && FitsSigned(v, lt.bits) then Some(VInt(v)) else None;
    }

    // The length and the bytes of a string.
    method ReadDelimited(max: nat) returns (r: Option<seq<byte>>)
      requires Valid()
      modifies this
      ensures var p := DecodeDelimited(old(Visible()));
              if p.Parsed? && |p.value| <= max then r == Some(p.value) && MovedTo(p.rest) else r.None?
    {
      hide PbWire.DecodeVarint32;
      var size := DecodeVarint32();
      if size.None? || size.value > max {
        return None;
      }
      r := Read(size.value);
    }
  }

  // The PB_DECODERS function of a type.
  method DecodeValue(stream: IStream, lt: LType, current: Value, item: bool) returns (r: Option<Value>)
    requires stream.Valid() && ValidType(lt) && HasType(lt, current)
    modifies stream
    ensures stream.Gave(r, PbDecode.DecodeValue(lt, current, item, old(stream.Visible())))
    decreases stream.bytesLeft, 1
  {
    hide DecodeDelimited, PbDecode.DecodeScalar, DecodeMessage;
    match lt
    case TBytes(size) =>
      var bs := stream.ReadDelimited(if size >= BYTES_HEADER then size - BYTES_HEADER else 0);
      r := if bs.None? then None else Some(VBytes(bs.value));
    case TString(size) =>
      var bs := stream.ReadDelimited(if size < U32 - 1 then size - 1 else U32 - 2);
      r := if bs.None? then None else Some(VBytes(Terminated(bs.value)));
    case TFixedBytes(size) =>
      var bs := stream.ReadDelimited(size);
      if bs.None? {
        return None;
      }
      // An empty string stands for all zeros.
      r := if bs.value == [] then Some(VBytes(Zeros(size))) else if |bs.value| == size then Some(VBytes(bs.value)) else None;
    case TMessage(fields) => r := DecodeSubmessage(stream, fields, current, item);
    case _ => r := stream.DecodeScalar(lt);
  }

  // pb_dec_submessage.  After a failure the streams are not used again.
  method DecodeSubmessage(stream: IStream, fields: seq<Field>, current: Value, item: bool) returns (r: Option<Value>)
    requires stream.Valid() && ValidFields(fields) && HasType(TMessage(fields), current)
    modifies stream
    ensures stream.Gave(r, PbDecode.DecodeValue(TMessage(fields), current, item, old(stream.Visible())))
    decreases stream.bytesLeft, 0
  {
    hide DecodeDelimited, DecodeMessage, Shaped, ValidFields;
    var sub := stream.MakeSubstream();
    if sub == null {
      return None;
    }
    DefaultsShaped(fields);
    var slots := DecodeNoInit(sub, fields, if item then Defaults(fields) else current.slots);
    if slots.None? {
      return None;
    }
    stream.CloseSubstream(sub);
    r := Some(VMessage(slots.value));
  }

  // The loop over a packed array.
  method DecodeItems(sub: IStream, lt: LType, items: seq<Value>, max: nat) returns (r: Option<seq<Value>>)
    requires sub.Valid() && Packable(lt) && AllTyped(lt, items)
    modifies sub
    ensures r == DecodePacked(lt, items, max, old(sub.Visible()))
    ensures r.Some? ==> sub.MovedTo([])
  {
    hide PbDecode.DecodeScalar, Packable, HasType;
    var all := items;
    while sub.bytesLeft > 0 && |all| < max
      invariant sub.Valid() && sub.Beyond() == old(sub.Beyond()) && AllTyped(lt, all)
      invariant DecodePacked(lt, items, max, old(sub.Visible())) == DecodePacked(lt, all, max, sub.Visible())
      decreases sub.bytesLeft
    {
      DecodeScalarTyped(lt, sub.Visible());
      var v := sub.DecodeScalar(lt);
      if v.None? {
        return None;
      }
      all := all + [v.value];
    }
    if sub.bytesLeft != 0 {
      return None;
    }
    r := Some(all);
  }

  // The packed branch of decode_static_field.
  method DecodePackedField(stream: IStream, lt: LType, items: seq<Value>, max: nat) returns (r: Option<seq<Value>>)
    requires stream.Valid() && Packable(lt) && AllTyped(lt, items)
    modifies stream
    ensures stream.Gave(r, DecodePackedArray(lt, items, max, old(stream.Visible())))
  {
    hide DecodeDelimited, DecodePacked, Packable, HasType;
    var sub := stream.MakeSubstream();
    if sub == null {
      return None;
    }
    r := DecodeItems(sub, lt, items, max);
    if r.None? {
      return None;
    }
    stream.CloseSubstream(sub);
  }

  // decode_static_field
  method DecodeStaticField(stream: IStream, fields: seq<Field>, slots: seq<Slot>, n: nat, wt: nat) returns (r: Option<seq<Slot>>)
    requires stream.Valid() && ValidFields(fields) && Shaped(fields, slots) && n < |fields|
    modifies stream
    ensures stream.Gave(r, DecodeField(fields, slots, n, wt, old(stream.Visible())))
    decreases stream.bytesLeft, 2
  {
    var f, s := fields[n], slots[n];
    assert ValidField(f) && SlotShaped(f, s);
    DefaultTyped(f);
    hide HasType, OneOfsOnce, ValidType, PbDecode.DecodeValue, DecodePackedArray, SetOneOf, Packable, DefaultValue;
    var v: Option<Value>;
    match f.rule
    case Required =>
      v := DecodeValue(stream, f.ltype, s.value, false);
      r := if v.None? then None else Some(slots[n := One(v.value)]);
    case Singular =>
      v := DecodeValue(stream, f.ltype, s.value, false);
      r := if v.None? then None else Some(slots[n := One(v.value)]);
    case Optional =>
      v := DecodeValue(stream, f.ltype, if s.option.Some? then s.option.value else DefaultValue(f.ltype), false);
      r := if v.None? then None else Some(slots[n := Maybe(Some(v.value))]);
    case OneOf(_) =>
      v := DecodeValue(stream, f.ltype, DefaultValue(f.ltype), false);
      r := if v.None? then None else Some(SetOneOf(fields, slots, n, v.value));
    case Repeated(max) =>
      if wt == WT_STRING && Packable(f.ltype) {
        var items := DecodePackedField(stream, f.ltype, s.items, max);
        r := if items.None? then None else Some(slots[n := Many(items.value)]);
      } else if |s.items| >= max {
        r := None;
      } else {
        v := DecodeValue(stream, f.ltype, DefaultValue(f.ltype), true);
        r := if v.None? then None else Some(slots[n := Many(s.items + [v.value])]);
      }
  }

  // pb_decode_noinit
  method DecodeNoInit(stream: IStream, fields: seq<Field>, start: seq<Slot>) returns (r: Option<seq<Slot>>)
    requires stream.Valid() && ValidFields(fields) && Shaped(fields, start)
    modifies stream
    ensures stream.Gave(r, DecodeMessage(fields, start, old(stream.Visible())))
    decreases stream.bytesLeft, 4
  {
    hide PbWire.DecodeVarint32, DecodeField, PbDecode.SkipField, Shaped, ValidFields, CountRequired;
    var iter := new FieldIter(fields);
    var slots, seen := start, {};
    var end := false;
    while stream.bytesLeft > 0 && !end
      invariant stream.Valid() && stream.Beyond() == old(stream.Beyond()) && stream.bytesLeft <= old(stream.bytesLeft)
      invariant iter.Valid() && iter.fields == fields && Shaped(fields, slots)
      invariant if end then DecodeFrom(fields, start, {}, old(stream.Visible())) == Parsed((slots, seen), stream.Visible())
                else DecodeFrom(fields, start, {}, old(stream.Visible())) == DecodeFrom(fields, slots, seen, stream.Visible())
      decreases stream.bytesLeft, !end
    {
      var t := stream.DecodeVarint32();
      if t.None? {
        return None;
      }
      if t.value == 0 {
        end := true;
      } else {
        var found := iter.Find(t.value / 8);
        if found {
          OnlyField(fields, iter.pos);
          assert HasTag(fields, iter.pos, t.value / 8);
          if fields[iter.pos].rule.Required? && iter.requiredFieldIndex < MAX_REQUIRED_FIELDS {
            seen := seen + {iter.requiredFieldIndex};
          }
          var field := DecodeStaticField(stream, fields, slots, iter.pos, t.value % 8);
          if field.None? {
            return None;
          }
          slots := field.value;
        } else {
          assert forall n :: !HasTag(fields, n, t.value / 8);
          var skipped := stream.SkipField(t.value % 8);
          if skipped.None? {
            return None;
          }
        }
      }
    }
    var count := iter.RequiredCount();
    if forall i :: 0 <= i < count && i < MAX_REQUIRED_FIELDS ==> i in seen {
      r := Some(slots);
    } else {
      r := None;
    }
  }

  // pb_decode
  method DecodeBuffer(buffer: seq<byte>, fields: seq<Field>) returns (r: Option<seq<Slot>>)
    requires ValidFields(fields)
    ensures match Decode(fields, buffer)
            case Fail => r.None?
            case Parsed(slots, _) => r == Some(slots)
  {
    DefaultsShaped(fields);
    var stream := new IStream(buffer, |buffer|);
    assert stream.Visible() == buffer;
    r := DecodeNoInit(stream, fields, Defaults(fields));
  }
}
