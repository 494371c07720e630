/**
  nanopb's scalar wire formats: what the decoders of pb_decode.c accept, as functions of the bytes
  left in the stream, and that they undo the encoders of pb_encode.c.
 */
module PbWire {
  import opened Wrappers
  import opened Bytes

  datatype Parsed<+T> = Fail | Parsed(value: T, rest: seq<byte>)

  // ---- pb_decode_varint ----

  // `result` holds the bits below bitpos.  Groups never overlap, so `|=` is addition; the
  // shift drops what does not fit 64 bits.
  function DecodeVarintFrom(bs: seq<byte>, bitpos: nat, result: nat): (p: Parsed<nat>)
    ensures p.Parsed? ==> |p.rest| < |bs|
    decreases |bs|
  {
    if bitpos >= 64 || bs == [] then Fail
    else
      var r := (result + Shl(Low7(bs[0] as nat), bitpos)) % U64;
      if bs[0] >= 128 then DecodeVarintFrom(bs[1..], bitpos + 7, r) else Parsed(r, bs[1..])
  }

  function DecodeVarint(bs: seq<byte>): (p: Parsed<nat>)
    ensures p.Parsed? ==> |p.rest| < |bs|
  {
    DecodeVarintFrom(bs, 0, 0)
  }

  lemma LastGroup(n: nat, tail: seq<byte>, bitpos: nat, result: nat)
    requires bitpos < 64 && result + Shl(n, bitpos) < U64 && n < 128
    ensures DecodeVarintFrom(Varint(n) + tail, bitpos, result) == Parsed(result + Shl(n, bitpos), tail)
  {
    VarintHead(n, tail);
    hide Shl, Varint;
  }

  lemma OneGroup(n: nat, tail: seq<byte>, bitpos: nat, result: nat)
    requires bitpos < 64 && result + Shl(Low7(n), bitpos) < U64 && n >= 128
    ensures DecodeVarintFrom(Varint(n) + tail, bitpos, result) ==
              DecodeVarintFrom(Varint(High(n)) + tail, bitpos + 7, result + Shl(Low7(n), bitpos))
  {
    VarintHead(n, tail);
    Low7OfMarked(n);
    hide Shl, Low7, High, Varint;
  }

  lemma {:induction false} VarintDecodesFrom(n: nat, tail: seq<byte>, bitpos: nat, result: nat)
    requires bitpos < 64 && result + Shl(n, bitpos) < U64
    ensures DecodeVarintFrom(Varint(n) + tail, bitpos, result) == Parsed(result + Shl(n, bitpos), tail)
    decreases n
  {
    NextGroup(n, bitpos);
    FitsNextGroup(n, bitpos);
    hide Shl, Low7, High, Varint, DecodeVarintFrom;
    if n < 128 {
      LastGroup(n, tail, bitpos, result);
    } else {
      OneGroup(n, tail, bitpos, result);
      VarintDecodesFrom(High(n), tail, bitpos + 7, result + Shl(Low7(n), bitpos));
    }
  }

  lemma FitsNextGroup(n: nat, bitpos: nat)
    requires Shl(n, bitpos) < U64
    ensures n >= 128 ==> bitpos + 7 < 64
  {
    NextGroup(n, bitpos);
    WordSizes();
    if bitpos + 7 >= 64 {
      Pow2Monotone(64, bitpos + 7);
    }
  }

  lemma VarintRoundTrip(n: nat, tail: seq<byte>)
    requires n < U64
    ensures DecodeVarint(Varint(n) + tail) == Parsed(n, tail)
  {
    ShlZero(n);
    VarintDecodesFrom(n, tail, 0, 0);
  }

  // ---- pb_decode_varint32 ----

  // After the first byte.  Bytes past bit 32 may only be padding, or the sign extension of a
  // negative number.
  function DecodeVarint32From(bs: seq<byte>, bitpos: nat, result: nat): (p: Parsed<nat>)
    requires result < U32
    ensures p.Parsed? ==> |p.rest| < |bs| && p.value < U32
    decreases |bs|
  {
    if bs == [] then Fail
    else
      var b := bs[0] as nat;
      if bitpos >= 32 && Low7(b) != 0 && (result < 0x8000_0000 || b != if bitpos < 63 then 0xFF else 0x01) then Fail
      else
        var r := if bitpos >= 32 then result else (result + Shl(Low7(b), bitpos)) % U32;
        if b >= 128 then DecodeVarint32From(bs[1..], bitpos + 7, r)
        else if bitpos == 28 && b >= 16 then Fail
        else Parsed(r, bs[1..])
  }

  function DecodeVarint32(bs: seq<byte>): (p: Parsed<nat>)
    ensures p.Parsed? ==> |p.rest| < |bs| && p.value < U32
  {
    if bs == [] then Fail
    else if bs[0] < 128 then Parsed(bs[0] as nat, bs[1..])
    else DecodeVarint32From(bs[1..], 7, Low7(bs[0] as nat))
  }

  lemma LastGroup32(n: nat, tail: seq<byte>, bitpos: nat, result: nat)
    requires bitpos <= 28 && result + Shl(n, bitpos) < U32 && n < 128 && (bitpos == 28 ==> n < 16)
    ensures DecodeVarint32From(Varint(n) + tail, bitpos, result) == Parsed(result + Shl(n, bitpos), tail)
  {
    VarintHead(n, tail);
    hide Shl, Varint;
  }

  lemma OneGroup32(n: nat, tail: seq<byte>, bitpos: nat, result: nat)
    requires bitpos <= 28 && result + Shl(Low7(n), bitpos) < U32 && n >= 128
    ensures DecodeVarint32From(Varint(n) + tail, bitpos, result) ==
              DecodeVarint32From(Varint(High(n)) + tail, bitpos + 7, result + Shl(Low7(n), bitpos))
  {
    VarintHead(n, tail);
    Low7OfMarked(n);
    hide Shl, Low7, High, Varint;
  }

  lemma {:induction false} Varint32DecodesFrom(n: nat, tail: seq<byte>, bitpos: nat, result: nat)
    requires bitpos <= 28 && bitpos % 7 == 0 && result + Shl(n, bitpos) < U32
    ensures DecodeVarint32From(Varint(n) + tail, bitpos, result) == Parsed(result + Shl(n, bitpos), tail)
    decreases n
  {
    NextGroup(n, bitpos);
    FitsNextGroup32(n, bitpos);
    hide Shl, Low7, High, Varint, DecodeVarint32From;
    if n < 128 {
      LastGroup32(n, tail, bitpos, result);
    } else {
      OneGroup32(n, tail, bitpos, result);
      Varint32DecodesFrom(High(n), tail, bitpos + 7, result + Shl(Low7(n), bitpos));
    }
  }

  lemma FitsNextGroup32(n: nat, bitpos: nat)
    requires Shl(n, bitpos) < U32 && bitpos <= 28 && bitpos % 7 == 0
    ensures n >= 128 ==> bitpos + 7 <= 28
    ensures bitpos == 28 ==> n < 16
  {
    NextGroup(n, bitpos);
    WordSizes();
    if bitpos + 7 >= 32 {
      Pow2Monotone(32, bitpos + 7);
    }
  }

  lemma Varint32RoundTrip(n: nat, tail: seq<byte>)
    requires n < U32
    ensures DecodeVarint32(Varint(n) + tail) == Parsed(n, tail)
  {
    var bs := Varint(n) + tail;
    WordSizes();
    Low7OfMarked(n);
    ShlZero(n);
    NextGroup(n, 0);
    VarintHead(n, tail);
    hide Pow2, Shl, Low7, High, Varint, DecodeVarint32From;
    if n >= 128 {
      Varint32DecodesFrom(High(n), tail, 7, Low7(n));
    }
  }

  // ---- Signed numbers ----

  // The value of the low `bits` bits as a two's complement number.
  function Signed(v: nat, bits: nat): (r: int)
    requires bits > 0
    ensures 0 - Pow2(bits - 1) <= r < Pow2(bits - 1)
  {
    var m := v % Pow2(bits);
    assert Pow2(bits) == 2 * Pow2(bits - 1);
    if m < Pow2(bits - 1) then m else m - Pow2(bits)
  }

  predicate FitsSigned(v: int, bits: nat)
    requires bits > 0
  {
    0 - Pow2(bits - 1) <= v < Pow2(bits - 1)
  }

  // A conversion to uint64_t.
  function Unsigned64(v: int): (r: nat)
    ensures r < U64
  {
    v % U64
  }

  lemma SignedRoundTrip(v: int)
    requires FitsSigned(v, 64)
    ensures Signed(Unsigned64(v), 64) == v
    ensures FitsSigned(v, 32) ==> Signed(Unsigned64(v), 32) == v
  {
    WordSizes();
    assert Pow2(63) * 2 == U64 && Pow2(31) * 2 == U32;
    if v < 0 {
      assert Unsigned64(v) == v + U64;
    }
    if FitsSigned(v, 32) && v < 0 {
      assert v + U64 == (v + U32) + U32 * (U32 - 1);
      assert (v + U64) % U32 == v + U32;
    }
  }

  // pb_encode_svarint
  function Zigzag(v: int): (r: nat) {
    if v < 0 then -2 * v - 1 else 2 * v
  }

  // pb_decode_svarint
  function Unzigzag(z: nat): (v: int) {
    if z % 2 == 1 then -1 - z / 2 else z / 2
  }

  lemma ZigzagRoundTrip(v: int)
    requires FitsSigned(v, 64)
    ensures Zigzag(v) < U64 && Unzigzag(Zigzag(v)) == v
  {
    WordSizes();
  }

  // ---- Fixed-size words ----

  function DecodeFixed(bs: seq<byte>, size: nat): (p: Parsed<nat>)
    requires size > 0
    ensures p.Parsed? ==> |p.rest| < |bs|
  {
    if |bs| < size then Fail else Parsed(FromLittleEndian(bs[..size]), bs[size..])
  }

  lemma FixedRoundTrip(v: nat, size: nat, tail: seq<byte>)
    requires size > 0 && v < Pow2(8 * size)
    ensures DecodeFixed(LittleEndian(v, size) + tail, size) == Parsed(v, tail)
  {
    LittleEndianRoundTrip(v, size);
    assert (LittleEndian(v, size) + tail)[..size] == LittleEndian(v, size);
  }
}
