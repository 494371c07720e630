/**
  util/coding.cc: varints, fixed-width words and length-prefixed strings, and that the readers undo
  the writers.
 */
module Coding {
  import opened Wrappers
  import opened Bytes

  datatype Input<+T> = Bad | Got(value: T, rest: seq<byte>)

  // ---- Varints ----

  // EncodeVarint32: one branch for each length.
  method EncodeVarint32(v: nat) returns (bs: seq<byte>)
    requires v < U32
    ensures bs == Varint(v)
  {
    FiveGroups(v);
    var g1 := v / 128;
    var g2, g3, g4 := g1 / 128, g1 / 128 / 128, g1 / 128 / 128 / 128;
    if v < 0x80 {
      bs := [v as byte];
    } else if v < 0x4000 {
      bs := [Marked(v), g1 as byte];
    } else if v < 0x20_0000 {
      bs := [Marked(v), Marked(g1), g2 as byte];
    } else if v < 0x1000_0000 {
      bs := [Marked(v), Marked(g1), Marked(g2), g3 as byte];
    } else {
      bs := [Marked(v), Marked(g1), Marked(g2), Marked(g3), g4 as byte];
    }
  }

  // The low seven bits with the top bit set.
  function Marked(v: nat): byte {
    (v % 128 + 128) as byte
  }

  lemma FiveGroups(v: nat)
    requires v < U32
    ensures var g1 := v / 128; var g2, g3, g4 := g1 / 128, g1 / 128 / 128, g1 / 128 / 128 / 128;
      && (v < 0x4000 <==> g1 < 128) && (v < 0x20_0000 <==> g2 < 128) && (v < 0x1000_0000 <==> g3 < 128) && g4 < 16
      && Varint(v) == if v < 0x80 then [v as byte] else if v < 0x4000 then [Marked(v), g1 as byte]
                      else if v < 0x20_0000 then [Marked(v), Marked(g1), g2 as byte]
                      else if v < 0x1000_0000 then [Marked(v), Marked(g1), Marked(g2), g3 as byte]
                      else [Marked(v), Marked(g1), Marked(g2), Marked(g3), g4 as byte]
  {
    OneMoreGroup(v);
    OneMoreGroup(v / 128);
    OneMoreGroup(v / 128 / 128);
    OneMoreGroup(v / 128 / 128 / 128);
    OneMoreGroup(v / 128 / 128 / 128 / 128);
    hide Varint;
  }

  lemma OneMoreGroup(v: nat)
    ensures Varint(v) == if v < 128 then [v as byte] else [Marked(v)] + Varint(v / 128)
  {
  }

  // EncodeVarint64
  method EncodeVarint64(v: nat) returns (bs: seq<byte>)
    ensures bs == Varint(v)
  {
    bs := [];
    var rest := v;
    while rest >= 128
      invariant bs + Varint(rest) == Varint(v)
      decreases rest
    {
      OneMoreGroup(rest);
      bs := bs + [Marked(rest)];
      rest := rest / 128;
    }
    bs := bs + [rest as byte];
  }

  // The loop of GetVarint32PtrFallback and GetVarint64Ptr, on words of `limit` bits.
  function GetVarintFrom(bs: seq<byte>, shift: nat, result: nat, limit: nat): (r: Input<nat>)
    requires result < Pow2(limit)
    ensures r.Got? ==> |r.rest| < |bs| && r.value < Pow2(limit)
    decreases |bs|
  {
    if shift >= limit || bs == [] then Bad
    else
      var v := (result + Shl(Low7(bs[0] as nat), shift)) % Pow2(limit);
      if bs[0] >= 128 then GetVarintFrom(bs[1..], shift + 7, v, limit) else Got(v, bs[1..])
  }

  // GetVarint32, with the one-byte case of coding.h
  function GetVarint32(bs: seq<byte>): (r: Input<nat>)
    ensures r.Got? ==> |r.rest| < |bs| && r.value < U32
  {
    WordSizes();
    if bs != [] && bs[0] < 128 then Got(bs[0] as nat, bs[1..]) else GetVarintFrom(bs, 0, 0, 32)
  }

  function GetVarint64(bs: seq<byte>): (r: Input<nat>)
    ensures r.Got? ==> |r.rest| < |bs| && r.value < U64
  {
    WordSizes();
    GetVarintFrom(bs, 0, 0, 64)
  }

  lemma LastGroup(n: nat, tail: seq<byte>, shift: nat, result: nat, limit: nat)
    requires shift < limit && result + Shl(n, shift) < Pow2(limit) && n < 128
    ensures GetVarintFrom(Varint(n) + tail, shift, result, limit) == Got(result + Shl(n, shift), tail)
  {
    VarintHead(n, tail);
    SmallMod(result + Shl(n, shift), Pow2(limit));
    hide Shl, Varint, Pow2;
  }

  lemma SmallMod(a: nat, b: nat)
    requires a < b
    ensures a % b == a
  {
  }

  lemma OneGroup(n: nat, tail: seq<byte>, shift: nat, result: nat, limit: nat)
    requires shift < limit && result + Shl(Low7(n), shift) < Pow2(limit) && n >= 128
    ensures GetVarintFrom(Varint(n) + tail, shift, result, limit) ==
              GetVarintFrom(Varint(High(n)) + tail, shift + 7, result + Shl(Low7(n), shift), limit)
  {
    VarintHead(n, tail);
    Low7OfMarked(n);
    SmallMod(result + Shl(Low7(n), shift), Pow2(limit));
    hide Shl, Low7, High, Varint, Pow2;
  }

  lemma {:induction false} VarintIsRead(n: nat, tail: seq<byte>, shift: nat, result: nat, limit: nat)
    requires shift < limit && result + Shl(n, shift) < Pow2(limit)
    ensures GetVarintFrom(Varint(n) + tail, shift, result, limit) == Got(result + Shl(n, shift), tail)
    decreases n
  {
    NextGroup(n, shift);
    if shift + 7 >= limit {
      Pow2Monotone(limit, shift + 7);
    }
    hide Shl, Low7, High, Varint, GetVarintFrom, Pow2;
    if n < 128 {
      LastGroup(n, tail, shift, result, limit);
    } else {
      OneGroup(n, tail, shift, result, limit);
      VarintIsRead(High(n), tail, shift + 7, result + Shl(Low7(n), shift), limit);
    }
  }

  lemma Varint32RoundTrip(n: nat, tail: seq<byte>)
    requires n < U32
    ensures GetVarint32(Varint(n) + tail) == Got(n, tail)
  {
    hide GetVarintFrom, Varint, Pow2, Shl;
    VarintHead(n, tail);
    WordSizes();
    ShlZero(n);
    VarintIsRead(n, tail, 0, 0, 32);
  }

  lemma Varint64RoundTrip(n: nat, tail: seq<byte>)
    requires n < U64
    ensures GetVarint64(Varint(n) + tail) == Got(n, tail)
  {
    hide GetVarintFrom, Varint, Pow2, Shl;
    WordSizes();
    ShlZero(n);
    VarintIsRead(n, tail, 0, 0, 64);
  }

  // ---- Length-prefixed strings ----

  function LengthPrefixed(s: seq<byte>): seq<byte> {
    Varint(|s|) + s
  }

  function GetLengthPrefixed(bs: seq<byte>): (r: Input<seq<byte>>)
    ensures r.Got? ==> |r.rest| < |bs|
  {
    var n := GetVarint32(bs);
    if n.Bad? || |n.rest| < n.value then Bad else Got(n.rest[..n.value], n.rest[n.value..])
  }

  lemma LengthPrefixedRoundTrip(s: seq<byte>, tail: seq<byte>)
    requires |s| < U32
    ensures GetLengthPrefixed(LengthPrefixed(s) + tail) == Got(s, tail)
  {
    hide GetVarint32, Varint;
    Regroup(Varint(|s|), s, tail);
    Varint32RoundTrip(|s|, s + tail);
  }

  // ---- Fixed-width words ----

  function Fixed32(v: nat): (bs: seq<byte>)
    ensures |bs| == 4
  {
    LittleEndian(v, 4)
  }

  function DecodeFixed32(bs: seq<byte>): nat
    requires |bs| >= 4
  {
    FromLittleEndian(bs[..4])
  }

  lemma Fixed32RoundTrip(v: nat, tail: seq<byte>)
    requires v < U32
    ensures DecodeFixed32(Fixed32(v) + tail) == v
  {
    WordSizes();
    LittleEndianRoundTrip(v, 4);
    assert (Fixed32(v) + tail)[..4] == Fixed32(v);
  }
}
