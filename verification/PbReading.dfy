/**
  The decoder against the wire format: on every input, not only on what the encoder writes, numbers, payloads
  and skipped fields are read as module PbFormat reads them.
 */
module PbReading {
  import opened Wrappers
  import opened Bytes
  import opened PbWire
  import opened PbFields
  import opened PbEncode
  import opened PbDecode
  import opened PbFormat

  // ---- Numbers ----

  lemma AddModulo(a: nat, b: nat, m: nat)
    requires m > 0
    ensures (a % m + b) % m == (a + b) % m
  {
    var q, q', r := a / m, (a % m + b) / m, (a % m + b) % m;
    MultiplySum(q, q', m);
    assert a + b == (q + q') * m + r;
    DivideUnique(a + b, m, q + q', r);
  }

  lemma GroupsJoin(low: nat, high: nat, bitpos: nat)
    requires low < 128
    ensures Shl(low, bitpos) + Shl(high, bitpos + 7) == Shl(low + 128 * high, bitpos)
  {
    NextGroup(low + 128 * high, bitpos);
    assert Low7(low + 128 * high) == low && High(low + 128 * high) == high;
    hide Shl;
  }

  // Once a number is decoded, what it is: the value of all its groups, in 64 bits.
  lemma {:induction false} VarintAgrees(bs: seq<byte>, bitpos: nat, result: nat)
    ensures var p, r := DecodeVarintFrom(bs, bitpos, result), ReadNumber(bs);
      && (p.Parsed? ==> r.Some? && p.rest == r.value.1 && p.value == (result + Shl(r.value.0, bitpos)) % U64)
      && (r.Some? ==> (p.Parsed? <==> bitpos + 7 * (|bs| - |r.value.1| - 1) < 64))
    decreases |bs|
  {
    hide Shl, Low7;
    if bs != [] && bitpos < 64 {
      FirstByte(bs[0], bitpos, result, U64);
      if bs[0] >= 128 {
        var r, next := ReadNumber(bs[1..]), (result + Shl(Low7(bs[0] as nat), bitpos)) % U64;
        VarintAgrees(bs[1..], bitpos + 7, next);
        if r.Some? {
          NextBytes(bs[0], bitpos, result, r.value.0, U64);
        }
      }
    }
  }

  lemma FirstByte(b: byte, bitpos: nat, result: nat, m: nat)
    requires m > 0
    ensures b < 128 ==> Low7(b as nat) == b as nat
  {
  }

  lemma NextBytes(b: byte, bitpos: nat, result: nat, n: nat, m: nat)
    requires b >= 128 && m > 0
    ensures ((result + Shl(Low7(b as nat), bitpos)) % m + Shl(n, bitpos + 7)) % m == (result + Shl(b as nat - 128 + 128 * n, bitpos)) % m
  {
    assert Low7(b as nat) == b as nat - 128;
    hide Low7, Shl;
    GroupsJoin(b as nat - 128, n, bitpos);
    AddModulo(result + Shl(b as nat - 128, bitpos), Shl(n, bitpos + 7), m);
  }

  lemma WholeVarint(bs: seq<byte>)
    ensures var p, r := DecodeVarint(bs), ReadNumber(bs);
      && (p.Parsed? ==> r.Some? && p.rest == r.value.1 && p.value == r.value.0 % U64)
      && (r.Some? ==> (p.Parsed? <==> |bs| - |r.value.1| <= 10))
  {
    VarintAgrees(bs, 0, 0);
    hide DecodeVarintFrom, Shl;
    if ReadNumber(bs).Some? {
      ShlZero(ReadNumber(bs).value.0);
    }
  }

  // Bits from 32 up do not matter to a 32-bit number.
  lemma HighBits(result: nat, n: nat, bitpos: nat)
    requires bitpos >= 32 && result < U32
    ensures (result + Shl(n, bitpos)) % U32 == result
    ensures result + Shl(n, bitpos) < U32 ==> n == 0
  {
    WordSizes();
    Pow2Add(bitpos - 32, 32);
    var k := n * Pow2(bitpos - 32);
    Associate(n, Pow2(bitpos - 32), U32);
    hide Pow2;
    assert Shl(n, bitpos) == k * U32;
    DivideUnique(result + Shl(n, bitpos), U32, k, result);
    if n > 0 {
      AtLeastOnce(n, Pow2(bitpos - 32));
      AtLeastOnce(k, U32);
    }
  }

  lemma Associate(a: nat, b: nat, c: nat)
    ensures a * (b * c) == (a * b) * c
  {
  }

  lemma {:induction false} Varint32Agrees(bs: seq<byte>, bitpos: nat, result: nat)
    requires result < U32
    ensures var p, r := DecodeVarint32From(bs, bitpos, result), ReadNumber(bs);
      && (p.Parsed? ==> r.Some? && p.rest == r.value.1 && p.value == (result + Shl(r.value.0, bitpos)) % U32)
      && (r.Some? && result + Shl(r.value.0, bitpos) < U32 ==> p.Parsed?)
    decreases |bs|
  {
    hide Shl, Low7;
    if bs != [] {
      FirstByte(bs[0], bitpos, result, U32);
      var next := if bitpos >= 32 then result else (result + Shl(Low7(bs[0] as nat), bitpos)) % U32;
      var r := ReadNumber(bs[1..]);
      if bs[0] >= 128 {
        Varint32Agrees(bs[1..], bitpos + 7, next);
      }
      if ReadNumber(bs).Some? {
        NextBytes32(bs[0], bitpos, result, if bs[0] >= 128 then r.value.0 else 0);
      }
    }
  }

  lemma NextBytes32(b: byte, bitpos: nat, result: nat, n: nat)
    requires result < U32 && (b < 128 ==> n == 0)
    ensures var next := if bitpos >= 32 then result else (result + Shl(Low7(b as nat), bitpos)) % U32;
      var all := if b < 128 then b as nat else b as nat - 128 + 128 * n;
      && (next + Shl(n, bitpos + 7)) % U32 == (result + Shl(all, bitpos)) % U32
      && (result + Shl(all, bitpos) < U32 ==>
            && next + Shl(n, bitpos + 7) < U32
            && (bitpos >= 32 ==> Low7(b as nat) == 0)
            && (bitpos == 28 && b < 128 ==> b < 16))
      && (b < 128 ==> Shl(n, bitpos + 7) == 0)
  {
    hide Shl, Low7;
    var low := Low7(b as nat);
    var all := if b < 128 then b as nat else b as nat - 128 + 128 * n;
    LowAndRest(b, n);
    NoneIsZero(bitpos + 7);
    GroupsJoin(low, n, bitpos);
    assert all == low + 128 * n;
    if bitpos >= 32 {
      HighBits(result, all, bitpos);
      HighBits(result, n, bitpos + 7);
    } else {
      AddModulo(result + Shl(low, bitpos), Shl(n, bitpos + 7), U32);
      if bitpos == 28 {
        FourBits(b as nat);
      }
    }
  }

  lemma FourBits(b: nat)
    ensures Shl(b, 28) < U32 ==> b < 16
  {
    WordSizes();
    hide Pow2;
  }

  lemma LowAndRest(b: byte, n: nat)
    ensures Low7(b as nat) == if b < 128 then b as nat else b as nat - 128
  {
  }

  lemma NoneIsZero(bitpos: nat)
    ensures Shl(0, bitpos) == 0
  {
  }

  lemma WholeVarint32(bs: seq<byte>)
    ensures var p, r := DecodeVarint32(bs), ReadNumber(bs);
      && (p.Parsed? ==> r.Some? && p.rest == r.value.1 && p.value == r.value.0 % U32)
      && (r.Some? && r.value.0 < U32 ==> p == Parsed(r.value.0, r.value.1))
  {
    hide Shl, Low7, DecodeVarint32From;
    if bs != [] && bs[0] >= 128 {
      LowAndRest(bs[0], 0);
      Varint32Agrees(bs[1..], 7, Low7(bs[0] as nat));
      if ReadNumber(bs).Some? {
        var n := ReadNumber(bs[1..]).value.0;
        GroupsJoin(Low7(bs[0] as nat), n, 0);
        ShlZero(Low7(bs[0] as nat));
        ShlZero(Low7(bs[0] as nat) + 128 * n);
      }
    }
  }

  // ---- Payloads ----

  // Lengths and keys are read right when they fit 32 bits.
  ghost predicate FitsWord32(bs: seq<byte>) {
    ReadNumber(bs).Some? ==> ReadNumber(bs).value.0 < U32
  }

  lemma DelimitedAgrees(bs: seq<byte>)
    requires FitsWord32(bs)
    ensures DecodeDelimited(bs) ==
              match ReadPayload(2, bs)
              case None => Fail
              case Some(r) => Parsed(r.0.bytes, r.1)
  {
    hide DecodeVarint32, ReadNumber;
    WholeVarint32(bs);
  }

  // Others are taken modulo 2^32 when they are accepted, and the test for an overflow can be evaded: these six
  // bytes are 7 * 2^32, and are taken for 0.
  lemma OverflowIsMissed()
    ensures var bs := [0x80, 0x80, 0x80, 0x80, 0xF0, 0x00];
            ReadNumber(bs) == Some((0x7_0000_0000, [])) && DecodeVarint32(bs) == Parsed(0, [])
  {
    var bs: seq<byte> := [0x80, 0x80, 0x80, 0x80, 0xF0, 0x00];
    hide ReadNumber, DecodeVarint32;
    SevenTimes(bs);
    WholeVarint32(bs);
    EvenAccepted(bs);
  }

  // The number of bytes of a number.
  ghost function Length(bs: seq<byte>): (k: nat)
    requires ReadNumber(bs).Some?
    ensures 1 <= k <= |bs|
  {
    |bs| - |ReadNumber(bs).value.1|
  }

  // What a byte behind the fifth may be: without a group, or the sign extension of a number whose 31st bit is set.
  predicate IsExtension(b: byte, at: nat, negative: bool) {
    b % 128 == 0 || (negative && b == if at < 9 then 255 else 1)
  }

  ghost predicate AllExtend(bs: seq<byte>, start: nat, end: nat, at: nat, negative: bool)
    requires start <= end <= |bs|
  {
    forall j :: start <= j < end ==> IsExtension(bs[j], at + j, negative)
  }

  // Exactly the numbers that are accepted: the test for an overflow is there for numbers of five bytes, and misses
  // the upper bits of the fifth byte of longer ones.
  lemma AcceptedIff(bs: seq<byte>)
    requires ReadNumber(bs).Some?
    ensures DecodeVarint32(bs).Parsed? <==>
              var k := Length(bs);
              k <= 4 || (if k == 5 then bs[4] < 16 else AllExtend(bs, 5, k, 0, bs[4] % 16 >= 8))
  {
    hide DecodeVarint32From, Low7, IsExtension;
    if bs[0] >= 128 {
      LowAndRest(bs[0], 0);
      assert Pow2(7) == 128;
      AcceptedFrom(bs[1..], 1, Low7(bs[0] as nat));
      var k := Length(bs);
      assert Length(bs[1..]) == k - 1;
      if k > 5 {
        OneLess(bs, 5, k, 0, bs[4] % 16 >= 8);
      }
    }
  }

  lemma OneLess(bs: seq<byte>, start: nat, end: nat, at: nat, negative: bool)
    requires 1 <= start <= end <= |bs|
    ensures AllExtend(bs, start, end, at, negative) <==> AllExtend(bs[1..], start - 1, end - 1, at + 1, negative)
  {
    hide IsExtension;
    forall j | start <= j < end ensures IsExtension(bs[j], at + j, negative) <==> IsExtension(bs[1..][j - 1], at + 1 + (j - 1), negative) {
    }
    if AllExtend(bs[1..], start - 1, end - 1, at + 1, negative) {
      forall j | start <= j < end ensures IsExtension(bs[j], at + j, negative) {
        assert IsExtension(bs[1..][j - 1], at + 1 + (j - 1), negative);
      }
    }
  }

  // From the byte at place i on.
  lemma {:induction false} AcceptedFrom(bs: seq<byte>, i: nat, result: nat)
    requires ReadNumber(bs).Some? && 1 <= i <= 4 && result < Pow2(7 * i)
    ensures result < U32
    ensures DecodeVarint32From(bs, 7 * i, result).Parsed? <==>
              var k := i + Length(bs);
              k <= 4 || (if k == 5 then bs[4 - i] < 16 else AllExtend(bs, 5 - i, k - i, i, bs[4 - i] % 16 >= 8))
    decreases |bs|
  {
    hide DecodeVarint32From, Low7, Shl, IsExtension, Pow2;
    Below(i, result);
    if i == 4 {
      FifthByte(bs, result);
      if bs[0] >= 128 {
        ExtensionIff(bs[1..], 5, (result + Shl(Low7(bs[0] as nat), 28)) % U32);
        OneLess(bs, 1, Length(bs), 4, bs[0] % 16 >= 8);
      }
    } else {
      GroupStep(bs, i, result);
      if bs[0] >= 128 {
        AcceptedFrom(bs[1..], i + 1, result + Shl(Low7(bs[0] as nat), 7 * i));
        if i + Length(bs) > 5 {
          OneLess(bs, 5 - i, Length(bs), i, bs[4 - i] % 16 >= 8);
        }
      }
    }
  }

  lemma Below(i: nat, result: nat)
    requires i <= 4 && result < Pow2(7 * i)
    ensures result < U32
  {
    WordSizes();
    Pow2Monotone(7 * i, 32);
    hide Pow2;
  }

  lemma GroupStep(bs: seq<byte>, i: nat, result: nat)
    requires bs != [] && 1 <= i <= 3 && result < Pow2(7 * i) && result < U32
    ensures var next := result + Shl(Low7(bs[0] as nat), 7 * i);
      && next < Pow2(7 * (i + 1)) && next < U32
      && DecodeVarint32From(bs, 7 * i, result) == if bs[0] >= 128 then DecodeVarint32From(bs[1..], 7 * (i + 1), next) else Parsed(next, bs[1..])
  {
    hide Pow2, Low7, Shl;
    LowAndRest(bs[0], 0);
    NextBelow(i, result, Low7(bs[0] as nat));
  }

  lemma NextBelow(i: nat, result: nat, low: nat)
    requires i <= 3 && result < Pow2(7 * i) && low < 128
    ensures result + Shl(low, 7 * i) < Pow2(7 * (i + 1)) && result + Shl(low, 7 * i) < U32
  {
    Pow2Add(7 * i, 7);
    assert Pow2(7) == 128;
    hide Pow2;
    NoMore(low, Pow2(7 * i));
    Below(i + 1, result + Shl(low, 7 * i));
  }

  lemma NoMore(low: nat, m: nat)
    requires low < 128
    ensures low * m <= 127 * m
  {
  }

  lemma FifthByte(bs: seq<byte>, result: nat)
    requires bs != [] && result < Pow2(28) && result < U32
    ensures var next := (result + Shl(Low7(bs[0] as nat), 28)) % U32;
      && (next >= 0x8000_0000 <==> bs[0] % 16 >= 8)
      && DecodeVarint32From(bs, 28, result) ==
           if bs[0] >= 128 then DecodeVarint32From(bs[1..], 35, next) else if bs[0] < 16 then Parsed(next, bs[1..]) else Fail
  {
    hide Pow2, Low7, Shl;
    LowAndRest(bs[0], 0);
    FifthGroup(Low7(bs[0] as nat), result);
    FourthBit(bs[0] as nat);
  }

  lemma FourthBit(b: nat)
    ensures b >= 128 ==> (b - 128) % 16 == b % 16
  {
    if b >= 128 {
      DivideUnique(b - 128, 16, b / 16 - 8, b % 16);
    }
  }

  lemma FifthGroup(low: nat, result: nat)
    requires low < 128 && result < Pow2(28)
    ensures (result + Shl(low, 28)) % U32 >= 0x8000_0000 <==> low % 16 >= 8
  {
    WordSizes();
    hide Pow2;
    var q, r := low / 16, low % 16;
    assert result + Shl(low, 28) == q * U32 + (result + r * 0x1000_0000);
    DivideUnique(result + Shl(low, 28), U32, q, result + r * 0x1000_0000);
  }

  lemma {:induction false} ExtensionIff(bs: seq<byte>, i: nat, result: nat)
    requires ReadNumber(bs).Some? && i >= 5 && result < U32
    ensures DecodeVarint32From(bs, 7 * i, result).Parsed? <==> AllExtend(bs, 0, Length(bs), i, result >= 0x8000_0000)
    decreases |bs|
  {
    hide Shl, IsExtension;
    ExtensionStep(bs, i, result);
    if bs[0] >= 128 {
      ExtensionIff(bs[1..], i + 1, result);
      OneLess(bs, 1, Length(bs), i, result >= 0x8000_0000);
    }
  }

  lemma ExtensionStep(bs: seq<byte>, i: nat, result: nat)
    requires bs != [] && i >= 5 && result < U32
    ensures DecodeVarint32From(bs, 7 * i, result) ==
              if !IsExtension(bs[0], i, result >= 0x8000_0000) then Fail
              else if bs[0] >= 128 then DecodeVarint32From(bs[1..], 7 * (i + 1), result) else Parsed(result, bs[1..])
  {
    LowAndRest(bs[0], 0);
    hide Shl, Low7;
  }

  lemma SevenTimes(bs: seq<byte>)
    requires bs == [0x80, 0x80, 0x80, 0x80, 0xF0, 0x00]
    ensures ReadNumber(bs) == Some((0x7_0000_0000, []))
  {
    TwoBytes(bs[4..]);
    Behind(bs[3..], bs[4..], 0x70);
    Behind(bs[2..], bs[3..], 0x3800);
    Behind(bs[1..], bs[2..], 0x1C_0000);
    Behind(bs, bs[1..], 0xE00_0000);
  }

  lemma TwoBytes(bs: seq<byte>)
    requires bs == [0xF0, 0x00]
    ensures ReadNumber(bs) == Some((0x70, []))
  {
    assert bs[1..] == [0x00] && ReadNumber(bs[1..]) == Some((0, []));
  }

  lemma Behind(bs: seq<byte>, rest: seq<byte>, n: nat)
    requires |bs| > 0 && bs[0] == 0x80 && bs[1..] == rest && ReadNumber(rest) == Some((n, []))
    ensures ReadNumber(bs) == Some((128 * n, []))
  {
  }

  lemma EvenAccepted(bs: seq<byte>)
    requires bs == [0x80, 0x80, 0x80, 0x80, 0xF0, 0x00]
    ensures DecodeVarint32(bs).Parsed?
  {
    hide DecodeVarint32From, Low7;
    LowAndRest(bs[0], 0);
    Padding(bs[1..], 7);
    Padding(bs[2..], 14);
    Padding(bs[3..], 21);
    assert bs[1..][1..] == bs[2..] && bs[2..][1..] == bs[3..] && bs[3..][1..] == bs[4..];
    Overflow(bs[4..]);
  }

  lemma Padding(bs: seq<byte>, bitpos: nat)
    requires |bs| > 0 && bs[0] == 0x80 && bitpos < 32
    ensures DecodeVarint32From(bs, bitpos, 0) == DecodeVarint32From(bs[1..], bitpos + 7, 0)
  {
    LowAndRest(bs[0], 0);
    NoneIsZero(bitpos);
    hide Shl, Low7;
  }

  lemma Overflow(bs: seq<byte>)
    requires bs == [0xF0, 0x00]
    ensures DecodeVarint32From(bs, 28, 0) == Parsed(0, [])
  {
    LowAndRest(bs[0], 0);
    WordSizes();
    assert Shl(0x70, 28) % U32 == 0;
    hide Shl, Low7, Pow2;
    assert bs[1..] == [0x00];
    LastZero(bs[1..]);
  }

  lemma LastZero(bs: seq<byte>)
    requires bs == [0x00]
    ensures DecodeVarint32From(bs, 35, 0) == Parsed(0, [])
  {
  }

  // pb_skip_field passes over what a reader of the format reads as the payload, on every input.
  lemma SkipAgrees(wireType: nat, bs: seq<byte>)
    requires wireType == 2 ==> FitsWord32(bs)
    ensures SkipField(wireType, bs) ==
              match ReadPayload(wireType, bs)
              case None => Fail
              case Some(r) => Parsed((), r.1)
  {
    hide DecodeDelimited, ReadNumber, SkipVarint;
    if wireType == 0 {
      SkipVarintAgrees(bs);
    } else if wireType == 2 {
      DelimitedAgrees(bs);
    }
  }

  lemma {:induction false} SkipVarintAgrees(bs: seq<byte>)
    ensures SkipVarint(bs) ==
              match ReadNumber(bs)
              case None => Fail
              case Some(r) => Parsed((), r.1)
  {
    if bs != [] && bs[0] >= 128 {
      SkipVarintAgrees(bs[1..]);
    }
  }

  // ---- Values ----

  // A number fits the ten bytes that a decoder looks at.
  ghost predicate FitsWord64(bs: seq<byte>) {
    var r := ReadNumber(bs);
    r.Some? ==> r.value.0 < U64 && |bs| - |r.value.1| <= 10
  }

  // What a number means for an integer type of so many bits, if it is in its range.
  ghost function Meaning(lt: LType, n: nat): Option<Value>
    requires IsNumber(lt) && ValidType(lt)
  {
    match lt
    case TBool => Some(VBool(n != 0))
    case TUvarint(bits) => if n < Power(bits) then Some(VInt(n)) else None
    case TVarint(bits) =>
      var i := if bits == 64 then AsSigned(n, 0x1_0000_0000_0000_0000) else AsSigned(n % 0x1_0000_0000, 0x1_0000_0000);
      if InRange(i, bits) then Some(VInt(i)) else None
    case TSvarint(bits) =>
      var i := if n % 2 == 0 then n / 2 else 0 - (n + 1) / 2;
      if InRange(i, bits) then Some(VInt(i)) else None
  }

  // Two's complement.
  function AsSigned(n: nat, m: nat): int {
    if 2 * n < m then n else n - m
  }

  function Power(bits: nat): nat
    requires ValidBits(bits)
  {
    if bits == 8 then 0x100 else if bits == 16 then 0x1_0000 else if bits == 32 then 0x1_0000_0000 else 0x1_0000_0000_0000_0000
  }

  predicate InRange(i: int, bits: nat)
    requires ValidBits(bits)
  {
    0 - Power(bits) <= 2 * i < Power(bits)
  }

  lemma PowerIs(bits: nat)
    requires ValidBits(bits)
    ensures Pow2(bits) == Power(bits) && 2 * Pow2(bits - 1) == Power(bits)
    ensures forall i :: FitsSigned(i, bits) <==> InRange(i, bits)
  {
    WordSizes();
    Pow2Add(8, 8);
    assert Pow2(bits) == 2 * Pow2(bits - 1);
    hide Pow2;
  }

  // An integer or a truth value is decoded from every number as its type says, and refused when it is out of range.
  lemma NumberMeans(lt: LType, bs: seq<byte>)
    requires ValidType(lt) && IsNumber(lt) && if lt == TBool then FitsWord32(bs) else FitsWord64(bs)
    ensures DecodeScalar(lt, bs) ==
              match ReadNumber(bs)
              case None => Fail
              case Some(r) => if Meaning(lt, r.0).None? then Fail else Parsed(Meaning(lt, r.0).value, r.1)
  {
    hide DecodeVarint, DecodeVarint32, ReadNumber, Pow2, Signed, Unzigzag, FitsSigned, InRange, Power, AsSigned;
    if lt == TBool {
      WholeVarint32(bs);
    } else {
      WholeVarint(bs);
      PowerIs(lt.bits);
      if ReadNumber(bs).Some? {
        SignedIs(ReadNumber(bs).value.0);
        UnzigzagIs(ReadNumber(bs).value.0);
      }
    }
  }

  lemma SignedIs(n: nat)
    requires n < U64
    ensures Signed(n, 64) == AsSigned(n, 0x1_0000_0000_0000_0000)
    ensures Signed(n, 32) == AsSigned(n % 0x1_0000_0000, 0x1_0000_0000)
  {
    WordSizes();
    assert Pow2(64) == 2 * Pow2(63) && Pow2(32) == 2 * Pow2(31);
    hide Pow2;
  }

  lemma UnzigzagIs(n: nat)
    ensures Unzigzag(n) == if n % 2 == 0 then n / 2 else 0 - (n + 1) / 2
  {
  }

  // The fixed-size words.
  lemma WordMeans(lt: LType, bs: seq<byte>)
    requires lt == TFixed32 || lt == TFixed64
    ensures DecodeScalar(lt, bs) ==
              match ReadPayload(WireNumber(lt), bs)
              case None => Fail
              case Some(r) => Parsed(VInt(WordOf(r.0.bytes)), r.1)
  {
    hide WordOf, FromLittleEndian;
    var size := if lt == TFixed32 then 4 else 8;
    if |bs| >= size {
      WordIs(bs[..size]);
    }
  }

  // Bytes and strings: what fits is taken, a string up to its first zero, and the rest is refused.
  ghost function BytesMeaning(lt: LType, bs: seq<byte>): Option<Value>
    requires lt.TBytes? || lt.TString? || lt.TFixedBytes?
  {
    match lt
    case TBytes(size) => if |bs| + 4 <= size then Some(VBytes(bs)) else None
    case TString(size) => if |bs| + 1 <= size && |bs| < 0xFFFF_FFFF then Some(VBytes(Terminated(bs))) else None
    case TFixedBytes(size) => if bs == [] then Some(VBytes(seq(size, _ => 0))) else if |bs| == size then Some(VBytes(bs)) else None
  }

  lemma {:induction false} TerminatedIs(bs: seq<byte>)
    ensures Terminated(bs) <= bs && 0 !in Terminated(bs)
    ensures Terminated(bs) == bs || bs[|Terminated(bs)|] == 0
  {
    if bs != [] && bs[0] != 0 {
      TerminatedIs(bs[1..]);
    }
  }

  lemma BytesMean(lt: LType, current: Value, item: bool, bs: seq<byte>)
    requires ValidType(lt) && HasType(lt, current) && (lt.TBytes? || lt.TString? || lt.TFixedBytes?) && FitsWord32(bs)
    ensures DecodeValue(lt, current, item, bs) ==
              match ReadPayload(2, bs)
              case None => Fail
              case Some(r) => if BytesMeaning(lt, r.0.bytes).None? then Fail else Parsed(BytesMeaning(lt, r.0.bytes).value, r.1)
  {
    hide DecodeDelimited, ReadPayload, Terminated;
    DelimitedAgrees(bs);
    SizedOnly(bs);
  }

  lemma SizedOnly(bs: seq<byte>)
    ensures ReadPayload(2, bs).Some? ==> ReadPayload(2, bs).value.0.Sized?
  {
  }

  // A submessage is decoded from exactly its bytes, on top of the current value unless it is a new item.
  lemma MessageMeans(lt: LType, current: Value, item: bool, bs: seq<byte>)
    requires ValidType(lt) && HasType(lt, current) && lt.TMessage? && FitsWord32(bs)
    ensures Shaped(lt.fields, Defaults(lt.fields)) && Shaped(lt.fields, current.slots)
    ensures DecodeValue(lt, current, item, bs) ==
              match ReadPayload(2, bs)
              case None => Fail
              case Some(r) =>
                var m := DecodeMessage(lt.fields, if item then Defaults(lt.fields) else current.slots, r.0.bytes);
                if m.Fail? then Fail else Parsed(VMessage(m.value), r.1)
  {
    DefaultsShaped(lt.fields);
    hide DecodeDelimited, ReadPayload, DecodeMessage, Shaped, ValidFields;
    DelimitedAgrees(bs);
    SizedOnly(bs);
  }
}
