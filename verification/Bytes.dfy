/**
  Byte strings and the two encodings of numbers that both libraries use: base-128 varints and
  little-endian words (util/coding.cc of leveldb, pb_encode.c and pb_decode.c of nanopb).
 */
module Bytes {
  import opened Wrappers

  newtype byte = n: int | 0 <= n < 256

  lemma Regroup<T>(a: seq<T>, b: seq<T>, c: seq<T>)
    ensures a + b + c == a + (b + c)
  {
  }

  const U32: nat := 0x1_0000_0000
  const U64: nat := 0x1_0000_0000_0000_0000

  function Pow2(k: nat): (r: nat)
    ensures r >= 1
  {
    if k == 0 then 1 else 2 * Pow2(k - 1)
  }

  lemma {:induction false} Pow2Add(a: nat, b: nat)
    ensures Pow2(a + b) == Pow2(a) * Pow2(b)
  {
    if a > 0 {
      Pow2Add(a - 1, b);
    }
  }

  lemma {:induction false} Pow2Monotone(a: nat, b: nat)
    requires a <= b
    ensures Pow2(a) <= Pow2(b)
  {
    if a < b {
      Pow2Monotone(a, b - 1);
    }
  }

  // 128 is seven bits.
  lemma SevenBits(k: nat)
    ensures Pow2(k + 7) == 128 * Pow2(k)
  {
    assert Pow2(k + 2) == 4 * Pow2(k);
    assert Pow2(k + 4) == 4 * Pow2(k + 2);
    assert Pow2(k + 6) == 4 * Pow2(k + 4);
  }

  lemma WordSizes()
    ensures Pow2(7) == 128 && Pow2(8) == 256 && Pow2(28) == 0x1000_0000 && Pow2(32) == U32 && Pow2(64) == U64
  {
    assert Pow2(7) == 128;
    SevenBits(7);
    SevenBits(14);
    SevenBits(21);
    SevenBits(28);
    assert Pow2(32) == 16 * Pow2(28);
    Pow2Add(32, 32);
  }

  // ---- Varints ----

  // The low seven bits of a number, and the rest.
  function Low7(n: nat): (r: nat)
    ensures r < 128
  {
    n % 128
  }

  function High(n: nat): (q: nat)
    ensures n == 128 * q + Low7(n)
    ensures n < 128 ==> Low7(n) == n
    ensures n >= 128 ==> 0 < q < n
  {
    n / 128
  }

  lemma Low7OfMarked(n: nat)
    ensures Low7(Low7(n) + 128) == Low7(n)
  {
  }

  // Seven bits a byte, least significant first; the top bit says that more follow.
  function Varint(n: nat): (bs: seq<byte>)
    ensures |bs| >= 1
    decreases n
  {
    if n < 128 then [n as byte] else [(Low7(n) + 128) as byte] + Varint(High(n))
  }

  lemma VarintHead(n: nat, tail: seq<byte>)
    ensures var bs := Varint(n) + tail;
      && bs != []
      && (n < 128 ==> bs[0] as nat == n && bs[1..] == tail)
      && (n >= 128 ==> bs[0] as nat == Low7(n) + 128 && bs[1..] == Varint(High(n)) + tail)
  {
    hide Low7, High;
    var head := if n < 128 then n as byte else (Low7(n) + 128) as byte;
    var rest := if n < 128 then [] else Varint(High(n));
    assert Varint(n) == [head] + rest;
    assert [head] + rest + tail == [head] + (rest + tail);
    assert n < 128 ==> rest + tail == tail;
  }

  lemma {:induction false} VarintLength(n: nat, k: nat)
    requires n < Pow2(7 * k) && k > 0
    ensures |Varint(n)| <= k
  {
    if n >= 128 {
      assert 7 * k == 7 * (k - 1) + 7;
      SevenBits(7 * (k - 1));
      assert k > 1;
      VarintLength(High(n), k - 1);
    }
  }

  // n << k, without a width
  function Shl(n: nat, k: nat): nat {
    n * Pow2(k)
  }

  lemma ShlZero(n: nat)
    ensures Shl(n, 0) == n
  {
  }

  lemma MultiplySum(a: nat, b: nat, p: nat)
    ensures (a + b) * p == a * p + b * p
  {
  }

  // The low seven bits go to one byte, the others to the bytes from bit position + 7 on.
  lemma NextGroup(n: nat, bitpos: nat)
    ensures Shl(Low7(n), bitpos) + Shl(High(n), bitpos + 7) == Shl(n, bitpos)
    ensures n >= 128 ==> Shl(n, bitpos) >= Pow2(bitpos + 7)
  {
    var p, q, r := Pow2(bitpos), High(n), Low7(n);
    SevenBits(bitpos);
    hide Pow2, High, Low7;
    MultiplySum(128 * q, r, p);
    TimesSum(q, p);
    if n >= 128 {
      MultiplySum(128, n - 128, p);
    }
  }

  lemma TimesSum(q: nat, p: nat)
    ensures q * (128 * p) == (128 * q) * p
  {
  }

  lemma DivideUnique(n: nat, d: nat, q: nat, r: nat)
    requires n == q * d + r && r < d
    ensures n / d == q && n % d == r
  {
    var q', r' := n / d, n % d;
    assert n == q' * d + r';
    if q < q' {
      MultiplySum(q, q' - q, d);
      AtLeastOnce(q' - q, d);
    } else if q' < q {
      MultiplySum(q', q - q', d);
      AtLeastOnce(q - q', d);
    }
  }

  lemma AtLeastOnce(a: nat, d: nat)
    requires a >= 1
    ensures a * d >= d
  {
  }

  // ---- Parts ----

  lemma Subslice(bs: seq<byte>, a: nat, b: nat, i: nat, j: nat)
    requires a <= b <= |bs| && i <= j <= b - a
    ensures bs[a..b][i..j] == bs[a + i..a + j]
  {
    assert forall k :: i <= k < j ==> bs[a..b][k] == bs[a + k];
  }

  // ---- Little-endian words ----

  function LittleEndian(v: nat, k: nat): (bs: seq<byte>)
    ensures |bs| == k
  {
    if k == 0 then [] else [(v % 256) as byte] + LittleEndian(v / 256, k - 1)
  }

  function FromLittleEndian(bs: seq<byte>): (v: nat)
    ensures v < Pow2(8 * |bs|)
  {
    if bs == [] then 0
    else
      assert 8 * |bs| == 8 * |bs[1..]| + 8;
      Pow2Add(8 * |bs[1..]|, 8);
      assert Pow2(8) == 256;
      bs[0] as nat + 256 * FromLittleEndian(bs[1..])
  }

  lemma {:induction false} LittleEndianRoundTrip(v: nat, k: nat)
    requires v < Pow2(8 * k)
    ensures FromLittleEndian(LittleEndian(v, k)) == v
  {
    hide Pow2;
    if k == 0 {
      NoBits();
    } else {
      HighBytes(v, k);
      LittleEndianRoundTrip(v / 256, k - 1);
      LowByteFirst(v % 256, LittleEndian(v / 256, k - 1));
    }
  }

  lemma NoBits()
    ensures Pow2(0) == 1
  {
  }

  lemma HighBytes(v: nat, k: nat)
    requires k > 0 && v < Pow2(8 * k)
    ensures v / 256 < Pow2(8 * (k - 1))
  {
    assert 8 * k == 8 * (k - 1) + 8;
    Pow2Add(8 * (k - 1), 8);
    WordSizes();
    QuotientBelow(v, Pow2(8 * (k - 1)));
  }

  lemma QuotientBelow(v: nat, p: nat)
    requires v < p * 256
    ensures v / 256 < p
  {
  }

  lemma LowByteFirst(low: nat, high: seq<byte>)
    requires low < 256
    ensures FromLittleEndian([low as byte] + high) == low + 256 * FromLittleEndian(high)
  {
    assert ([low as byte] + high)[1..] == high;
  }

  lemma LowByte(low: nat, high: nat)
    requires low < 256
    ensures (low + 256 * high) % 256 == low && (low + 256 * high) / 256 == high
  {
  }

  lemma {:induction false} LittleEndianOfBytes(bs: seq<byte>)
    ensures LittleEndian(FromLittleEndian(bs), |bs|) == bs
  {
    hide Pow2;
    if bs != [] {
      var low, high := bs[0] as nat, FromLittleEndian(bs[1..]);
      LittleEndianOfBytes(bs[1..]);
      LowByte(low, high);
      assert LittleEndian(low + 256 * high, |bs|) == [low as byte] + LittleEndian(high, |bs| - 1);
      assert bs == [bs[0]] + bs[1..];
    }
  }

  // ---- Numbers as the formats give them ----

  // Groups of seven bits, the lowest first; 128 marks that more follow.
  function ReadNumber(bs: seq<byte>): (r: Option<(nat, seq<byte>)>)
    ensures r.Some? ==> |r.value.1| < |bs|
  {
    if bs == [] then None
    else if bs[0] < 128 then Some((bs[0] as nat, bs[1..]))
    else
      var r := ReadNumber(bs[1..]);
      if r.None? then None else Some((bs[0] as nat - 128 + 128 * r.value.0, r.value.1))
  }

  lemma {:induction false} NumberIsRead(n: nat, tail: seq<byte>)
    ensures ReadNumber(Varint(n) + tail) == Some((n, tail))
    decreases n
  {
    hide Varint, Low7, High;
    VarintHead(n, tail);
    if n >= 128 {
      NumberIsRead(High(n), tail);
    }
  }

  // The shortest form: the last byte is zero for the number zero only.
  lemma {:induction false} VarintIsShortest(n: nat)
    ensures |Varint(n)| > 1 ==> Varint(n)[|Varint(n)| - 1] != 0
    ensures forall i :: 0 <= i < |Varint(n)| - 1 ==> Varint(n)[i] >= 128
    decreases n
  {
    hide Low7, High;
    if n >= 128 {
      VarintIsShortest(High(n));
    }
  }

  // Bytes of a word, the lowest first.
  function WordOf(bs: seq<byte>): nat {
    if bs == [] then 0 else bs[0] as nat + 256 * WordOf(bs[1..])
  }

  lemma {:induction false} WordIs(bs: seq<byte>)
    ensures WordOf(bs) == FromLittleEndian(bs)
  {
    if bs != [] {
      WordIs(bs[1..]);
    }
  }

  lemma WordIsRead(v: nat, size: nat)
    requires v < Pow2(8 * size)
    ensures WordOf(LittleEndian(v, size)) == v
  {
    hide WordOf, LittleEndian, FromLittleEndian, Pow2;
    WordIs(LittleEndian(v, size));
    LittleEndianRoundTrip(v, size);
  }
}
