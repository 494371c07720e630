/**
  The Bloom filter policy (util/bloom.cc).  The 32-bit hash of a key is a parameter: nothing here
  depends on which function it is.
 */
module Bloom {
  import opened Bytes

  type Key = seq<byte>
  type KeyHash = Key -> nat

  // ---- Bits of a byte ----

  // (x & (1 << i)) != 0
  predicate HasBit(x: nat, i: nat) {
    if i == 0 then x % 2 == 1 else HasBit(x / 2, i - 1)
  }

  // x | (1 << i)
  function WithBit(x: nat, i: nat): nat {
    if i == 0 then (if x % 2 == 1 then x else x + 1) else 2 * WithBit(x / 2, i - 1) + x % 2
  }

  lemma {:induction false} WithBitHas(x: nat, i: nat, j: nat)
    ensures HasBit(WithBit(x, i), j) <==> i == j || HasBit(x, j)
    decreases i
  {
    if i == 0 {
      if j > 0 {
        assert WithBit(x, 0) / 2 == x / 2;
      }
    } else {
      assert WithBit(x, i) % 2 == x % 2 && WithBit(x, i) / 2 == WithBit(x / 2, i - 1);
      if j > 0 {
        WithBitHas(x / 2, i - 1, j - 1);
      }
    }
  }

  lemma {:induction false} WithBitFits(x: nat, i: nat, k: nat)
    requires x < Pow2(k) && i < k
    ensures WithBit(x, i) < Pow2(k)
  {
    assert Pow2(k) == 2 * Pow2(k - 1);
    hide Pow2;
    if i > 0 {
      WithBitFits(x / 2, i - 1, k - 1);
    }
  }

  // ---- Probes ----

  // (h >> 17) | (h << 15), in 32 bits
  function Delta(h: nat): (d: nat)
    requires h < U32
    ensures d < U32
  {
    h / 0x2_0000 + h % 0x2_0000 * 0x8000
  }

  // The hash value of probe j: h += delta wraps around.
  function ProbeHash(h: nat, j: nat): (r: nat)
    requires h < U32
    ensures r < U32
  {
    if j == 0 then h else (ProbeHash(h, j - 1) + Delta(h)) % U32
  }

  predicate BitSet(bits: seq<byte>, pos: nat)
    requires pos / 8 < |bits|
  {
    HasBit(bits[pos / 8] as nat, pos % 8)
  }

  // The first k probes of a key with hash h all hit.
  predicate ProbesHit(bits: seq<byte>, h: nat, k: nat)
    requires h < U32 && bits != []
  {
    forall j :: 0 <= j < k ==> BitSet(bits, ProbeHash(h, j) % (8 * |bits|))
  }

  ghost predicate HashFits(hash: KeyHash) {
    forall key :: hash(key) < U32
  }

  // BloomFilterPolicy::KeyMayMatch
  predicate MayMatch(hash: KeyHash, key: Key, filter: seq<byte>)
    requires HashFits(hash)
  {
    |filter| >= 2 &&
    (filter[|filter| - 1] > 30 || ProbesHit(filter[..|filter| - 1], hash(key), filter[|filter| - 1] as nat))
  }

  method KeyMayMatch(hash: KeyHash, key: Key, filter: seq<byte>) returns (r: bool)
    requires HashFits(hash)
    ensures r == MayMatch(hash, key, filter)
  {
    var len := |filter|;
    if len < 2 {
      return false;
    }
    var bits := (len - 1) * 8;
    var k := filter[len - 1];
    if k > 30 {
      return true;
    }
    var h := hash(key);
    var delta := Delta(h);
    var j := 0;
    while j < k
      invariant 0 <= j <= k && h == ProbeHash(hash(key), j as nat)
      invariant ProbesHit(filter[..len - 1], hash(key), j as nat)
    {
      var bitpos := h % bits;
      if !HasBit(filter[bitpos / 8] as nat, bitpos % 8) {
        assert !BitSet(filter[..len - 1], ProbeHash(hash(key), j as nat) % (8 * |filter[..len - 1]|));
        return false;
      }
      h := (h + delta) % U32;
      j := j + 1;
    }
    r := true;
  }

  // array[bitpos / 8] |= (1 << (bitpos % 8)): one bit is set, and no other changes.
  method SetBit(bits: seq<byte>, pos: nat) returns (r: seq<byte>)
    requires pos / 8 < |bits|
    ensures |r| == |bits|
    ensures forall other :: 0 <= other < 8 * |bits| ==> (BitSet(r, other) <==> other == pos || BitSet(bits, other))
  {
    hide HasBit, WithBit;
    WordSizes();
    WithBitFits(bits[pos / 8] as nat, pos % 8, 8);
    var b := WithBit(bits[pos / 8] as nat, pos % 8) as byte;
    r := bits[pos / 8 := b];
    forall other | 0 <= other < 8 * |bits| ensures BitSet(r, other) <==> other == pos || BitSet(bits, other) {
      WithBitHas(bits[pos / 8] as nat, pos % 8, other % 8);
    }
  }

  // One of the first k probes of hash h goes to this bit.
  ghost predicate Probed(h: nat, k: nat, bits: nat, pos: nat)
    requires h < U32 && bits > 0
  {
    exists j :: 0 <= j < k && pos == ProbePosition(h, j, bits)
  }

  // Probe j by number: h + j * delta in 32 bits, delta being h rotated right by 17 bits.
  function ProbePosition(h: nat, j: nat, bits: nat): (pos: nat)
    requires bits > 0
    ensures pos < bits
  {
    (h + j * (h / 0x2_0000 + h % 0x2_0000 * 0x8000)) % 0x1_0000_0000 % bits
  }

  lemma {:induction false} ProbeHashIs(h: nat, j: nat)
    requires h < U32
    ensures ProbeHash(h, j) == (h + j * Delta(h)) % U32
  {
    hide Delta, ProbeHash;
    FirstProbe(h);
    if j == 0 {
      assert 0 * Delta(h) == 0;
    } else {
      ProbeHashIs(h, j - 1);
      NextProbe(h, j - 1);
      OneMoreDelta(h, j - 1, Delta(h));
    }
  }

  lemma OneMoreDelta(h: nat, j: nat, d: nat)
    ensures ((h + j * d) % U32 + d) % U32 == (h + (j + 1) * d) % U32
  {
    assert (j + 1) * d == j * d + d;
    SumModulo(h + j * d, d);
  }

  lemma SumModulo(a: nat, b: nat)
    ensures (a % U32 + b) % U32 == (a + b) % U32
  {
  }

  lemma ProbeIs(h: nat, j: nat, bits: nat)
    requires h < U32 && bits > 0
    ensures ProbeHash(h, j) % bits == ProbePosition(h, j, bits)
  {
    ProbeHashIs(h, j);
    hide ProbeHash;
  }

  // The inner loop of CreateFilter.
  method AddProbes(bits: seq<byte>, h0: nat, k: nat) returns (r: seq<byte>)
    requires bits != [] && h0 < U32
    ensures |r| == |bits|
    ensures forall pos :: 0 <= pos < 8 * |bits| ==> (BitSet(r, pos) <==> BitSet(bits, pos) || Probed(h0, k, 8 * |bits|, pos))
  {
    hide BitSet, ProbeHash, Delta, ProbePosition;
    r := bits;
    var h := h0;
    FirstProbe(h0);
    for j := 0 to k
      invariant |r| == |bits| && h == ProbeHash(h0, j)
      invariant forall pos :: 0 <= pos < 8 * |bits| ==> (BitSet(r, pos) <==> BitSet(bits, pos) || Probed(h0, j, 8 * |bits|, pos))
    {
      ProbeIs(h0, j, 8 * |bits|);
      r := SetBit(r, h % (8 * |bits|));
      NextProbe(h0, j);
      OneMoreProbe(h0, j, 8 * |bits|);
      h := (h + Delta(h0)) % U32;
    }
  }

  lemma OneMoreProbe(h: nat, j: nat, bits: nat)
    requires h < U32 && bits > 0
    ensures forall pos :: Probed(h, j + 1, bits, pos) <==> Probed(h, j, bits, pos) || pos == ProbePosition(h, j, bits)
  {
    hide ProbePosition;
    forall pos ensures Probed(h, j + 1, bits, pos) <==> Probed(h, j, bits, pos) || pos == ProbePosition(h, j, bits) {
      if pos == ProbePosition(h, j, bits) {
        assert 0 <= j < j + 1;
      }
    }
  }

  lemma FirstProbe(h: nat)
    requires h < U32
    ensures ProbeHash(h, 0) == h
  {
  }

  lemma NextProbe(h: nat, j: nat)
    requires h < U32
    ensures ProbeHash(h, j + 1) == (ProbeHash(h, j) + Delta(h)) % U32
  {
  }

  // ---- Filters ----

  // Bytes for the bits of n keys; never less than 64 bits.
  function FilterBytes(n: nat, bitsPerKey: nat): (bytes: nat)
    ensures bytes >= 8
  {
    ((if n * bitsPerKey < 64 then 64 else n * bitsPerKey) + 7) / 8
  }

  // Some key of the filter has a probe at this bit.
  ghost predicate Wanted(hash: KeyHash, keys: seq<Key>, k: nat, bits: nat, pos: nat)
    requires HashFits(hash) && bits > 0
  {
    exists i :: 0 <= i < |keys| && Probed(hash(keys[i]), k, bits, pos)
  }

  // The filter of some keys: exactly their probes are set, and the number of probes stands behind the bits.
  ghost predicate IsFilter(hash: KeyHash, keys: seq<Key>, bitsPerKey: nat, k: nat, filter: seq<byte>)
    requires HashFits(hash)
  {
    var bytes := FilterBytes(|keys|, bitsPerKey);
    && |filter| == bytes + 1 && filter[bytes] as nat == k
    && forall pos :: 0 <= pos < 8 * bytes ==>
         (HasBit(filter[pos / 8] as nat, pos % 8) <==> Wanted(hash, keys, k, 8 * bytes, pos))
  }

  // k_ of the policy: bits_per_key * 0.69 rounded down, from 1 to 30.  The product of the doubles is on the
  // right side of every whole number below 30, since no number of bits below 44 gives a whole one.
  function Probes(bitsPerKey: nat): (k: nat)
    ensures 1 <= k <= 30 && (bitsPerKey < 2 ==> k == 1) && (bitsPerKey > 43 ==> k == 30)
    ensures 2 <= bitsPerKey <= 43 ==> 100 * k <= 69 * bitsPerKey < 100 * (k + 1)
  {
    var k := bitsPerKey * 69 / 100;
    if k < 1 then 1 else if k > 30 then 30 else k
  }

  // BloomFilterPolicy::CreateFilter
  method CreateFilter(hash: KeyHash, keys: seq<Key>, bitsPerKey: nat, k: nat, dst: seq<byte>) returns (r: seq<byte>)
    requires HashFits(hash) && 1 <= k <= 30
    ensures dst <= r && IsFilter(hash, keys, bitsPerKey, k, r[|dst|..])
  {
    var bits := |keys| * bitsPerKey;
    if bits < 64 {
      bits := 64;
    }
    var bytes := (bits + 7) / 8;
    var filter: seq<byte> := seq(bytes, _ => 0);
    NoBits(filter);
    for i := 0 to |keys|
      invariant |filter| == bytes
      invariant forall pos :: 0 <= pos < 8 * bytes ==> (BitSet(filter, pos) <==> Wanted(hash, keys[..i], k, 8 * bytes, pos))
    {
      filter := AddProbes(filter, hash(keys[i]), k);
      OneMoreKey(hash, keys, i, k, 8 * bytes);
    }
    assert keys[..|keys|] == keys;
    r := dst + filter + [k as byte];
    FilterDone(hash, keys, bitsPerKey, k, dst, filter);
  }

  lemma {:induction false} ZeroHasNoBit(i: nat)
    ensures !HasBit(0, i)
  {
    if i > 0 {
      ZeroHasNoBit(i - 1);
    }
  }

  lemma NoBits(filter: seq<byte>)
    requires forall i :: 0 <= i < |filter| ==> filter[i] == 0
    ensures forall pos :: 0 <= pos < 8 * |filter| ==> !BitSet(filter, pos)
  {
    hide HasBit;
    forall pos | 0 <= pos < 8 * |filter| ensures !BitSet(filter, pos) {
      ZeroHasNoBit(pos % 8);
    }
  }

  lemma OneMoreKey(hash: KeyHash, keys: seq<Key>, i: nat, k: nat, bits: nat)
    requires HashFits(hash) && i < |keys| && bits > 0
    ensures forall pos :: Wanted(hash, keys[..i + 1], k, bits, pos) <==> Wanted(hash, keys[..i], k, bits, pos) || Probed(hash(keys[i]), k, bits, pos)
  {
    hide Probed;
    var more := keys[..i + 1];
    forall pos ensures Wanted(hash, more, k, bits, pos) <==> Wanted(hash, keys[..i], k, bits, pos) || Probed(hash(keys[i]), k, bits, pos) {
      assert more[i] == keys[i];
      assert forall j :: 0 <= j < i ==> more[j] == keys[..i][j];
    }
  }

  lemma FilterDone(hash: KeyHash, keys: seq<Key>, bitsPerKey: nat, k: nat, dst: seq<byte>, bits: seq<byte>)
    requires HashFits(hash) && k < 256 && |bits| == FilterBytes(|keys|, bitsPerKey)
    requires forall pos :: 0 <= pos < 8 * |bits| ==> (BitSet(bits, pos) <==> Wanted(hash, keys, k, 8 * |bits|, pos))
    ensures var r := dst + bits + [k as byte]; IsFilter(hash, keys, bitsPerKey, k, r[|dst|..])
  {
    hide Wanted, HasBit, FilterBytes;
    var filter := (dst + bits + [k as byte])[|dst|..];
    assert filter == bits + [k as byte];
    forall pos | 0 <= pos < 8 * |bits| ensures HasBit(filter[pos / 8] as nat, pos % 8) <==> Wanted(hash, keys, k, 8 * |bits|, pos) {
      assert BitSet(bits, pos) <==> HasBit(filter[pos / 8] as nat, pos % 8);
    }
  }

  // A key may match a filter exactly when each of its probes is one of some key of the filter.
  lemma MatchesIff(hash: KeyHash, keys: seq<Key>, bitsPerKey: nat, k: nat, filter: seq<byte>, key: Key)
    requires HashFits(hash) && 1 <= k <= 30 && IsFilter(hash, keys, bitsPerKey, k, filter)
    ensures var bits := 8 * FilterBytes(|keys|, bitsPerKey);
      MayMatch(hash, key, filter) <==> forall j :: 0 <= j < k ==> Wanted(hash, keys, k, bits, ProbePosition(hash(key), j, bits))
  {
    hide Wanted, HasBit, FilterBytes, ProbePosition, ProbeHash;
    var bytes := FilterBytes(|keys|, bitsPerKey);
    var bits := filter[..bytes];
    forall j | 0 <= j < k
      ensures BitSet(bits, ProbeHash(hash(key), j) % (8 * bytes)) <==> Wanted(hash, keys, k, 8 * bytes, ProbePosition(hash(key), j, 8 * bytes))
    {
      ProbeIs(hash(key), j, 8 * bytes);
    }
  }

  // So no key of the filter is missed.
  lemma NoKeyIsMissed(hash: KeyHash, keys: seq<Key>, bitsPerKey: nat, k: nat, filter: seq<byte>, key: Key)
    requires HashFits(hash) && 1 <= k <= 30 && IsFilter(hash, keys, bitsPerKey, k, filter) && key in keys
    ensures MayMatch(hash, key, filter)
  {
    hide IsFilter, MayMatch, FilterBytes, ProbePosition;
    MatchesIff(hash, keys, bitsPerKey, k, filter, key);
    var i :| 0 <= i < |keys| && keys[i] == key;
    var bits := 8 * FilterBytes(|keys|, bitsPerKey);
    forall j | 0 <= j < k ensures Wanted(hash, keys, k, bits, ProbePosition(hash(key), j, bits)) {
      assert Probed(hash(keys[i]), k, bits, ProbePosition(hash(key), j, bits));
    }
  }
}
