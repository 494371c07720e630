/**
  Prefix-compressed blocks (table/block_builder.cc): the bytes of a block, and what decoding an
  entry yields (DecodeEntry in table/block.cc).
 */
module BlockFormat {
  import opened Wrappers
  import opened Bytes
  import opened Coding

  type Key = seq<byte>

  datatype Item = Item(key: Key, value: seq<byte>)

  // A comparator on byte strings.
  type Order = (Key, Key) -> bool

  ghost predicate TotalOrder(less: Order) {
    && (forall a :: !less(a, a))
    && (forall a, b, c :: less(a, b) && less(b, c) ==> less(a, c))
    && (forall a, b :: less(a, b) || a == b || less(b, a))
  }

  ghost predicate Increasing(less: Order, items: seq<Item>) {
    forall i, j :: 0 <= i < j < |items| ==> less(items[i].key, items[j].key)
  }

  function CommonPrefix(a: Key, b: Key): (n: nat)
    ensures n <= |a| && n <= |b| && a[..n] == b[..n]
    ensures n < |a| && n < |b| ==> a[n] != b[n]
  {
    if a == [] || b == [] || a[0] != b[0] then 0 else 1 + CommonPrefix(a[1..], b[1..])
  }

  // ---- Entries ----

  // How much of the key before it entry i leaves out: nothing at a restart point.
  function Shared(items: seq<Item>, interval: nat, i: nat): (n: nat)
    requires interval > 0 && i < |items|
    ensures n <= |items[i].key| && (i % interval == 0 ==> n == 0)
    ensures i % interval != 0 ==> n <= |items[i - 1].key| && items[i - 1].key[..n] == items[i].key[..n]
  {
    if i % interval == 0 then 0 else CommonPrefix(items[i - 1].key, items[i].key)
  }

  function EntryHeader(shared: nat, e: Item): (bs: seq<byte>)
    requires shared <= |e.key|
    ensures |bs| >= 3
  {
    Varint(shared) + Varint(|e.key| - shared) + Varint(|e.value|)
  }

  function EntryBody(shared: nat, e: Item): seq<byte>
    requires shared <= |e.key|
  {
    e.key[shared..] + e.value
  }

  function EncodeEntry(shared: nat, e: Item): (bs: seq<byte>)
    requires shared <= |e.key|
    ensures |bs| >= 3
  {
    EntryHeader(shared, e) + EntryBody(shared, e)
  }

  // The entries 0 .. n-1.
  function Data(items: seq<Item>, interval: nat, n: nat): seq<byte>
    requires interval > 0 && n <= |items|
  {
    if n == 0 then [] else Data(items, interval, n - 1) + EncodeEntry(Shared(items, interval, n - 1), items[n - 1])
  }

  function Offset(items: seq<Item>, interval: nat, n: nat): nat
    requires interval > 0 && n <= |items|
  {
    |Data(items, interval, n)|
  }

  lemma {:induction false} OffsetsGrow(items: seq<Item>, interval: nat, i: nat, j: nat)
    requires interval > 0 && i <= j <= |items|
    ensures Data(items, interval, i) <= Data(items, interval, j)
    ensures Offset(items, interval, i) + 3 * (j - i) <= Offset(items, interval, j)
  {
    if i < j {
      OffsetsGrow(items, interval, i, j - 1);
    }
  }

  // Adding an item does not change what is there.
  lemma {:induction false} DataExtends(items: seq<Item>, more: seq<Item>, interval: nat, n: nat)
    requires interval > 0 && n <= |items| && items <= more
    ensures Data(items, interval, n) == Data(more, interval, n)
  {
    if n > 0 {
      DataExtends(items, more, interval, n - 1);
      SharedExtends(items, more, interval, n - 1);
      hide Shared, EncodeEntry;
    }
  }

  lemma SharedExtends(items: seq<Item>, more: seq<Item>, interval: nat, i: nat)
    requires interval > 0 && i < |items| && items <= more
    ensures items[i] == more[i] && Shared(items, interval, i) == Shared(more, interval, i)
  {
    assert i % interval != 0 ==> i > 0 && items[i - 1] == more[i - 1];
  }

  // ---- Restart points ----

  // The first entry of every group of `interval` entries; an empty block has one restart point.
  function NumRestarts(n: nat, interval: nat): (r: nat)
    requires interval > 0
    ensures r >= 1
  {
    if n == 0 then 1 else (n - 1) / interval + 1
  }

  lemma RestartEntry(n: nat, interval: nat, r: nat)
    requires interval > 0 && r < NumRestarts(n, interval)
    ensures r * interval <= n && (n > 0 ==> r * interval < n)
  {
    if n > 0 {
      var q := (n - 1) / interval;
      assert q * interval <= n - 1;
      Multiply(r, q, interval);
    }
  }

  lemma Multiply(a: nat, b: nat, c: nat)
    requires a <= b
    ensures a * c <= b * c
  {
  }

  function RestartOffset(items: seq<Item>, interval: nat, r: nat): nat
    requires interval > 0 && r < NumRestarts(|items|, interval)
  {
    RestartEntry(|items|, interval, r);
    Offset(items, interval, r * interval)
  }

  // The restart array from point r on.
  function RestartArray(items: seq<Item>, interval: nat, r: nat): (bs: seq<byte>)
    requires interval > 0 && r <= NumRestarts(|items|, interval)
    ensures |bs| == 4 * (NumRestarts(|items|, interval) - r)
    decreases NumRestarts(|items|, interval) - r
  {
    if r == NumRestarts(|items|, interval) then []
    else Fixed32(RestartOffset(items, interval, r)) + RestartArray(items, interval, r + 1)
  }

  // Finish
  function BlockBytes(items: seq<Item>, interval: nat): seq<byte>
    requires interval > 0
  {
    Data(items, interval, |items|) + RestartArray(items, interval, 0) + Fixed32(NumRestarts(|items|, interval))
  }

  // ---- Decoding ----

  datatype Header = NoHeader | Header(shared: nat, nonShared: nat, valueLength: nat, rest: seq<byte>)

  // DecodeEntry on the bytes from p to limit.
  function DecodeEntry(bs: seq<byte>): (h: Header)
    ensures h.Header? ==> h.nonShared + h.valueLength <= |h.rest|
  {
    var h := if |bs| < 3 then NoHeader
             else if bs[0] < 128 && bs[1] < 128 && bs[2] < 128 then
               // Fast path: all three values are encoded in one byte each.
               Header(bs[0] as nat, bs[1] as nat, bs[2] as nat, bs[3..])
             else DecodeSlowly(bs);
    if h.Header? && h.nonShared + h.valueLength <= |h.rest| then h else NoHeader
  }

  function DecodeSlowly(bs: seq<byte>): Header {
    var a := GetVarint32(bs);
    if a.Bad? then NoHeader
    else
      var b := GetVarint32(a.rest);
      if b.Bad? then NoHeader
      else
        var c := GetVarint32(b.rest);
        if c.Bad? then NoHeader else Header(a.value, b.value, c.value, c.rest)
  }

  // The fast path gives what the general one gives.
  lemma FastPathAgrees(bs: seq<byte>)
    requires |bs| >= 3 && bs[0] < 128 && bs[1] < 128 && bs[2] < 128
    ensures DecodeSlowly(bs) == Header(bs[0] as nat, bs[1] as nat, bs[2] as nat, bs[3..])
  {
    assert bs[1..][1..] == bs[2..] && bs[2..][1..] == bs[3..];
  }

  lemma EntryIsDecoded(shared: nat, e: Item, tail: seq<byte>)
    requires shared <= |e.key| < U32 && |e.value| < U32
    ensures DecodeEntry(EncodeEntry(shared, e) + tail) == Header(shared, |e.key| - shared, |e.value|, EntryBody(shared, e) + tail)
  {
    hide GetVarint32, Varint;
    var body := EntryBody(shared, e) + tail;
    Regroup(EntryHeader(shared, e), EntryBody(shared, e), tail);
    HeaderIsDecoded(shared, |e.key| - shared, |e.value|, body);
    var bs := EntryHeader(shared, e) + body;
    if bs[0] < 128 && bs[1] < 128 && bs[2] < 128 {
      FastPathAgrees(bs);
    }
  }

  lemma HeaderIsDecoded(a: nat, b: nat, c: nat, rest: seq<byte>)
    requires a < U32 && b < U32 && c < U32
    ensures DecodeSlowly(Varint(a) + Varint(b) + Varint(c) + rest) == Header(a, b, c, rest)
  {
    hide GetVarint32, Varint;
    Regroup(Varint(a) + Varint(b), Varint(c), rest);
    Regroup(Varint(a), Varint(b), Varint(c) + rest);
    Varint32RoundTrip(a, Varint(b) + (Varint(c) + rest));
    Varint32RoundTrip(b, Varint(c) + rest);
    Varint32RoundTrip(c, rest);
  }
}
