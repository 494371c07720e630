/** Block handles, the footer, and what the metaindex block says (table/format.cc, table/table_builder.cc). */
module TableFooter {
  import opened Wrappers
  import opened Bytes
  import opened Coding
  import opened BlockFormat
  import Comparator
  import Bloom

  // ---- Block handles ----

  datatype BlockHandle = BlockHandle(offset: nat, size: nat)

  function EncodeHandle(h: BlockHandle): seq<byte> {
    Varint(h.offset) + Varint(h.size)
  }

  // BlockHandle::DecodeFrom
  function GetHandle(bs: seq<byte>): Input<BlockHandle> {
    var a := GetVarint64(bs);
    if a.Bad? then Bad
    else
      var b := GetVarint64(a.rest);
      if b.Bad? then Bad else Got(BlockHandle(a.value, b.value), b.rest)
  }

  lemma HandleRoundTrip(h: BlockHandle, tail: seq<byte>)
    requires h.offset < U64 && h.size < U64
    ensures GetHandle(EncodeHandle(h) + tail) == Got(h, tail)
  {
    hide GetVarint64, Varint;
    Regroup(Varint(h.offset), Varint(h.size), tail);
    Varint64RoundTrip(h.offset, Varint(h.size) + tail);
    Varint64RoundTrip(h.size, tail);
  }

  lemma HandleLength(h: BlockHandle)
    requires h.offset < U64 && h.size < U64
    ensures |EncodeHandle(h)| <= MAX_HANDLE_LENGTH
  {
    TenGroups();
    VarintLength(h.offset, 10);
    VarintLength(h.size, 10);
  }

  lemma TenGroups()
    ensures U64 <= Pow2(70)
  {
    WordSizes();
    Pow2Add(64, 6);
  }

  // kMaxEncodedLength, and kEncodedLength of a footer.
  const MAX_HANDLE_LENGTH: nat := 20
  const FOOTER_LENGTH: nat := 48

  // The halves of kTableMagicNumber.
  const MAGIC_LOW: nat := 0x8b80_fb57
  const MAGIC_HIGH: nat := 0xdb47_7524

  // ---- Footers ----

  // std::string::resize
  function Resized(bs: seq<byte>, n: nat): (r: seq<byte>)
    ensures |r| == n
  {
    if |bs| >= n then bs[..n] else bs + seq(n - |bs|, _ => 0)
  }

  function FooterBytes(meta: BlockHandle, index: BlockHandle): (bs: seq<byte>)
    ensures |bs| == FOOTER_LENGTH
  {
    Resized(EncodeHandle(meta) + EncodeHandle(index), 2 * MAX_HANDLE_LENGTH) + Fixed32(MAGIC_LOW) + Fixed32(MAGIC_HIGH)
  }

  // Footer::DecodeFrom: the metaindex handle and the index handle.
  function DecodeFooter(bs: seq<byte>): Option<(BlockHandle, BlockHandle)>
    requires |bs| == FOOTER_LENGTH
  {
    if DecodeFixed32(bs[2 * MAX_HANDLE_LENGTH..]) != MAGIC_LOW || DecodeFixed32(bs[2 * MAX_HANDLE_LENGTH + 4..]) != MAGIC_HIGH then None
    else
      var meta := GetHandle(bs);
      if meta.Bad? then None
      else
        var index := GetHandle(meta.rest);
        if index.Bad? then None else Some((meta.value, index.value))
  }

  lemma FooterRoundTrip(meta: BlockHandle, index: BlockHandle)
    requires meta.offset < U64 && meta.size < U64 && index.offset < U64 && index.size < U64
    ensures DecodeFooter(FooterBytes(meta, index)) == Some((meta, index))
  {
    hide EncodeHandle, GetHandle, Fixed32, DecodeFixed32;
    HandleLength(meta);
    HandleLength(index);
    var handles := EncodeHandle(meta) + EncodeHandle(index);
    var padding := seq(2 * MAX_HANDLE_LENGTH - |handles|, _ => 0 as byte);
    var low, high := Fixed32(MAGIC_LOW), Fixed32(MAGIC_HIGH);
    var bs := FooterBytes(meta, index);
    assert bs == handles + padding + low + high;
    assert bs[2 * MAX_HANDLE_LENGTH..] == low + high && bs[2 * MAX_HANDLE_LENGTH + 4..] == high + [];
    Fixed32RoundTrip(MAGIC_LOW, high);
    Fixed32RoundTrip(MAGIC_HIGH, []);
    HandleRoundTrip(meta, EncodeHandle(index) + (padding + low + high));
    HandleRoundTrip(index, padding + low + high);
    assert bs == EncodeHandle(meta) + (EncodeHandle(index) + (padding + low + high));
  }

  // ---- The filter entry of the metaindex block ----

  // A filter policy: the key of its metaindex entry, and the Bloom filter it makes of user keys.
  datatype FilterPolicy = FilterPolicy(name: Key, hash: Bloom.KeyHash, bitsPerKey: nat)

  ghost predicate PolicyOk(policy: Option<FilterPolicy>) {
    policy.Some? ==> Bloom.HashFits(policy.value.hash)
  }

  // InternalFilterPolicy: what is hashed of an internal key is its user key.
  function InternalHash(hash: Bloom.KeyHash): Bloom.KeyHash {
    (k: Key) => UserKeyHash(hash, k)
  }

  function UserKeyHash(hash: Bloom.KeyHash, k: Key): nat {
    if |k| >= Comparator.TAG_SIZE then hash(Comparator.ExtractUserKey(k)) else 0
  }

  lemma InternalHashFits(hash: Bloom.KeyHash)
    requires Bloom.HashFits(hash)
    ensures Bloom.HashFits(InternalHash(hash))
  {
  }

  function MetaItems(policy: Option<FilterPolicy>, filter: BlockHandle): seq<Item> {
    if policy.Some? then [Item(policy.value.name, EncodeHandle(filter))] else []
  }
}
