/**
  Table::InternalGet (table/table.cc): one block is looked at, and still the entry that a flat
  sorted list gives is reported whenever it has the user key that was asked for.
 */
module TableLookup {
  import opened Wrappers
  import opened Bytes
  import opened Coding
  import opened BlockFormat
  import opened Comparator
  import opened LogFormat
  import opened TableFooter
  import opened TableFormat
  import FB = FilterBlock
  import Bloom
  import BI = BlockIter

  // ---- Places in the flat list ----

  function Start(blocks: seq<seq<Item>>, m: nat): nat
    requires m <= |blocks|
  {
    |Flatten(blocks[..m])|
  }

  lemma {:induction false} FlattenPrefix(blocks: seq<seq<Item>>, m: nat)
    requires m <= |blocks|
    ensures Flatten(blocks[..m]) <= Flatten(blocks)
    decreases |blocks| - m
  {
    if m == |blocks| {
      assert blocks[..m] == blocks;
    } else {
      FlattenStep(blocks, m);
      FlattenPrefix(blocks, m + 1);
    }
  }

  lemma FlattenStep(blocks: seq<seq<Item>>, m: nat)
    requires m < |blocks|
    ensures Flatten(blocks[..m + 1]) == Flatten(blocks[..m]) + blocks[m]
  {
    assert blocks[..m + 1][..m] == blocks[..m];
  }

  lemma ItemAt(blocks: seq<seq<Item>>, m: nat, x: nat)
    requires m < |blocks| && x < |blocks[m]|
    ensures Start(blocks, m) + x < |Flatten(blocks)| && Flatten(blocks)[Start(blocks, m) + x] == blocks[m][x]
  {
    FlattenStep(blocks, m);
    FlattenPrefix(blocks, m + 1);
    assert Flatten(blocks[..m + 1])[Start(blocks, m) + x] == blocks[m][x];
  }

  lemma StartStep(blocks: seq<seq<Item>>, m: nat)
    requires m < |blocks|
    ensures Start(blocks, m + 1) == Start(blocks, m) + |blocks[m]|
    ensures Start(blocks, |blocks|) == |Flatten(blocks)|
  {
    FlattenStep(blocks, m);
    assert blocks[..|blocks|] == blocks;
  }

  lemma {:induction false} StartsGrow(blocks: seq<seq<Item>>, m: nat, n: nat)
    requires m <= n <= |blocks|
    ensures Start(blocks, m) <= Start(blocks, n)
  {
    if m < n {
      StartsGrow(blocks, m, n - 1);
      FlattenStep(blocks, n - 1);
    }
  }

  // Which block holds a place of the flat list before block n.
  lemma {:induction false} Locate(blocks: seq<seq<Item>>, n: nat, p: nat) returns (m: nat, x: nat)
    requires n <= |blocks| && p < Start(blocks, n)
    ensures m < n && x < |blocks[m]| && p == Start(blocks, m) + x
  {
    FlattenStep(blocks, n - 1);
    if p < Start(blocks, n - 1) {
      m, x := Locate(blocks, n - 1, p);
    } else {
      m, x := n - 1, p - Start(blocks, n - 1);
    }
  }

  // ---- Order ----

  lemma ItemsInOrder(blocks: seq<seq<Item>>, m: nat, x: nat, n: nat, y: nat)
    requires Increasing(InternalLess, Flatten(blocks)) && m < |blocks| && n < |blocks| && x < |blocks[m]| && y < |blocks[n]|
    requires m < n || (m == n && x < y)
    ensures InternalLess(blocks[m][x].key, blocks[n][y].key)
  {
    ItemAt(blocks, m, x);
    ItemAt(blocks, n, y);
    StartStep(blocks, m);
    if m < n {
      StartsGrow(blocks, m + 1, n);
    }
    hide InternalLess, Flatten;
  }

  lemma BlockInOrder(blocks: seq<seq<Item>>, m: nat)
    requires Increasing(InternalLess, Flatten(blocks)) && m < |blocks|
    ensures Increasing(InternalLess, blocks[m])
  {
    hide InternalLess;
    forall x, y | 0 <= x < y < |blocks[m]| ensures InternalLess(blocks[m][x].key, blocks[m][y].key) {
      ItemsInOrder(blocks, m, x, m, y);
    }
  }

  // An index key is not before any key of its block, and before every key of the next.
  lemma IndexBounds(index: seq<Item>, blocks: seq<seq<Item>>, handles: seq<BlockHandle>, i: nat, x: nat)
    requires |index| == |blocks| == |handles| && Chunked(blocks) && Indexed(index, blocks, handles)
    requires Increasing(InternalLess, Flatten(blocks)) && i < |blocks| && x < |blocks[i]|
    ensures |index[i].key| >= TAG_SIZE
    ensures blocks[i][x].key == index[i].key || InternalLess(blocks[i][x].key, index[i].key)
    ensures i + 1 < |blocks| ==> InternalLess(index[i].key, blocks[i + 1][0].key)
  {
    hide InternalLess, Flatten, Increasing, LexLess, IsSeparator;
    var last := |blocks[i]| - 1;
    SeparatorIsAfter(LastKey(blocks[i]), index[i].key);
    if x < last {
      ItemsInOrder(blocks, i, x, i, last);
    }
    if i + 1 < |blocks| {
      ItemsInOrder(blocks, i, last, i + 1, 0);
      SeparatorIsBefore(LastKey(blocks[i]), index[i].key, blocks[i + 1][0].key);
    }
    InternalIsOrder();
  }

  lemma IndexInOrder(index: seq<Item>, blocks: seq<seq<Item>>, handles: seq<BlockHandle>)
    requires |index| == |blocks| == |handles| && Chunked(blocks) && Indexed(index, blocks, handles)
    requires Increasing(InternalLess, Flatten(blocks))
    ensures Increasing(InternalLess, index)
  {
    hide InternalLess, Flatten, Indexed;
    forall i, j | 0 <= i < j < |index| ensures InternalLess(index[i].key, index[j].key) {
      InternalIsOrder();
      IndexBounds(index, blocks, handles, i, 0);
      if i + 1 < j {
        ItemsInOrder(blocks, i + 1, 0, j, 0);
      }
      IndexBounds(index, blocks, handles, j, 0);
    }
  }

  // ---- Lookup ----

  // The first item not before k.
  function Seek(items: seq<Item>, k: Key): (n: nat)
    ensures n <= |items|
  {
    BI.SeekItem(InternalLess, items, k)
  }

  lemma SeekFinds(items: seq<Item>, k: Key)
    ensures var n := Seek(items, k);
            (forall j :: 0 <= j < n ==> InternalLess(items[j].key, k)) && (n < |items| ==> !InternalLess(items[n].key, k))
  {
    hide InternalLess;
    var n := BI.SeekItem(InternalLess, items, k);
    forall j | 0 <= j < n ensures InternalLess(items[j].key, k) {
    }
  }

  lemma SeekIs(items: seq<Item>, k: Key, n: nat)
    requires n <= |items| && (forall j :: 0 <= j < n ==> InternalLess(items[j].key, k))
    requires n < |items| ==> !InternalLess(items[n].key, k)
    ensures Seek(items, k) == n
  {
    hide InternalLess;
    SeekFinds(items, k);
  }

  ghost predicate Answers(blocks: seq<seq<Item>>, k: Key, r: Option<Item>)
    requires |k| >= TAG_SIZE && Chunked(blocks)
  {
    var all := Flatten(blocks);
    var g := Seek(all, k);
    match r
    case Some(e) => g < |all| && e == all[g]
    case None => g < |all| ==> |all[g].key| >= TAG_SIZE && ExtractUserKey(all[g].key) != ExtractUserKey(k)
  }

  // All items before block n are before k, if the index keys are.
  lemma ItemsBefore(index: seq<Item>, blocks: seq<seq<Item>>, handles: seq<BlockHandle>, n: nat, k: Key)
    requires |index| == |blocks| == |handles| && Chunked(blocks) && Indexed(index, blocks, handles)
    requires Increasing(InternalLess, Flatten(blocks)) && n <= |blocks|
    requires forall i :: 0 <= i < n ==> InternalLess(index[i].key, k)
    ensures Start(blocks, n) <= |Flatten(blocks)|
    ensures forall p :: 0 <= p < Start(blocks, n) ==> InternalLess(Flatten(blocks)[p].key, k)
  {
    hide InternalLess, Flatten, Indexed, Increasing;
    FlattenPrefix(blocks, n);
    InternalIsOrder();
    forall p | 0 <= p < Start(blocks, n) ensures InternalLess(Flatten(blocks)[p].key, k) {
      var m, x := Locate(blocks, n, p);
      ItemAt(blocks, m, x);
      IndexBounds(index, blocks, handles, m, x);
    }
  }

  // Block i is the one the index leads to; j is the place found in it.
  lemma FoundInBlock(index: seq<Item>, blocks: seq<seq<Item>>, handles: seq<BlockHandle>, k: Key, i: nat, j: nat)
    requires |index| == |blocks| == |handles| && Chunked(blocks) && Indexed(index, blocks, handles) && |k| >= TAG_SIZE
    requires Increasing(InternalLess, Flatten(blocks))
    requires i == Seek(index, k) < |index| && j == Seek(blocks[i], k) < |blocks[i]|
    ensures Answers(blocks, k, Some(blocks[i][j]))
  {
    hide Flatten, InternalLess, Indexed, Increasing, Seek;
    SeekFinds(index, k);
    SeekFinds(blocks[i], k);
    ItemsBefore(index, blocks, handles, i, k);
    BeforeIn(blocks, i, j, k);
    ItemAt(blocks, i, j);
    SeekIs(Flatten(blocks), k, Start(blocks, i) + j);
  }

  lemma BeforeIn(blocks: seq<seq<Item>>, i: nat, j: nat, k: Key)
    requires i < |blocks| && j <= |blocks[i]| && Start(blocks, i) <= |Flatten(blocks)|
    requires forall p :: 0 <= p < Start(blocks, i) ==> InternalLess(Flatten(blocks)[p].key, k)
    requires forall x :: 0 <= x < j ==> InternalLess(blocks[i][x].key, k)
    ensures Start(blocks, i) + j <= |Flatten(blocks)|
    ensures forall p :: 0 <= p < Start(blocks, i) + j ==> InternalLess(Flatten(blocks)[p].key, k)
  {
    StartStep(blocks, i);
    StartsGrow(blocks, i + 1, |blocks|);
    hide InternalLess;
    forall p | Start(blocks, i) <= p < Start(blocks, i) + j ensures InternalLess(Flatten(blocks)[p].key, k) {
      ItemAt(blocks, i, p - Start(blocks, i));
    }
  }

  // Nothing in the block: then the next entry, if there is one, has another user key.
  lemma NotInBlock(index: seq<Item>, blocks: seq<seq<Item>>, handles: seq<BlockHandle>, k: Key, i: nat)
    requires |index| == |blocks| == |handles| && Chunked(blocks) && Indexed(index, blocks, handles) && |k| >= TAG_SIZE
    requires Increasing(InternalLess, Flatten(blocks))
    requires i == Seek(index, k) < |index| && Seek(blocks[i], k) == |blocks[i]|
    ensures Answers(blocks, k, None)
  {
    hide Flatten, InternalLess, Increasing, Seek, Start, IsSeparator, Apart;
    SeekFinds(index, k);
    SeekFinds(blocks[i], k);
    ItemsBefore(index, blocks, handles, i, k);
    BeforeIn(blocks, i, |blocks[i]|, k);
    StartStep(blocks, i);
    var g := Start(blocks, i + 1);
    if i + 1 < |blocks| {
      ItemAt(blocks, i + 1, 0);
      var last, r, next := LastKey(blocks[i]), index[i].key, blocks[i + 1][0].key;
      IndexBounds(index, blocks, handles, i, 0);
      assert InternalLess(blocks[i][|blocks[i]| - 1].key, k);
      BetweenSeparated(last, r, next, k);
    }
    SeekIs(Flatten(blocks), k, g);
  }

  // A key after the last key of a block, and not after its separator, has neither the user key of
  // the next block's first key nor a place behind it.
  lemma BetweenSeparated(last: Key, r: Key, next: Key, k: Key)
    requires |last| >= TAG_SIZE && |r| >= TAG_SIZE && |next| >= TAG_SIZE && |k| >= TAG_SIZE
    requires InternalLess(last, k) && !InternalLess(r, k) && InternalLess(r, next)
    requires IsSeparator(last, r) && Apart(last, r, next)
    ensures !InternalLess(next, k) && ExtractUserKey(next) != ExtractUserKey(k)
  {
    hide IsInternalSeparator;
    InternalIsOrder();
    assert r != last;
    var u, v, w := ExtractUserKey(k), ExtractUserKey(r), ExtractUserKey(next);
    LexTotal(u, v);
    if ExtractUserKey(k) == w {
      LexIrreflexive(v);
      if LexLess(u, v) {
        LexTransitive(v, w, v);
      }
    }
    hide LexLess;
  }

  lemma NotIndexed(index: seq<Item>, blocks: seq<seq<Item>>, handles: seq<BlockHandle>, k: Key)
    requires |index| == |blocks| == |handles| && Chunked(blocks) && Indexed(index, blocks, handles) && |k| >= TAG_SIZE
    requires Increasing(InternalLess, Flatten(blocks)) && Seek(index, k) == |index|
    ensures Answers(blocks, k, None)
  {
    hide InternalLess, Indexed, Increasing, Seek;
    SeekFinds(index, k);
    ItemsBefore(index, blocks, handles, |blocks|, k);
    assert blocks[..|blocks|] == blocks;
    SeekIs(Flatten(blocks), k, |Flatten(blocks)|);
  }

  // ReadBlock: the block at the handle, unless the file ends before it, its checksum is wrong, or it is of
  // another type.
  method ReadBlock(crc: Crc, file: seq<byte>, verify: bool, handle: BlockHandle, ghost bytes: seq<byte>) returns (contents: Option<seq<byte>>)
    requires HoldsAt(crc, file, handle, bytes)
    ensures contents == Some(bytes)
  {
    hide Value, Mask, Unmask;
    var n := handle.size;
    if |file| < handle.offset + n + BLOCK_TRAILER_SIZE {
      return None;
    }
    var data := file[handle.offset..handle.offset + n + BLOCK_TRAILER_SIZE];
    BlockRead(crc, file, handle, bytes);
    if verify {
      var stored := DecodeFixed32(data[n + 1..]);
      var actual := Value(crc, data[..n + 1]);
      if stored >= U32 || Unmask(stored) != actual {
        return None;
      }
    }
    if data[n] != 0 {
      return None;
    }
    contents := Some(data[..n]);
  }

  lemma BlockRead(crc: Crc, file: seq<byte>, handle: BlockHandle, bytes: seq<byte>)
    requires HoldsAt(crc, file, handle, bytes)
    ensures var n := handle.size;
      && handle.offset + n + BLOCK_TRAILER_SIZE <= |file|
      && var data := file[handle.offset..handle.offset + n + BLOCK_TRAILER_SIZE];
         data[..n] == bytes && data[n] == 0 && data[..n + 1] == bytes + [0] &&
         DecodeFixed32(data[n + 1..]) == Mask(Value(crc, bytes + [0])) && Unmask(Mask(Value(crc, bytes + [0]))) == Value(crc, bytes + [0])
  {
    hide Value, Mask, Unmask, Fixed32, DecodeFixed32;
    var c := Value(crc, bytes + [0]);
    var data := file[handle.offset..handle.offset + handle.size + BLOCK_TRAILER_SIZE];
    assert data == bytes + TrailerBytes(crc, bytes);
    assert data[handle.size + 1..] == Fixed32(Mask(c)) + [];
    Fixed32RoundTrip(Mask(c), []);
    UnmaskMask(c);
  }

  // FilterBlockReader::KeyMayMatch depends on the hash of the key only.
  lemma SameHash(hash: Bloom.KeyHash, contents: seq<byte>, blockOffset: nat, a: Key, b: Key)
    requires Bloom.HashFits(hash) && hash(a) == hash(b)
    ensures FB.MatchAt(hash, contents, blockOffset, a) == FB.MatchAt(hash, contents, blockOffset, b)
  {
  }

  // A key the filter rejects has no entry of its user key in the block, so nothing is missed.
  lemma Rejected(index: seq<Item>, blocks: seq<seq<Item>>, handles: seq<BlockHandle>, hash: Bloom.KeyHash, filter: seq<byte>, k: Key, i: nat)
    requires |index| == |blocks| == |handles| && Chunked(blocks) && Indexed(index, blocks, handles) && |k| >= TAG_SIZE
    requires Increasing(InternalLess, Flatten(blocks)) && i == Seek(index, k) < |index|
    requires NeverMisses(InternalHash(hash), filter, blocks, handles)
    requires !FB.MatchAt(InternalHash(hash), filter, handles[i].offset, k)
    ensures Answers(blocks, k, None)
  {
    hide Flatten, InternalLess, Indexed, Increasing, Seek, FB.MatchAt;
    var j := Seek(blocks[i], k);
    if j == |blocks[i]| {
      NotInBlock(index, blocks, handles, k, i);
    } else {
      FoundInBlock(index, blocks, handles, k, i, j);
      var e := blocks[i][j];
      assert InternalKeys(blocks[i]) && e in blocks[i];
      if ExtractUserKey(e.key) == ExtractUserKey(k) {
        SameHash(InternalHash(hash), filter, handles[i].offset, e.key, k);
        assert false;
      }
    }
  }

  method InternalGet(crc: Crc, file: seq<byte>, verify: bool, indexBlock: seq<byte>, filter: Option<seq<byte>>, hash: Bloom.KeyHash, k: Key,
                     ghost interval: nat, ghost index: seq<Item>, ghost blocks: seq<seq<Item>>, ghost handles: seq<BlockHandle>)
    returns (r: Option<Item>)
    requires AllIndexed(crc, file, interval, index, blocks, handles) && indexBlock == BlockBytes(index, 1) && |k| >= TAG_SIZE && |file| < U64
    requires BI.Sizes(index, 1) && forall i :: 0 <= i < |blocks| ==> BI.Sizes(blocks[i], interval)
    requires filter.Some? ==> NeverMisses(InternalHash(hash), filter.value, blocks, handles)
    ensures Answers(blocks, k, r)
  {
    hide Flatten, InternalLess, BlockBytes, BI.Sizes, Answers, Increasing, Indexed, HoldsAt, BI.SeekItem, FB.MatchAt;
    InternalIsOrder();
    IndexInOrder(index, blocks, handles);
    var iiter := new BI.BlockIter(InternalLess, indexBlock, index, 1);
    iiter.Seek(k);
    iiter.ValidIff();
    if !iiter.Valid() {
      NotIndexed(index, blocks, handles, k);
      return None;
    }
    ghost var i := iiter.pos.value;
    var value := iiter.Value();
    HandleOf(crc, file, index, blocks, handles, interval, i);
    var handle := GetHandle(value);
    if filter.Some? && handle.Got? && !FB.MatchAt(InternalHash(hash), filter.value, handle.value.offset, k) {
      Rejected(index, blocks, handles, hash, filter.value, k, i);
      return None;
    }
    r := LookInBlock(crc, file, verify, handle.value, k, interval, index, blocks, handles, i);
  }

  // BlockReader, and the seek in the block it opens.
  method LookInBlock(crc: Crc, file: seq<byte>, verify: bool, handle: BlockHandle, k: Key, ghost interval: nat, ghost index: seq<Item>,
                     ghost blocks: seq<seq<Item>>, ghost handles: seq<BlockHandle>, ghost i: nat)
    returns (r: Option<Item>)
    requires AllIndexed(crc, file, interval, index, blocks, handles) && |k| >= TAG_SIZE && i == Seek(index, k) < |index|
    requires handle == handles[i] && BI.Sizes(blocks[i], interval)
    ensures Answers(blocks, k, r)
  {
    hide Flatten, InternalLess, BlockBytes, BI.Sizes, Answers, Increasing, Indexed, HoldsAt, BI.SeekItem;
    InternalIsOrder();
    var contents := ReadBlock(crc, file, verify, handle, BlockBytes(blocks[i], interval));
    var blockIter := new BI.BlockIter(InternalLess, contents.value, blocks[i], interval);
    BlockInOrder(blocks, i);
    blockIter.Seek(k);
    blockIter.ValidIff();
    if !blockIter.Valid() {
      NotInBlock(index, blocks, handles, k, i);
      return None;
    }
    var key := blockIter.Key();
    var v := blockIter.Value();
    r := Some(Item(key, v));
    FoundInBlock(index, blocks, handles, k, i, blockIter.pos.value);
  }

  // ---- Opening a table ----

  lemma LexIsOrder()
    ensures TotalOrder(LexLess)
  {
    forall a ensures !LexLess(a, a) {
      LexIrreflexive(a);
    }
    forall a, b, c | LexLess(a, b) && LexLess(b, c) ensures LexLess(a, c) {
      LexTransitive(a, b, c);
    }
    forall a, b ensures LexLess(a, b) || a == b || LexLess(b, a) {
      LexTotal(a, b);
    }
    hide LexLess;
  }

  // Table::ReadMeta and Table::ReadFilter: the filter of the reader's policy, if the table has it.
  method ReadMeta(crc: Crc, file: seq<byte>, paranoid: bool, metaHandle: BlockHandle, reader: Option<FilterPolicy>,
                  ghost interval: nat, ghost policy: Option<FilterPolicy>, ghost t: Layout)
    returns (filter: Option<seq<byte>>)
    requires interval >= 1 && BI.Sizes(MetaItems(policy, t.filterHandle), interval) && |file| < U64
    requires HoldsAt(crc, file, metaHandle, BlockBytes(MetaItems(policy, t.filterHandle), interval))
    requires policy.Some? ==> t.filter.Some? && HoldsAt(crc, file, t.filterHandle, t.filter.value)
    ensures filter == if reader.Some? && policy.Some? && reader.value.name == policy.value.name then t.filter else None
  {
    hide LexLess, BlockBytes, BI.Sizes;
    if reader.None? {
      return None;
    }
    ghost var items := MetaItems(policy, t.filterHandle);
    LexIsOrder();
    var contents := ReadBlock(crc, file, paranoid, metaHandle, BlockBytes(items, interval));
    if contents.None? {
      return None;
    }
    var iter := new BI.BlockIter(LexLess, contents.value, items, interval);
    var name := reader.value.name;
    iter.Seek(name);
    iter.ValidIff();
    if !iter.Valid() {
      OnlyItem(items, name);
      return None;
    }
    var key := iter.Key();
    if key != name {
      return None;
    }
    var value := iter.Value();
    HandleRoundTrip(t.filterHandle, []);
    assert EncodeHandle(t.filterHandle) + [] == EncodeHandle(t.filterHandle);
    var handle := GetHandle(value);
    if handle.Bad? {
      return None;
    }
    filter := ReadBlock(crc, file, paranoid, handle.value, t.filter.value);
  }

  // A seek that finds nothing in a list of at most one passed its item.
  lemma OnlyItem(items: seq<Item>, name: Key)
    requires |items| <= 1 && BI.SeekItem(LexLess, items, name) == |items|
    ensures items != [] ==> items[0].key != name
  {
    LexIrreflexive(name);
  }

  // Table::Open: where the index is, and the filter.
  method Open(crc: Crc, file: seq<byte>, paranoid: bool, reader: Option<FilterPolicy>, ghost interval: nat, ghost policy: Option<FilterPolicy>, ghost t: Layout,
              ghost blocks: seq<seq<Item>>, ghost handles: seq<BlockHandle>)
    returns (r: Option<(seq<byte>, Option<seq<byte>>)>)
    requires IsTableFile(crc, file, interval, policy, t, blocks, handles) && |file| < U64
    requires BI.Sizes(MetaItems(policy, t.filterHandle), interval)
    ensures r == Some((BlockBytes(t.index, 1), if reader.Some? && policy.Some? && reader.value.name == policy.value.name then t.filter else None))
  {
    hide FooterBytes, DecodeFooter, Stored, Indexed, Increasing, Flatten, BlockBytes, NeverMisses, IsFilterOf, BI.Sizes, MetaItems;
    if |file| < FOOTER_LENGTH {
      return None;
    }
    FooterRoundTrip(t.metaHandle, t.indexHandle);
    var footer := DecodeFooter(file[|file| - FOOTER_LENGTH..]);
    if footer.None? {
      return None;
    }
    var indexBlock := ReadBlock(crc, file, paranoid, footer.value.1, BlockBytes(t.index, 1));
    if indexBlock.None? {
      return None;
    }
    var filter := ReadMeta(crc, file, paranoid, footer.value.0, reader, interval, policy, t);
    r := Some((indexBlock.value, filter));
  }

  // From the bytes that the builder left to the answer.
  method OpenAndGet(crc: Crc, file: seq<byte>, paranoid: bool, verify: bool, policy: Option<FilterPolicy>, k: Key, ghost interval: nat, ghost t: Layout,
                    ghost blocks: seq<seq<Item>>, ghost handles: seq<BlockHandle>)
    returns (r: Option<Item>)
    requires IsTableFile(crc, file, interval, policy, t, blocks, handles) && |file| < U64 && |k| >= TAG_SIZE
    requires BI.Sizes(MetaItems(policy, t.filterHandle), interval)
    requires BI.Sizes(t.index, 1) && forall i :: 0 <= i < |blocks| ==> BI.Sizes(blocks[i], interval)
    requires t.filter.Some? ==> |t.filter.value| < U32
    ensures Answers(blocks, k, r)
  {
    hide FooterBytes, AllIndexed, BlockBytes, NeverMisses, IsFilterOf, BI.Sizes, MetaItems, HoldsAt, Answers;
    var table := Open(crc, file, paranoid, policy, interval, policy, t, blocks, handles);
    r := InternalGet(crc, file, verify, table.value.0, table.value.1, if policy.Some? then policy.value.hash else _ => 0, k, interval, t.index, blocks, handles);
  }

  // The handle in an index entry is the place of its block.
  lemma HandleOf(crc: Crc, file: seq<byte>, index: seq<Item>, blocks: seq<seq<Item>>, handles: seq<BlockHandle>, interval: nat, i: nat)
    requires AllIndexed(crc, file, interval, index, blocks, handles) && i < |index| && |file| < U64
    ensures GetHandle(index[i].value) == Got(handles[i], []) && HoldsAt(crc, file, handles[i], BlockBytes(blocks[i], interval))
  {
    hide Flatten, Increasing, BlockBytes;
    assert HoldsAt(crc, file, handles[i], BlockBytes(blocks[i], interval));
    HandleRoundTrip(handles[i], []);
    assert EncodeHandle(handles[i]) + [] == EncodeHandle(handles[i]);
  }
}
