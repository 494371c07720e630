/**
  Tables of internal keys: TableBuilder (table/table_builder.cc) and Table::InternalGet
  (table/table.cc).  A lookup in the one block the index leads to agrees with a flat sorted list.
 */
module TableFormat {
  import opened Wrappers
  import opened Bytes
  import opened Coding
  import opened BlockFormat
  import opened Comparator
  import opened LogFormat
  import opened TableFooter
  import FB = FilterBlock
  import Bloom
  import BB = BlockBuilder
  import BI = BlockIter

  // ---- What a table file holds ----

  function Flatten(blocks: seq<seq<Item>>): seq<Item> {
    if blocks == [] then [] else Flatten(blocks[..|blocks| - 1]) + blocks[|blocks| - 1]
  }

  predicate InternalKeys(items: seq<Item>) {
    forall i :: 0 <= i < |items| ==> |items[i].key| >= TAG_SIZE
  }

  // A block, and the trailer behind it: its type, which is 0 without compression, and the masked checksum
  // of the block and its type.
  ghost predicate HoldsAt(crc: Crc, file: seq<byte>, h: BlockHandle, bytes: seq<byte>) {
    h.size == |bytes| && h.offset <= |file| && bytes + TrailerBytes(crc, bytes) <= file[h.offset..]
  }

  function TrailerBytes(crc: Crc, bytes: seq<byte>): (trailer: seq<byte>)
    ensures |trailer| == BLOCK_TRAILER_SIZE
  {
    [0] + Fixed32(Mask(Value(crc, bytes + [0])))
  }

  // kBlockTrailerSize
  const BLOCK_TRAILER_SIZE: nat := 5

  ghost predicate Stored(crc: Crc, file: seq<byte>, interval: nat, blocks: seq<seq<Item>>, handles: seq<BlockHandle>)
    requires interval > 0
  {
    && |handles| == |blocks|
    && forall i :: 0 <= i < |blocks| ==> HoldsAt(crc, file, handles[i], BlockBytes(blocks[i], interval))
  }

  ghost predicate Chunked(chunks: seq<seq<Item>>) {
    forall i :: 0 <= i < |chunks| ==> chunks[i] != [] && InternalKeys(chunks[i])
  }

  function LastKey(block: seq<Item>): Key
    requires block != []
  {
    block[|block| - 1].key
  }

  // Index entry i names the place of chunk i, and keeps it apart from the next by the shortest separator.
  ghost predicate Indexed(index: seq<Item>, chunks: seq<seq<Item>>, handles: seq<BlockHandle>)
    requires |index| <= |chunks| && |index| <= |handles| && Chunked(chunks)
  {
    && InternalKeys(index)
    && (forall i :: 0 <= i < |index| ==> index[i].value == EncodeHandle(handles[i]))
    && (forall i :: 0 <= i < |index| ==> IsSeparator(LastKey(chunks[i]), index[i].key))
    && forall i :: 0 <= i < |index| && i + 1 < |chunks| ==> Apart(LastKey(chunks[i]), index[i].key, chunks[i + 1][0].key)
  }

  ghost predicate Apart(last: Key, r: Key, next: Key)
    requires |last| >= TAG_SIZE && |r| >= TAG_SIZE && |next| >= TAG_SIZE
  {
    (r == last || LexLess(ExtractUserKey(r), ExtractUserKey(next))) && IsInternalSeparator(last, next, r)
  }

  // All blocks are written, and all are indexed.
  ghost predicate AllIndexed(crc: Crc, file: seq<byte>, interval: nat, index: seq<Item>, blocks: seq<seq<Item>>, handles: seq<BlockHandle>) {
    && interval > 0
    && Stored(crc, file, interval, blocks, handles) && Chunked(blocks)
    && |index| == |blocks| && Indexed(index, blocks, handles)
    && Increasing(InternalLess, Flatten(blocks))
  }

  // A finished table: the index itself is in the file too.
  ghost predicate IsTable(crc: Crc, file: seq<byte>, interval: nat, indexHandle: BlockHandle, index: seq<Item>,
                          blocks: seq<seq<Item>>, handles: seq<BlockHandle>) {
    AllIndexed(crc, file, interval, index, blocks, handles) && HoldsAt(crc, file, indexHandle, BlockBytes(index, 1))
  }

  // ---- A whole table file ----

  // What else is in the file, and where.
  datatype Layout = Layout(filter: Option<seq<byte>>, filterHandle: BlockHandle, metaHandle: BlockHandle,
                           indexHandle: BlockHandle, index: seq<Item>)

  // No key of a block is missed by the filter that is read at the place of the block.
  ghost predicate NeverMisses(hash: Bloom.KeyHash, contents: seq<byte>, blocks: seq<seq<Item>>, handles: seq<BlockHandle>) {
    && Bloom.HashFits(hash) && |blocks| == |handles|
    && forall i, e :: 0 <= i < |blocks| && e in blocks[i] ==> FB.MatchAt(hash, contents, handles[i].offset, e.key)
  }

  // The keys of the blocks that start within the same two kilobytes, in order.
  ghost function KeysAt(blocks: seq<seq<Item>>, handles: seq<BlockHandle>, i: nat): seq<Key>
    requires |blocks| == |handles|
  {
    if blocks == [] then []
    else
      var n := |blocks| - 1;
      KeysAt(blocks[..n], handles[..n], i) + if handles[n].offset / FB.FILTER_BASE == i then KeysOf(blocks[n]) else []
  }

  ghost function KeysOf(items: seq<Item>): (keys: seq<Key>)
    ensures |keys| == |items|
  {
    seq(|items|, i requires 0 <= i < |items| => items[i].key)
  }

  // At the place of a block the filter lets exactly those keys pass that a filter of all keys there would.
  ghost predicate IsFilterOf(policy: FilterPolicy, contents: seq<byte>, blocks: seq<seq<Item>>, handles: seq<BlockHandle>) {
    && Bloom.HashFits(InternalHash(policy.hash)) && |blocks| == |handles|
    && forall m, key :: 0 <= m < |blocks| ==>
         (FB.MatchAt(InternalHash(policy.hash), contents, handles[m].offset, key) <==>
          FB.Passes(InternalHash(policy.hash), KeysAt(blocks, handles, handles[m].offset / FB.FILTER_BASE), policy.bitsPerKey,
                    Bloom.Probes(policy.bitsPerKey), key))
  }

  ghost predicate FilterStored(crc: Crc, file: seq<byte>, policy: Option<FilterPolicy>, t: Layout, blocks: seq<seq<Item>>, handles: seq<BlockHandle>) {
    && PolicyOk(policy) && (t.filter.Some? <==> policy.Some?)
    && (policy.Some? ==>
          && HoldsAt(crc, file, t.filterHandle, t.filter.value)
          && (|t.filter.value| < U32 ==>
                NeverMisses(InternalHash(policy.value.hash), t.filter.value, blocks, handles) && IsFilterOf(policy.value, t.filter.value, blocks, handles)))
  }

  ghost predicate EndsIn(file: seq<byte>, bytes: seq<byte>) {
    |bytes| <= |file| && file[|file| - |bytes|..] == bytes
  }

  ghost predicate IsTableFile(crc: Crc, file: seq<byte>, interval: nat, policy: Option<FilterPolicy>, t: Layout,
                              blocks: seq<seq<Item>>, handles: seq<BlockHandle>) {
    && IsTable(crc, file, interval, t.indexHandle, t.index, blocks, handles)
    && HoldsAt(crc, file, t.metaHandle, BlockBytes(MetaItems(policy, t.filterHandle), interval))
    && FilterStored(crc, file, policy, t, blocks, handles)
    && EndsIn(file, FooterBytes(t.metaHandle, t.indexHandle))
  }

  // While a table is built: the filter builder has the keys of each block under the place of the
  // block, and those of the block being filled under the place where that will start.
  ghost predicate Covers(keysOf: seq<seq<Key>>, pending: seq<Key>, blocks: seq<seq<Item>>, handles: seq<BlockHandle>,
                         items: seq<Item>, size: nat) {
    && |keysOf| == size / FB.FILTER_BASE && |handles| == |blocks|
    && (forall m :: 0 <= m < |handles| ==> handles[m].offset <= size)
    && (forall i :: 0 <= i < |keysOf| ==> keysOf[i] == KeysAt(blocks, handles, i))
    && pending == KeysAt(blocks, handles, |keysOf|) + KeysOf(items)
  }

  lemma CoversKey(keysOf: seq<seq<Key>>, pending: seq<Key>, blocks: seq<seq<Item>>, handles: seq<BlockHandle>,
                  items: seq<Item>, size: nat, e: Item)
    requires Covers(keysOf, pending, blocks, handles, items, size)
    ensures Covers(keysOf, pending + [e.key], blocks, handles, items + [e], size)
  {
    assert KeysOf(items + [e]) == KeysOf(items) + [e.key];
    hide KeysAt;
  }

  lemma KeysAtMore(blocks: seq<seq<Item>>, handles: seq<BlockHandle>, items: seq<Item>, handle: BlockHandle, i: nat)
    requires |blocks| == |handles|
    ensures KeysAt(blocks + [items], handles + [handle], i) ==
              KeysAt(blocks, handles, i) + if handle.offset / FB.FILTER_BASE == i then KeysOf(items) else []
  {
    var n := |blocks|;
    assert (blocks + [items])[..n] == blocks && (handles + [handle])[..n] == handles;
    hide KeysOf;
  }

  lemma {:induction false} NoKeysLater(blocks: seq<seq<Item>>, handles: seq<BlockHandle>, i: nat)
    requires |blocks| == |handles| && forall m :: 0 <= m < |handles| ==> handles[m].offset / FB.FILTER_BASE < i
    ensures KeysAt(blocks, handles, i) == []
  {
    if blocks != [] {
      NoKeysLater(blocks[..|blocks| - 1], handles[..|blocks| - 1], i);
    }
  }

  lemma CoversBlock(keysOf: seq<seq<Key>>, pending: seq<Key>, blocks: seq<seq<Item>>, handles: seq<BlockHandle>,
                    items: seq<Item>, handle: BlockHandle, size: nat)
    requires Covers(keysOf, pending, blocks, handles, items, handle.offset) && handle.offset <= size
    ensures var s := FB.Started(keysOf, pending, size / FB.FILTER_BASE);
            Covers(s.0, s.1, blocks + [items], handles + [handle], [], size)
  {
    hide KeysAt, KeysOf;
    var n, blocks', handles' := size / FB.FILTER_BASE, blocks + [items], handles + [handle];
    InOrder(handle.offset, size);
    NoKeysOf();
    var s := FB.Started(keysOf, pending, n);
    forall i | 0 <= i <= n ensures KeysAt(blocks', handles', i) == if i < |s.0| then s.0[i] else s.1 {
      KeysAtMore(blocks, handles, items, handle, i);
      if i > |keysOf| {
        forall m | 0 <= m < |handles'| ensures handles'[m].offset / FB.FILTER_BASE < i {
          InOrder(handles'[m].offset, handle.offset);
        }
        NoKeysLater(blocks', handles', i);
      }
    }
    assert KeysAt(blocks', handles', n) + [] == KeysAt(blocks', handles', n);
  }

  lemma NoKeysOf()
    ensures KeysOf([]) == []
  {
  }

  lemma InOrder(a: nat, b: nat)
    requires a <= b
    ensures a / FB.FILTER_BASE <= b / FB.FILTER_BASE
  {
  }

  lemma {:induction false} BlockKeysThere(blocks: seq<seq<Item>>, handles: seq<BlockHandle>, m: nat, e: Item)
    requires |blocks| == |handles| && m < |blocks| && e in blocks[m]
    ensures e.key in KeysAt(blocks, handles, handles[m].offset / FB.FILTER_BASE)
  {
    var n := |blocks| - 1;
    if m == n {
      var i :| 0 <= i < |blocks[n]| && blocks[n][i] == e;
      assert KeysOf(blocks[n])[i] == e.key;
    } else {
      BlockKeysThere(blocks[..n], handles[..n], m, e);
    }
  }

  // Where the keys of a block are when the filter is finished.
  lemma FilterOfBlock(keysOf: seq<seq<Key>>, pending: seq<Key>, all: seq<seq<Key>>, blocks: seq<seq<Item>>, handles: seq<BlockHandle>,
                      size: nat, m: nat)
    requires Covers(keysOf, pending, blocks, handles, [], size) && m < |blocks| && blocks[m] != []
    requires all == if pending == [] then keysOf else keysOf + [pending]
    ensures var i := handles[m].offset / FB.FILTER_BASE; i < |all| && all[i] == KeysAt(blocks, handles, i)
  {
    hide KeysAt, KeysOf;
    InOrder(handles[m].offset, size);
    NoKeysOf();
    BlockKeysThere(blocks, handles, m, blocks[m][0]);
    assert KeysAt(blocks, handles, |keysOf|) + [] == KeysAt(blocks, handles, |keysOf|);
  }

  // ---- Building ----

  // What a builder has: the blocks written and their places, the items of the data block being
  // filled, and the index entries; the entry of the last block waits for the next key.
  datatype Build = Build(file: seq<byte>, blocks: seq<seq<Item>>, handles: seq<BlockHandle>, items: seq<Item>,
                         index: seq<Item>, pending: bool, pendingHandle: BlockHandle, lastKey: Key)

  function Chunks(b: Build): seq<seq<Item>> {
    if b.items == [] then b.blocks else b.blocks + [b.items]
  }

  ghost predicate BuildOk(crc: Crc, b: Build, interval: nat)
    requires interval > 0
  {
    && Stored(crc, b.file, interval, b.blocks, b.handles) && Chunked(Chunks(b))
    && |b.index| == (if b.pending then |b.blocks| - 1 else |b.blocks|)
    && Indexed(b.index, Chunks(b), b.handles)
    && (b.pending ==> b.blocks != [] && b.items == [] && b.pendingHandle == b.handles[|b.blocks| - 1])
    && (!b.pending ==> b.blocks == [] || b.items != [])
    && Increasing(InternalLess, Flatten(Chunks(b)))
    && (Chunks(b) != [] ==> b.lastKey == LastKey(Chunks(b)[|Chunks(b)| - 1]))
  }

  function Written(b: Build, file: seq<byte>, handle: BlockHandle): Build {
    b.(file := file, blocks := b.blocks + [b.items], handles := b.handles + [handle], items := [],
       pending := true, pendingHandle := handle)
  }

  // A block is written.
  lemma FlushStep(crc: Crc, b: Build, interval: nat, file': seq<byte>, handle: BlockHandle)
    requires interval > 0 && BuildOk(crc, b, interval) && b.items != []
    requires b.file <= file' && HoldsAt(crc, file', handle, BlockBytes(b.items, interval))
    ensures BuildOk(crc, Written(b, file', handle), interval) && Chunks(Written(b, file', handle)) == Chunks(b)
  {
    StoredMore(crc, b.file, file', interval, b.blocks, b.handles, b.items, handle);
    IndexedMore(b.index, Chunks(b), b.handles, handle);
    hide Stored, Indexed, Chunked, HoldsAt, Increasing, Flatten;
  }

  // The index entry of the last block, and the first item of the next, are added.
  lemma AddStep(crc: Crc, b: Build, interval: nat, e: Item, separator: Key)
    requires interval > 0 && BuildOk(crc, b, interval) && |e.key| >= TAG_SIZE
    requires Chunks(b) != [] ==> |b.lastKey| >= TAG_SIZE && InternalLess(b.lastKey, e.key)
    requires b.pending ==> |separator| >= TAG_SIZE && IsSeparator(b.lastKey, separator) && Apart(b.lastKey, separator, e.key)
    ensures var entry := Item(separator, EncodeHandle(b.pendingHandle));
            var b' := b.(items := b.items + [e], index := if b.pending then b.index + [entry] else b.index, pending := false, lastKey := e.key);
            BuildOk(crc, b', interval) && Flatten(Chunks(b')) == Flatten(Chunks(b)) + [e]
  {
    hide Stored, Indexed, Chunked, HoldsAt, Increasing, Flatten, InternalLess, IsSeparator, Apart, EncodeHandle;
    var entry := Item(separator, EncodeHandle(b.pendingHandle));
    var index' := if b.pending then b.index + [entry] else b.index;
    ChunksGrow(b, e);
    IncreasingMore(b, e);
    IndexGrows(crc, b, interval, e, index', separator);
  }

  lemma ChunksGrow(b: Build, e: Item)
    requires Chunked(Chunks(b)) && |e.key| >= TAG_SIZE
    ensures var more := b.blocks + [b.items + [e]]; Chunked(more) && Flatten(more) == Flatten(Chunks(b)) + [e]
  {
    hide Flatten, Chunks, InternalKeys;
    ChunkedMore(b, e);
    FlattenMore(b.blocks, b.items, e);
    ChunksFlat(b);
  }

  lemma ChunkedMore(b: Build, e: Item)
    requires Chunked(Chunks(b)) && |e.key| >= TAG_SIZE
    ensures Chunked(b.blocks + [b.items + [e]])
  {
    assert forall i :: 0 <= i < |b.blocks| ==> Chunks(b)[i] == b.blocks[i];
    if b.items != [] {
      assert Chunks(b)[|b.blocks|] == b.items;
    }
    OneMoreKey(b.items, e);
  }

  lemma OneMoreKey(items: seq<Item>, e: Item)
    requires |e.key| >= TAG_SIZE
    ensures InternalKeys(items) ==> InternalKeys(items + [e])
    ensures items == [] ==> InternalKeys(items + [e])
  {
  }

  lemma FlattenMore(blocks: seq<seq<Item>>, items: seq<Item>, e: Item)
    ensures Flatten(blocks + [items + [e]]) == Flatten(blocks) + items + [e]
  {
    var more := blocks + [items + [e]];
    assert more[..|more| - 1] == blocks && more[|more| - 1] == items + [e];
    assert Flatten(blocks) + (items + [e]) == Flatten(blocks) + items + [e];
  }

  lemma ChunksFlat(b: Build)
    ensures Flatten(Chunks(b)) == Flatten(b.blocks) + b.items
  {
    if b.items != [] {
      assert Chunks(b)[..|Chunks(b)| - 1] == b.blocks && Chunks(b)[|Chunks(b)| - 1] == b.items;
    }
  }

  lemma IncreasingMore(b: Build, e: Item)
    requires Chunked(Chunks(b)) && Increasing(InternalLess, Flatten(Chunks(b)))
    requires Chunks(b) != [] ==> InternalLess(LastKey(Chunks(b)[|Chunks(b)| - 1]), e.key)
    ensures Increasing(InternalLess, Flatten(Chunks(b)) + [e])
  {
    var all := Flatten(Chunks(b));
    InternalIsOrder();
    if Chunks(b) != [] {
      assert all[|all| - 1].key == LastKey(Chunks(b)[|Chunks(b)| - 1]);
    }
    hide InternalLess;
    assert forall i :: 0 <= i < |all| ==> InternalLess(all[i].key, e.key);
  }

  lemma IndexGrows(crc: Crc, b: Build, interval: nat, e: Item, index': seq<Item>, separator: Key)
    requires interval > 0 && BuildOk(crc, b, interval) && |e.key| >= TAG_SIZE
    requires b.pending ==> |separator| >= TAG_SIZE && |b.lastKey| >= TAG_SIZE && IsSeparator(b.lastKey, separator) && Apart(b.lastKey, separator, e.key)
    requires index' == if b.pending then b.index + [Item(separator, EncodeHandle(b.pendingHandle))] else b.index
    requires Chunked(b.blocks + [b.items + [e]])
    ensures |index'| == |b.blocks| && Indexed(index', b.blocks + [b.items + [e]], b.handles)
  {
    var chunks := b.blocks + [b.items + [e]];
    if b.pending {
      assert b.items + [e] == [e];
      LastEntry(b.index, b.blocks, b.handles, separator, e);
    } else if b.items != [] {
      assert (b.items + [e])[0] == b.items[0];
      SameEntries(b.index, Chunks(b), chunks, b.handles);
    }
  }

  // The entry of the last block, and the first item of the next.
  lemma LastEntry(index: seq<Item>, blocks: seq<seq<Item>>, handles: seq<BlockHandle>, separator: Key, e: Item)
    requires |index| + 1 == |blocks| == |handles| && Chunked(blocks) && Indexed(index, blocks, handles)
    requires |separator| >= TAG_SIZE && |e.key| >= TAG_SIZE && IsSeparator(LastKey(blocks[|index|]), separator)
    requires Apart(LastKey(blocks[|index|]), separator, e.key)
    requires Chunked(blocks + [[e]])
    ensures Indexed(index + [Item(separator, EncodeHandle(handles[|index|]))], blocks + [[e]], handles)
  {
    hide IsSeparator, Apart, EncodeHandle;
  }

  lemma SameEntries(index: seq<Item>, chunks: seq<seq<Item>>, chunks': seq<seq<Item>>, handles: seq<BlockHandle>)
    requires |chunks| == |chunks'| == |index| + 1 && |index| <= |handles| && Chunked(chunks) && Chunked(chunks')
    requires forall i :: 0 <= i < |index| ==> chunks'[i] == chunks[i]
    requires chunks'[|index|][0] == chunks[|index|][0]
    requires Indexed(index, chunks, handles)
    ensures Indexed(index, chunks', handles)
  {
    hide IsSeparator, Apart, EncodeHandle;
  }

  lemma StoredMore(crc: Crc, file: seq<byte>, file': seq<byte>, interval: nat, blocks: seq<seq<Item>>, handles: seq<BlockHandle>,
                   block: seq<Item>, handle: BlockHandle)
    requires interval > 0 && Stored(crc, file, interval, blocks, handles) && file <= file'
    requires HoldsAt(crc, file', handle, BlockBytes(block, interval))
    ensures Stored(crc, file', interval, blocks + [block], handles + [handle])
  {
    hide HoldsAt, BlockBytes;
    forall i | 0 <= i < |blocks| ensures HoldsAt(crc, file', handles[i], BlockBytes(blocks[i], interval)) {
      StillHolds(crc, file, file', handles[i], BlockBytes(blocks[i], interval));
    }
  }

  lemma IndexedMore(index: seq<Item>, chunks: seq<seq<Item>>, handles: seq<BlockHandle>, handle: BlockHandle)
    requires |index| <= |chunks| && |index| <= |handles| && Chunked(chunks) && Indexed(index, chunks, handles)
    ensures Indexed(index, chunks, handles + [handle])
  {
    assert forall i :: 0 <= i < |index| ==> (handles + [handle])[i] == handles[i];
  }

  class TableBuilder {
    const interval: nat
    const blockSize: nat
    const crc: Crc
    const dataBlock: BB.BlockBuilder
    const indexBlock: BB.BlockBuilder
    const policy: Option<FilterPolicy>
    const filterBlock: FB.FilterBlockBuilder?
    var file: seq<byte>
    var lastKey: Key
    var closed: bool
    var pendingIndexEntry: bool
    var pendingHandle: BlockHandle
    // The blocks written, and where.
    ghost var blocks: seq<seq<Item>>
    ghost var handles: seq<BlockHandle>

    ghost function Now(): Build
      reads this, dataBlock, indexBlock
    {
      Build(file, blocks, handles, dataBlock.items, indexBlock.items, pendingIndexEntry, pendingHandle, lastKey)
    }

    ghost predicate Filtered(blocks: seq<seq<Item>>, handles: seq<BlockHandle>, items: seq<Item>, size: nat)
      reads filterBlock
    {
      && PolicyOk(policy) && (filterBlock != null <==> policy.Some?)
      && (filterBlock != null ==>
            && filterBlock.Valid() && filterBlock.hash == InternalHash(policy.value.hash)
            && filterBlock.bitsPerKey == policy.value.bitsPerKey && filterBlock.probes == Bloom.Probes(policy.value.bitsPerKey)
            && Covers(filterBlock.keysOf, filterBlock.pending, blocks, handles, items, size))
    }

    ghost predicate Valid()
      reads this, dataBlock, indexBlock, filterBlock
    {
      && Filtered(blocks, handles, dataBlock.items, |file|)
      && dataBlock != indexBlock && dataBlock.Valid() && indexBlock.Valid()
      && interval > 0 && dataBlock.interval == interval && indexBlock.interval == 1
      && BuildOk(crc, Now(), interval)
    }

    // The items added so far.
    ghost function Added(): seq<Item>
      reads this, dataBlock, indexBlock
    {
      Flatten(Chunks(Now()))
    }

    constructor (interval: nat, blockSize: nat, crc: Crc, policy: Option<FilterPolicy>)
      requires interval >= 1 && PolicyOk(policy)
      ensures Valid() && !closed && Added() == [] && this.policy == policy
      ensures fresh(dataBlock) && fresh(indexBlock) && (filterBlock != null ==> fresh(filterBlock))
    {
      hide BuildOk, Covers, Chunks, BB.BlockBuilder.Valid, FB.Started;
      NothingBuilt(crc, interval);
      this.interval, this.blockSize, this.crc, this.policy := interval, blockSize, crc, policy;
      if policy.Some? {
        InternalHashFits(policy.value.hash);
        filterBlock := new FB.FilterBlockBuilder(InternalHash(policy.value.hash), policy.value.bitsPerKey);
      } else {
        filterBlock := null;
      }
      dataBlock := new BB.BlockBuilder(interval);
      indexBlock := new BB.BlockBuilder(1);
      file, lastKey, closed, pendingIndexEntry, pendingHandle := [], [], false, false, BlockHandle(0, 0);
      blocks, handles := [], [];
      new;
      if filterBlock != null {
        filterBlock.StartBlock(0);
      }
    }

    method FilterKey(e: Item, ghost blocks: seq<seq<Item>>, ghost handles: seq<BlockHandle>, ghost items: seq<Item>, ghost size: nat)
      requires Filtered(blocks, handles, items, size)
      modifies filterBlock
      ensures Filtered(blocks, handles, items + [e], size)
    {
      hide Covers;
      if filterBlock != null {
        CoversKey(filterBlock.keysOf, filterBlock.pending, blocks, handles, items, size, e);
        filterBlock.AddKey(e.key);
      }
    }

    // The keys that follow belong to blocks at or behind this offset.
    method FilterFrom(offset: nat, ghost blocks: seq<seq<Item>>, ghost handles: seq<BlockHandle>, ghost items: seq<Item>, ghost handle: BlockHandle)
      requires Filtered(blocks, handles, items, handle.offset) && handle.offset <= offset
      modifies filterBlock
      ensures Filtered(blocks + [items], handles + [handle], [], offset)
    {
      hide Covers, FB.Started;
      if filterBlock != null {
        CoversBlock(filterBlock.keysOf, filterBlock.pending, blocks, handles, items, handle, offset);
        HowMany(filterBlock.keysOf, filterBlock.pending, blocks, handles, items, handle.offset, offset);
        filterBlock.StartBlock(offset);
      }
    }

    lemma HowMany(keysOf: seq<seq<Key>>, pending: seq<Key>, blocks: seq<seq<Item>>, handles: seq<BlockHandle>, items: seq<Item>, size: nat, offset: nat)
      requires Covers(keysOf, pending, blocks, handles, items, size) && size <= offset
      ensures |keysOf| <= offset / FB.FILTER_BASE
    {
      InOrder(size, offset);
    }

    method FinishFilter(ghost blocks: seq<seq<Item>>, ghost handles: seq<BlockHandle>, ghost size: nat) returns (contents: seq<byte>)
      requires filterBlock != null && Filtered(blocks, handles, [], size) && forall m :: 0 <= m < |blocks| ==> blocks[m] != []
      modifies filterBlock
      ensures |contents| < U32 ==> NeverMisses(InternalHash(policy.value.hash), contents, blocks, handles)
      ensures |contents| < U32 ==> IsFilterOf(policy.value, contents, blocks, handles)
    {
      hide FB.MatchAt, FB.Passes, KeysAt;
      InternalHashFits(policy.value.hash);
      ghost var keysOf, pending := filterBlock.keysOf, filterBlock.pending;
      contents := filterBlock.Finish();
      FilterFinished(keysOf, pending, filterBlock.keysOf, policy.value, contents, blocks, handles, size);
    }

    // WriteRawBlock without compression: the block, its type and its checksum.
    method WriteRawBlock(contents: seq<byte>) returns (handle: BlockHandle)
      modifies this`file
      ensures HoldsAt(crc, file, handle, contents) && handle == BlockHandle(|old(file)|, |contents|)
      ensures file == old(file) + (contents + TrailerBytes(crc, contents)) && old(file) <= file
    {
      handle := BlockHandle(|file|, |contents|);
      file := file + contents;
      var c := Extend(crc, Value(crc, contents), [0]);
      ExtendStreams(crc, 0, contents, [0]);
      file := file + ([0] + Fixed32(Mask(c)));
      BlockAppended(old(file), contents, TrailerBytes(crc, contents));
    }

    method Flush()
      requires Valid() && !closed
      modifies this, dataBlock, filterBlock
      ensures Valid() && !closed && Added() == old(Added()) && dataBlock.items == []
      ensures old(dataBlock.items) != [] ==> pendingIndexEntry
      ensures blocks == if old(dataBlock.items) == [] then old(blocks) else old(blocks) + [old(dataBlock.items)]
    {
      hide BuildOk, HoldsAt, BlockBytes, Flatten, Chunks, BB.BlockBuilder.Valid, Filtered;
      ghost var b := Now();
      FlushedPending(crc, b, interval);
      var empty := dataBlock.Empty();
      if empty {
        return;
      }
      var contents := dataBlock.Finish();
      var handle := WriteRawBlock(contents);
      FlushStep(crc, b, interval, file, handle);
      FilterFrom(|file|, blocks, handles, dataBlock.items, handle);
      blocks, handles := blocks + [dataBlock.items], handles + [handle];
      dataBlock.Reset();
      pendingHandle, pendingIndexEntry := handle, true;
      assert Now() == Written(b, file, handle);
    }

    // Add, with the index entry of the block before once the first key of the next is known.
    method Add(e: Item)
      requires Valid() && !closed && |e.key| >= TAG_SIZE
      requires Added() != [] ==> InternalLess(lastKey, e.key)
      modifies this, dataBlock, indexBlock, filterBlock
      ensures Valid() && !closed && Added() == old(Added()) + [e] && (dataBlock.items == [] ==> pendingIndexEntry)
      ensures var items := old(dataBlock.items) + [e];
        (blocks, dataBlock.items) == if |BlockBytes(items, interval)| >= blockSize then (old(blocks) + [items], []) else (old(blocks), items)
    {
      hide BuildOk, Flatten, InternalLess, EncodeHandle, IsSeparator, IsInternalSeparator, Apart, Chunks, BB.BlockBuilder.Valid, Filtered;
      ghost var b := Now();
      BuiltKeys(crc, b, interval);
      var separator := lastKey;
      if pendingIndexEntry {
        separator := FindInternalSeparator(lastKey, e.key);
        ApartIs(lastKey, separator, e.key);
        indexBlock.Add(Item(separator, EncodeHandle(pendingHandle)));
        pendingIndexEntry := false;
      }
      AddStep(crc, b, interval, e, separator);
      FilterKey(e, blocks, handles, dataBlock.items, |file|);
      lastKey := e.key;
      dataBlock.Add(e);
      Filled();
    }

    // The block is written exactly when it has reached its size.
    method Filled()
      requires Valid() && !closed && dataBlock.items != []
      modifies this, dataBlock, filterBlock
      ensures Valid() && !closed && Added() == old(Added()) && (dataBlock.items == [] ==> pendingIndexEntry)
      ensures (blocks, dataBlock.items) ==
                if |BlockBytes(old(dataBlock.items), interval)| >= blockSize then (old(blocks) + [old(dataBlock.items)], [])
                else (old(blocks), old(dataBlock.items))
    {
      hide BuildOk, Flatten, Chunks, BB.BlockBuilder.Valid, Filtered;
      var size := dataBlock.CurrentSizeEstimate();
      if size >= blockSize {
        Flush();
        FlushedPending(crc, Now(), interval);
      }
    }

    // The last index entry.
    method CloseIndex(ghost b: Build)
      requires interval > 0 && BuildOk(crc, b, interval) && b.items == [] && indexBlock.Valid() && indexBlock.interval == 1
      requires b.index == indexBlock.items && b.pending == pendingIndexEntry && b.pendingHandle == pendingHandle && b.lastKey == lastKey
      modifies this`pendingIndexEntry, indexBlock
      ensures indexBlock.Valid() && AllIndexed(crc, b.file, interval, indexBlock.items, b.blocks, b.handles) && Chunks(b) == b.blocks
    {
      hide BuildOk, Flatten, EncodeHandle, IsSeparator, AllIndexed, Chunks, BB.BlockBuilder.Valid;
      FlushedPending(crc, b, interval);
      BuiltKeys(crc, b, interval);
      if pendingIndexEntry {
        var s := FindInternalSuccessor(lastKey);
        indexBlock.Add(Item(s, EncodeHandle(pendingHandle)));
        LastIndexStep(crc, b, interval, s);
        pendingIndexEntry := false;
      } else {
        NothingPending(crc, b, interval);
      }
    }

    // The filter block, if there is one.
    method WriteFilter(ghost size: nat) returns (handle: BlockHandle, ghost filter: Option<seq<byte>>)
      requires Filtered(blocks, handles, [], size) && forall m :: 0 <= m < |blocks| ==> blocks[m] != []
      modifies this`file, filterBlock
      ensures forall meta, last, index :: FilterStored(crc, file, policy, Layout(filter, handle, meta, last, index), blocks, handles)
      ensures old(file) <= file
    {
      hide HoldsAt, NeverMisses, IsFilterOf, Covers, Extend, Value, Mask;
      handle, filter := BlockHandle(0, 0), None;
      if filterBlock != null {
        var contents := FinishFilter(blocks, handles, size);
        handle := WriteRawBlock(contents);
        filter := Some(contents);
      }
    }

    // The metaindex block.
    method WriteMeta(filterHandle: BlockHandle) returns (handle: BlockHandle)
      requires interval >= 1
      modifies this`file
      ensures HoldsAt(crc, file, handle, BlockBytes(MetaItems(policy, filterHandle), interval)) && old(file) <= file
    {
      hide HoldsAt, BlockBytes, EncodeHandle;
      var metaIndexBlock := new BB.BlockBuilder(interval);
      if policy.Some? {
        metaIndexBlock.Add(Item(policy.value.name, EncodeHandle(filterHandle)));
      }
      assert metaIndexBlock.items == MetaItems(policy, filterHandle);
      var contents := metaIndexBlock.Finish();
      handle := WriteRawBlock(contents);
    }

    // Finish: the filter block, the metaindex block, the index block and the footer.
    method Finish() returns (ghost t: Layout)
      requires Valid() && !closed
      modifies this, dataBlock, indexBlock, filterBlock
      ensures closed && Flatten(blocks) == old(Added())
      ensures IsTableFile(crc, file, interval, policy, t, blocks, handles)
    {
      hide Flatten, HoldsAt, BlockBytes, AllIndexed, BuildOk, Chunks, Filtered, FilterStored, IsTableFile, BB.BlockBuilder.Valid;
      Flush();
      closed := true;
      ghost var b := Now();
      ghost var filter;
      var filterHandle;
      NoEmptyBlock(crc, b, interval);
      filterHandle, filter := WriteFilter(|file|);
      ghost var file1 := file;
      var metaHandle := WriteMeta(filterHandle);
      ghost var file2 := file;
      CloseIndex(b);
      var contents := indexBlock.Finish();
      var indexHandle := WriteRawBlock(contents);
      t := Layout(filter, filterHandle, metaHandle, indexHandle, indexBlock.items);
      FileDone(crc, b.file, file1, file2, file, interval, policy, t, blocks, handles);
      file := file + FooterBytes(metaHandle, indexHandle);
    }
  }

  lemma FileDone(crc: Crc, file0: seq<byte>, file1: seq<byte>, file2: seq<byte>, file3: seq<byte>, interval: nat, policy: Option<FilterPolicy>,
                 t: Layout, blocks: seq<seq<Item>>, handles: seq<BlockHandle>)
    requires interval > 0 && AllIndexed(crc, file0, interval, t.index, blocks, handles) && file0 <= file1 <= file2 <= file3
    requires FilterStored(crc, file1, policy, t, blocks, handles)
    requires HoldsAt(crc, file2, t.metaHandle, BlockBytes(MetaItems(policy, t.filterHandle), interval))
    requires HoldsAt(crc, file3, t.indexHandle, BlockBytes(t.index, 1))
    ensures IsTableFile(crc, file3 + FooterBytes(t.metaHandle, t.indexHandle), interval, policy, t, blocks, handles)
  {
    hide AllIndexed, IsTable, HoldsAt, BlockBytes, NeverMisses, IsFilterOf, MetaItems;
    var file := file3 + FooterBytes(t.metaHandle, t.indexHandle);
    assert file[|file| - FOOTER_LENGTH..] == FooterBytes(t.metaHandle, t.indexHandle);
    StillHolds(crc, file3, file, t.indexHandle, BlockBytes(t.index, 1));
    assert file0 <= file && file1 <= file && file2 <= file;
    TableDone(crc, file0, file, interval, t.indexHandle, t.index, blocks, handles);
    StillHolds(crc, file2, file, t.metaHandle, BlockBytes(MetaItems(policy, t.filterHandle), interval));
    if policy.Some? {
      StillHolds(crc, file1, file, t.filterHandle, t.filter.value);
    }
  }

  lemma BlockAppended(file: seq<byte>, a: seq<byte>, b: seq<byte>)
    ensures file + a + b == file + (a + b)
    ensures (file + (a + b))[|file|..] == a + b
  {
  }

  lemma StillHolds(crc: Crc, file: seq<byte>, file': seq<byte>, h: BlockHandle, bytes: seq<byte>)
    requires HoldsAt(crc, file, h, bytes) && file <= file'
    ensures HoldsAt(crc, file', h, bytes)
  {
    var block := bytes + TrailerBytes(crc, bytes);
    assert file'[h.offset..][..|block|] == file[h.offset..][..|block|];
  }

  lemma FilterFinished(keysOf: seq<seq<Key>>, pending: seq<Key>, all: seq<seq<Key>>, policy: FilterPolicy, contents: seq<byte>,
                       blocks: seq<seq<Item>>, handles: seq<BlockHandle>, size: nat)
    requires Covers(keysOf, pending, blocks, handles, [], size) && forall m :: 0 <= m < |blocks| ==> blocks[m] != []
    requires all == if pending == [] then keysOf else keysOf + [pending]
    requires Bloom.HashFits(InternalHash(policy.hash))
    requires |contents| < U32 ==> forall at: nat, key :: at / FB.FILTER_BASE < |all| ==>
               (FB.MatchAt(InternalHash(policy.hash), contents, at, key) <==>
                FB.Passes(InternalHash(policy.hash), all[at / FB.FILTER_BASE], policy.bitsPerKey, Bloom.Probes(policy.bitsPerKey), key))
    requires |contents| < U32 ==> forall at: nat, key :: at / FB.FILTER_BASE < |all| && key in all[at / FB.FILTER_BASE] ==>
               FB.MatchAt(InternalHash(policy.hash), contents, at, key)
    ensures |contents| < U32 ==> NeverMisses(InternalHash(policy.hash), contents, blocks, handles)
    ensures |contents| < U32 ==> IsFilterOf(policy, contents, blocks, handles)
  {
    hide FB.MatchAt, FB.Passes, KeysAt, Bloom.Probes;
    forall m | 0 <= m < |blocks|
      ensures var i := handles[m].offset / FB.FILTER_BASE; i < |all| && all[i] == KeysAt(blocks, handles, i)
    {
      FilterOfBlock(keysOf, pending, all, blocks, handles, size, m);
    }
    forall m, e | 0 <= m < |blocks| && e in blocks[m] ensures e.key in KeysAt(blocks, handles, handles[m].offset / FB.FILTER_BASE) {
      BlockKeysThere(blocks, handles, m, e);
    }
  }

  lemma NothingBuilt(crc: Crc, interval: nat)
    requires interval > 0
    ensures var b := Build([], [], [], [], [], false, BlockHandle(0, 0), []);
            BuildOk(crc, b, interval) && Flatten(Chunks(b)) == []
    ensures Covers([], [], [], [], [], 0) && FB.Started([], [], 0) == ([], [])
  {
  }

  lemma FlushedPending(crc: Crc, b: Build, interval: nat)
    requires interval > 0 && BuildOk(crc, b, interval)
    ensures b.items == [] ==> (b.pending <==> b.blocks != [])
  {
  }

  lemma NoEmptyBlock(crc: Crc, b: Build, interval: nat)
    requires interval > 0 && BuildOk(crc, b, interval)
    ensures forall m :: 0 <= m < |b.blocks| ==> b.blocks[m] != []
  {
    assert forall m :: 0 <= m < |b.blocks| ==> Chunks(b)[m] == b.blocks[m];
  }

  lemma BuiltKeys(crc: Crc, b: Build, interval: nat)
    requires interval > 0 && BuildOk(crc, b, interval)
    ensures Flatten(Chunks(b)) != [] <==> Chunks(b) != []
    ensures Chunks(b) != [] ==> |b.lastKey| >= TAG_SIZE
    ensures b.pending ==> Chunks(b) != []
  {
    hide Stored, Indexed, Increasing;
    if Chunks(b) != [] {
      var last := Chunks(b)[|Chunks(b)| - 1];
      assert last != [] && InternalKeys(last);
    }
  }

  lemma ApartIs(last: Key, r: Key, next: Key)
    requires |last| >= TAG_SIZE && |r| >= TAG_SIZE && |next| >= TAG_SIZE
    requires (r == last || LexLess(ExtractUserKey(r), ExtractUserKey(next))) && IsInternalSeparator(last, next, r)
    ensures Apart(last, r, next)
  {
  }

  // The entry of the last block: nothing follows it.
  lemma LastIndexStep(crc: Crc, b: Build, interval: nat, separator: Key)
    requires interval > 0 && BuildOk(crc, b, interval) && b.pending && |separator| >= TAG_SIZE && |b.lastKey| >= TAG_SIZE
    requires IsSeparator(b.lastKey, separator)
    ensures AllIndexed(crc, b.file, interval, b.index + [Item(separator, EncodeHandle(b.pendingHandle))], b.blocks, b.handles)
    ensures Chunks(b) == b.blocks
  {
    hide IsSeparator, Apart, EncodeHandle, Increasing, Flatten, Stored, Chunked, HoldsAt;
  }

  lemma NothingPending(crc: Crc, b: Build, interval: nat)
    requires interval > 0 && BuildOk(crc, b, interval) && !b.pending && b.items == []
    ensures AllIndexed(crc, b.file, interval, b.index, b.blocks, b.handles) && Chunks(b) == b.blocks
  {
  }

  lemma TableDone(crc: Crc, file: seq<byte>, file': seq<byte>, interval: nat, indexHandle: BlockHandle, index: seq<Item>,
                  blocks: seq<seq<Item>>, handles: seq<BlockHandle>)
    requires AllIndexed(crc, file, interval, index, blocks, handles) && file <= file'
    requires HoldsAt(crc, file', indexHandle, BlockBytes(index, 1))
    ensures IsTable(crc, file', interval, indexHandle, index, blocks, handles)
  {
    hide Indexed, Increasing, Flatten, HoldsAt, BlockBytes;
    forall i | 0 <= i < |blocks| ensures HoldsAt(crc, file', handles[i], BlockBytes(blocks[i], interval)) {
      StillHolds(crc, file, file', handles[i], BlockBytes(blocks[i], interval));
    }
  }
}
