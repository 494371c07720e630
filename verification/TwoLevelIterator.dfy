/**
  TwoLevelIterator (table/two_level_iterator.cc): an index of blocks read as one sorted sequence,
  empty blocks included.
 */
module TwoLevelIterator {
  import opened Wrappers
  import opened Keys
  import opened Versions
  import opened Cursors

  type BlockFunction = string -> seq<Entry>

  // The entries of the first n blocks.
  function Flat(index: seq<Entry>, f: BlockFunction, n: nat): seq<Entry>
    requires n <= |index|
  {
    if n == 0 then [] else Flat(index, f, n - 1) + f(index[n - 1].value)
  }

  function Start(index: seq<Entry>, f: BlockFunction, n: nat): nat
    requires n <= |index|
  {
    |Flat(index, f, n)|
  }

  // Index keys separate the blocks: no entry of a block is after its index key, and none of a
  // later block is at or before it.
  ghost predicate Separates(index: seq<Entry>, f: BlockFunction) {
    && Sorted(index) && Sorted(Flat(index, f, |index|))
    && (forall i :: 0 <= i < |index| ==> Sorted(f(index[i].value)))
    && (forall i, e :: 0 <= i < |index| && e in f(index[i].value) ==> AtMost(e.key, index[i].key))
    && forall i, j, e :: 0 <= i < j < |index| && e in f(index[j].value) ==> Less(index[i].key, e.key)
  }

  lemma {:induction false} FlatPrefix(index: seq<Entry>, f: BlockFunction, n: nat, m: nat)
    requires n <= m <= |index|
    ensures Flat(index, f, n) <= Flat(index, f, m)
  {
    if n < m {
      FlatPrefix(index, f, n, m - 1);
    }
  }

  // Where block b lies in the sequence.
  lemma BlockAt(index: seq<Entry>, f: BlockFunction, b: nat, j: nat)
    requires b < |index| && j < |f(index[b].value)|
    ensures var all := Flat(index, f, |index|);
            Start(index, f, b) + j < |all| && all[Start(index, f, b) + j] == f(index[b].value)[j]
  {
    FlatPrefix(index, f, b + 1, |index|);
  }

  class TwoLevelIterator {
    const indexIter: Cursor
    const blockFunction: BlockFunction
    var dataIter: Cursor?
    var dataBlockHandle: string
    ghost var pos: Position

    ghost function All(): seq<Entry> {
      Flat(indexIter.es, blockFunction, |indexIter.es|)
    }

    ghost predicate Shape()
      reads this, indexIter, dataIter
    {
      && indexIter.Ok() && Separates(indexIter.es, blockFunction)
      && dataIter != indexIter
      && (dataIter != null ==> dataIter.Ok() && dataIter.es == blockFunction(dataBlockHandle))
    }

    // The data iterator belongs to the block at the index position.
    ghost predicate InBlock(b: nat)
      reads this, indexIter, dataIter
    {
      indexIter.pos == Some(b) && b < |indexIter.es| && dataIter != null && dataBlockHandle == indexIter.es[b].value
    }

    ghost predicate Ok()
      reads this, indexIter, dataIter
    {
      && Shape()
      && (pos.None? ==> dataIter == null || !dataIter.Valid())
      && (pos.Some? ==> exists b: nat :: At(b, pos.value))
    }

    ghost predicate At(b: nat, p: nat)
      reads this, indexIter, dataIter
    {
      InBlock(b) && dataIter.pos.Some? && p == Start(indexIter.es, blockFunction, b) + dataIter.pos.value
    }

    // The iterator stands at position n of the sequence, or still has to skip to it.
    ghost predicate Forward(n: nat)
      reads this, indexIter, dataIter
    {
      if indexIter.pos.None? then dataIter == null && n == |All()|
      else
        var b := indexIter.pos.value;
        InBlock(b) && if dataIter.pos.Some? then At(b, n) else n == Start(indexIter.es, blockFunction, b + 1)
    }

    // The iterator stands just before position n of the sequence, or still has to skip back.
    ghost predicate Backward(n: nat)
      reads this, indexIter, dataIter
    {
      if indexIter.pos.None? then dataIter == null && n == 0
      else
        var b := indexIter.pos.value;
        InBlock(b) && if dataIter.pos.Some? then n > 0 && At(b, n - 1) else n == Start(indexIter.es, blockFunction, b)
    }

    constructor (indexIter: Cursor, f: BlockFunction)
      requires indexIter.Ok() && Separates(indexIter.es, f)
      ensures Ok() && this.indexIter == indexIter && this.blockFunction == f && pos == None
    {
      this.indexIter, blockFunction, dataIter, dataBlockHandle, pos := indexIter, f, null, "", None;
    }

    predicate Valid()
      reads this, dataIter
    {
      dataIter != null && dataIter.Valid()
    }

    function Current(): Entry
      requires Ok() && Valid()
      reads this, indexIter, dataIter
    {
      dataIter.Current()
    }

    lemma CurrentIs()
      requires Ok()
      ensures Valid() <==> pos.Some?
      ensures pos.Some? ==> pos.value < |All()| && Current() == All()[pos.value]
    {
      if pos.Some? {
        var b: nat :| At(b, pos.value);
        BlockAt(indexIter.es, blockFunction, b, dataIter.pos.value);
      }
    }

    method InitDataBlock()
      requires Shape()
      modifies this`dataIter, this`dataBlockHandle
      ensures Shape() && (dataIter == old(dataIter) || dataIter == null || fresh(dataIter))
      ensures if indexIter.pos.None? then dataIter == null else InBlock(indexIter.pos.value)
    {
      if !indexIter.Valid() {
        dataIter := null;
      } else {
        var handle := indexIter.Current().value;
        if dataIter != null && handle == dataBlockHandle {
          // The data iterator is already that of this block.
        } else {
          dataIter := new Cursor(blockFunction(handle));
          dataBlockHandle := handle;
        }
      }
    }

    // One turn of the loop below.
    method NextBlock(ghost n: nat)
      requires Shape() && Forward(n) && indexIter.Valid() && dataIter != null && !dataIter.Valid()
      modifies this`dataIter, this`dataBlockHandle, indexIter, dataIter
      ensures Shape() && Forward(n) && (dataIter == old(dataIter) || dataIter == null || fresh(dataIter))
      ensures indexIter.pos == if old(indexIter.pos.value) + 1 < |indexIter.es| then Some(old(indexIter.pos.value) + 1) else None
    {
      hide Separates;
      indexIter.Next();
      InitDataBlock();
      if dataIter != null {
        dataIter.SeekToFirst();
      }
    }

    method SkipEmptyDataBlocksForward(ghost n: nat)
      requires Shape() && Forward(n) && n <= |All()|
      modifies this, indexIter, dataIter
      ensures Ok() && (dataIter == old(dataIter) || dataIter == null || fresh(dataIter))
      ensures pos == if n < |All()| then Some(n) else None
    {
      hide Separates;
      while dataIter == null || !dataIter.Valid()
        invariant Shape() && Forward(n)
        invariant dataIter == old(dataIter) || dataIter == null || fresh(dataIter)
        decreases if indexIter.pos.None? then 0 else |indexIter.es| - indexIter.pos.value
      {
        if !indexIter.Valid() {
          dataIter, pos := null, None;
          return;
        }
        NextBlock(n);
      }
      BlockAt(indexIter.es, blockFunction, indexIter.pos.value, dataIter.pos.value);
      pos := Some(n);
      assert At(indexIter.pos.value, n);
    }

    method SkipEmptyDataBlocksBackward(ghost n: nat)
      requires Shape() && Backward(n)
      modifies this, indexIter, dataIter
      ensures Ok() && (dataIter == old(dataIter) || dataIter == null || fresh(dataIter))
      ensures pos == if n > 0 then Some(n - 1) else None
    {
      hide Separates;
      while dataIter == null || !dataIter.Valid()
        invariant Shape() && Backward(n)
        invariant dataIter == old(dataIter) || dataIter == null || fresh(dataIter)
        decreases if indexIter.pos.None? then 0 else indexIter.pos.value + 1
      {
        if !indexIter.Valid() {
          dataIter, pos := null, None;
          return;
        }
        indexIter.Prev();
        InitDataBlock();
        if dataIter != null {
          dataIter.SeekToLast();
        }
      }
      pos := Some(n - 1);
      assert At(indexIter.pos.value, n - 1);
    }

    method Seek(target: InternalKey)
      requires Ok()
      modifies this, indexIter, dataIter
      ensures Ok() && (dataIter == old(dataIter) || dataIter == null || fresh(dataIter))
      ensures pos == SeekPosition(All(), target)
    {
      hide Separates;
      indexIter.Seek(target);
      InitDataBlock();
      if dataIter != null {
        dataIter.Seek(target);
      }
      SeekBlocks(indexIter.es, blockFunction, target);
      SkipEmptyDataBlocksForward(SeekIndex(All(), target));
    }

    method SeekToFirst()
      requires Ok()
      modifies this, indexIter, dataIter
      ensures Ok() && (dataIter == old(dataIter) || dataIter == null || fresh(dataIter))
      ensures pos == First(|All()|)
    {
      hide Separates;
      indexIter.SeekToFirst();
      InitDataBlock();
      if dataIter != null {
        dataIter.SeekToFirst();
      }
      FirstBlock(indexIter.es, blockFunction);
      SkipEmptyDataBlocksForward(0);
    }

    method SeekToLast()
      requires Ok()
      modifies this, indexIter, dataIter
      ensures Ok() && (dataIter == old(dataIter) || dataIter == null || fresh(dataIter))
      ensures pos == Last(|All()|)
    {
      hide Separates;
      indexIter.SeekToLast();
      InitDataBlock();
      if dataIter != null {
        dataIter.SeekToLast();
      }
      SkipEmptyDataBlocksBackward(|All()|);
    }

    method Next()
      requires Ok() && Valid()
      modifies this, indexIter, dataIter
      ensures Ok() && (dataIter == old(dataIter) || dataIter == null || fresh(dataIter))
      ensures old(pos).Some? && pos == After(|All()|, old(pos.value))
    {
      CurrentIs();
      ghost var b: nat :| At(b, pos.value);
      hide Separates;
      dataIter.Next();
      SkipEmptyDataBlocksForward(old(pos.value) + 1);
    }

    method Prev()
      requires Ok() && Valid()
      modifies this, indexIter, dataIter
      ensures Ok() && (dataIter == old(dataIter) || dataIter == null || fresh(dataIter))
      ensures old(pos).Some? && pos == Before(old(pos.value))
    {
      CurrentIs();
      ghost var b: nat :| At(b, pos.value);
      hide Separates;
      dataIter.Prev();
      SkipEmptyDataBlocksBackward(old(pos.value));
    }
  }

  // Seeking the index and then its block finds the place in the whole sequence.
  lemma SeekBlocks(index: seq<Entry>, f: BlockFunction, target: InternalKey)
    requires Separates(index, f)
    ensures var b, n := SeekIndex(index, target), SeekIndex(Flat(index, f, |index|), target);
            n == if b < |index| then Start(index, f, b) + SeekIndex(f(index[b].value), target) else |Flat(index, f, |index|)|
  {
    hide Separates, Flat, SeekIndex;
    var all, b := Flat(index, f, |index|), SeekIndex(index, target);
    BlocksBefore(index, f, b, target);
    if b == |index| {
      SeekIndexIs(all, target, |all|);
    } else {
      var j := SeekIndex(f(index[b].value), target);
      SeekInBlock(index, f, b, j, target);
      SeekIndexIs(all, target, Start(index, f, b) + j);
    }
  }

  lemma FirstBlock(index: seq<Entry>, f: BlockFunction)
    ensures Start(index, f, 0) == 0
    ensures |index| > 0 ==> Start(index, f, 1) == |f(index[0].value)|
  {
    assert |index| > 0 ==> Flat(index, f, 1) == Flat(index, f, 0) + f(index[0].value);
  }

  // Blocks whose index key is before the target hold only entries before it.
  lemma {:induction false} BlocksBefore(index: seq<Entry>, f: BlockFunction, b: nat, target: InternalKey)
    requires Separates(index, f) && b <= |index| && forall i :: 0 <= i < b ==> Less(index[i].key, target)
    ensures forall k :: 0 <= k < |Flat(index, f, b)| ==> Less(Flat(index, f, b)[k].key, target)
  {
    if b > 0 {
      BlocksBefore(index, f, b - 1, target);
      var block := f(index[b - 1].value);
      forall j | 0 <= j < |block| ensures Less(block[j].key, target) {
        assert block[j] in block;
      }
    }
  }

  lemma SeekInBlock(index: seq<Entry>, f: BlockFunction, b: nat, j: nat, target: InternalKey)
    requires Separates(index, f) && b < |index| && !Less(index[b].key, target)
    requires j == SeekIndex(f(index[b].value), target)
    requires forall k :: 0 <= k < |Flat(index, f, b)| ==> Less(Flat(index, f, b)[k].key, target)
    ensures var all, n := Flat(index, f, |index|), Start(index, f, b) + j;
      && n <= |all| && (forall k :: 0 <= k < n ==> Less(all[k].key, target)) && (n < |all| ==> !Less(all[n].key, target))
  {
    var all, block, before := Flat(index, f, |index|), f(index[b].value), Flat(index, f, b);
    FlatPrefix(index, f, b + 1, |index|);
    assert Flat(index, f, b + 1) == before + block;
    if j == |block| && |before| + j < |all| {
      LaterBlocks(index, f, b, |index|, |before| + j);
      assert !Less(all[|before| + j].key, target);
    }
    hide Flat, Separates, SeekIndex;
    LessUpTo(before, block, j, target);
    assert forall k :: 0 <= k < |before + block| ==> all[k] == (before + block)[k];
  }

  lemma LessUpTo(before: seq<Entry>, block: seq<Entry>, j: nat, target: InternalKey)
    requires j <= |block| && (forall k :: 0 <= k < |before| ==> Less(before[k].key, target))
    requires forall k :: 0 <= k < j ==> Less(block[k].key, target)
    ensures forall k :: 0 <= k < |before| + j ==> Less((before + block)[k].key, target)
  {
  }

  // Entries past block b are after its index key.
  lemma {:induction false} LaterBlocks(index: seq<Entry>, f: BlockFunction, b: nat, m: nat, k: nat)
    requires Separates(index, f) && b < m <= |index| && Start(index, f, b + 1) <= k < |Flat(index, f, m)|
    ensures Less(index[b].key, Flat(index, f, m)[k].key)
    decreases m
  {
    var before := Flat(index, f, m - 1);
    if k < |before| {
      LaterBlocks(index, f, b, m - 1, k);
    } else {
      assert Flat(index, f, m)[k] == f(index[m - 1].value)[k - |before|];
      assert f(index[m - 1].value)[k - |before|] in f(index[m - 1].value);
    }
  }
}
