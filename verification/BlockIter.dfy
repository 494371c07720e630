/**
  Block::Iter (table/block.cc): over a finished block it is a cursor over the items that were
  added, in both directions, despite prefix compression.
 */
module BlockIter {
  import opened Wrappers
  import opened Bytes
  import opened Coding
  import opened BlockFormat

  type Position = Option<nat>

  // The first item at or after the target.
  function SeekItem(less: Order, items: seq<Item>, target: Key): (i: nat)
    ensures i <= |items|
    ensures forall j :: 0 <= j < i ==> less(items[j].key, target)
    ensures i < |items| ==> !less(items[i].key, target)
  {
    if items == [] || !less(items[0].key, target) then 0 else 1 + SeekItem(less, items[1..], target)
  }

  // ---- What stands where in a block ----

  ghost predicate Sizes(items: seq<Item>, interval: nat) {
    && interval >= 1 && |BlockBytes(items, interval)| < U32
    && forall i :: 0 <= i < |items| ==> |items[i].key| < U32 && |items[i].value| < U32
  }

  // The bytes from entry i to the restart array.
  ghost function Rest(items: seq<Item>, interval: nat, i: nat): seq<byte>
    requires interval >= 1 && i <= |items|
  {
    OffsetsGrow(items, interval, i, |items|);
    Data(items, interval, |items|)[Offset(items, interval, i)..]
  }

  lemma RestStep(items: seq<Item>, interval: nat, i: nat)
    requires interval >= 1 && i < |items|
    ensures Rest(items, interval, i) == EncodeEntry(Shared(items, interval, i), items[i]) + Rest(items, interval, i + 1)
    ensures Offset(items, interval, i + 1) == Offset(items, interval, i) + |EncodeEntry(Shared(items, interval, i), items[i])|
  {
    OffsetsGrow(items, interval, i, i + 1);
    OffsetsGrow(items, interval, i + 1, |items|);
    var all, entry := Data(items, interval, |items|), EncodeEntry(Shared(items, interval, i), items[i]);
    assert Data(items, interval, i + 1) == Data(items, interval, i) + entry;
    hide Data, EncodeEntry, Shared;
    SplitAt(all, Data(items, interval, i), entry);
  }

  lemma SplitAt(all: seq<byte>, before: seq<byte>, entry: seq<byte>)
    requires before + entry <= all
    ensures all[|before|..] == entry + all[|before + entry|..]
  {
    assert all[..|before + entry|] == before + entry;
    assert all == before + entry + all[|before + entry|..];
  }

  // Restart point r as it stands in the restart array.
  lemma {:induction false} RestartAt(items: seq<Item>, interval: nat, r: nat, k: nat)
    requires interval >= 1 && r <= k < NumRestarts(|items|, interval)
    ensures RestartArray(items, interval, r)[4 * (k - r)..4 * (k - r) + 4] == Fixed32(RestartOffset(items, interval, k))
    decreases k - r
  {
    hide RestartOffset, Fixed32;
    if r < k {
      RestartAt(items, interval, r + 1, k);
      var tail := RestartArray(items, interval, r + 1);
      assert RestartArray(items, interval, r)[4..] == tail;
      assert RestartArray(items, interval, r)[4 * (k - r)..4 * (k - r) + 4] == tail[4 * (k - r - 1)..4 * (k - r - 1) + 4];
    }
  }

  lemma BlockParts(items: seq<Item>, interval: nat)
    requires Sizes(items, interval)
    ensures var bytes := BlockBytes(items, interval); var n, num := Offset(items, interval, |items|), NumRestarts(|items|, interval);
      && |bytes| == n + 4 * num + 4
      && bytes[..n] == Data(items, interval, |items|)
      && bytes[n..n + 4 * num] == RestartArray(items, interval, 0)
      && DecodeFixed32(bytes[|bytes| - 4..]) == num
  {
    var num := NumRestarts(|items|, interval);
    Fixed32RoundTrip(num, []);
    assert Fixed32(num) + [] == Fixed32(num);
  }

  lemma RestartPoint(items: seq<Item>, interval: nat, k: nat)
    requires Sizes(items, interval) && k < NumRestarts(|items|, interval)
    ensures var bytes, n := BlockBytes(items, interval), Offset(items, interval, |items|);
            n + 4 * k + 4 <= |bytes| && DecodeFixed32(bytes[n + 4 * k..n + 4 * k + 4]) == RestartOffset(items, interval, k)
  {
    hide BlockBytes, RestartArray, Data, RestartOffset, Offset, NumRestarts, Fixed32, DecodeFixed32;
    BlockParts(items, interval);
    RestartAt(items, interval, 0, k);
    RestartIsSmall(items, interval, k);
    var bytes, n, num := BlockBytes(items, interval), Offset(items, interval, |items|), NumRestarts(|items|, interval);
    var v := RestartOffset(items, interval, k);
    Subslice(bytes, n, n + 4 * num, 4 * k, 4 * k + 4);
    assert RestartArray(items, interval, 0)[4 * (k - 0)..4 * (k - 0) + 4] == RestartArray(items, interval, 0)[4 * k..4 * k + 4];
    Fixed32RoundTrip(v, []);
    assert Fixed32(v) + [] == Fixed32(v);
  }

  lemma RestartIsSmall(items: seq<Item>, interval: nat, k: nat)
    requires Sizes(items, interval) && k < NumRestarts(|items|, interval)
    ensures RestartOffset(items, interval, k) < U32
  {
    hide Data, NumRestarts;
    BlockParts(items, interval);
    RestartEntry(|items|, interval, k);
    OffsetsGrow(items, interval, k * interval, |items|);
  }

  // ---- The iterator ----

  class BlockIter {
    const less: Order
    const data: seq<byte>
    const restarts: nat
    const numRestarts: nat
    var current: nat
    var restartIndex: nat
    var key: Key
    var valueStart: nat
    var valueLength: nat
    // The items of the block, and the one shown.
    ghost const items: seq<Item>
    ghost const interval: nat
    ghost var pos: Position

    ghost predicate Built() {
      && Sizes(items, interval) && data == BlockBytes(items, interval)
      && restarts == Offset(items, interval, |items|) && numRestarts == NumRestarts(|items|, interval)
    }

    // The restart point that the iterator thinks it is behind.
    ghost predicate InGroup(i: nat)
      reads this
    {
      restartIndex < numRestarts && restartIndex * interval <= i
    }

    ghost predicate Ok()
      reads this
    {
      && Built()
      && (pos.None? ==> current == restarts)
      && (pos.Some? ==>
            && pos.value < |items| && current == Offset(items, interval, pos.value)
            && key == items[pos.value].key
            && valueStart + valueLength == Offset(items, interval, pos.value + 1) <= |data|
            && data[valueStart..valueStart + valueLength] == items[pos.value].value
            && InGroup(pos.value))
    }

    // ParseNextKey would parse entry i next.
    ghost predicate Ready(i: nat)
      reads this
    {
      && Built() && i <= |items|
      && valueStart + valueLength == Offset(items, interval, i)
      && InGroup(i)
      && (0 < i < |items| && i % interval != 0 ==> key == items[i - 1].key)
    }

    // Block::Block and NewIterator
    constructor (less: Order, data: seq<byte>, ghost items: seq<Item>, ghost interval: nat)
      requires Sizes(items, interval) && data == BlockBytes(items, interval)
      ensures Ok() && pos == None && this.less == less && this.items == items
    {
      BlockParts(items, interval);
      this.less, this.data, this.items, this.interval := less, data, items, interval;
      var num := DecodeFixed32(data[|data| - 4..]);
      numRestarts := num;
      restarts := |data| - (1 + num) * 4;
      current, restartIndex := |data| - (1 + num) * 4, num;
      key, valueStart, valueLength, pos := [], 0, 0, None;
    }

    predicate Valid()
      reads this
    {
      current < restarts
    }

    lemma ValidIff()
      requires Ok()
      ensures Valid() <==> pos.Some?
    {
      if pos.Some? {
        OffsetsGrow(items, interval, pos.value, |items|);
      }
    }

    method Key() returns (k: Key)
      requires Ok() && Valid()
      ensures pos.Some? && k == items[pos.value].key
    {
      ValidIff();
      k := key;
    }

    method Value() returns (v: seq<byte>)
      requires Ok() && Valid()
      ensures pos.Some? && v == items[pos.value].value
    {
      ValidIff();
      v := data[valueStart..valueStart + valueLength];
    }

    method GetRestartPoint(k: nat) returns (offset: nat)
      requires Built() && k < numRestarts
      ensures offset == RestartOffset(items, interval, k)
    {
      RestartPoint(items, interval, k);
      offset := DecodeFixed32(data[restarts + 4 * k..restarts + 4 * k + 4]);
    }

    method SeekToRestartPoint(k: nat)
      requires Built() && k < numRestarts
      modifies this`key, this`restartIndex, this`valueStart, this`valueLength
      ensures k * interval <= |items| && (|items| > 0 ==> k * interval < |items|) && Ready(k * interval)
    {
      RestartEntry(|items|, interval, k);
      var offset := GetRestartPoint(k);
      key, restartIndex, valueStart, valueLength := [], k, offset, 0;
      DivideUnique(k * interval, interval, k, 0);
    }

    // ParseNextKey.  In a block as BlockBuilder builds it no entry fails to parse.
    method ParseNextKey(ghost i: nat) returns (more: bool)
      requires Ready(i)
      modifies this
      ensures Ok() && (more <==> i < |items|) && pos == if more then Some(i) else None
    {
      hide Offset, BlockBytes, DecodeEntry, Sizes;
      current := valueStart + valueLength;
      EntryLimits(items, interval, i, data, restarts);
      if current >= restarts {
        current, restartIndex, pos := restarts, numRestarts, None;
        return false;
      }
      var h := DecodeEntry(data[current..restarts]);
      EntryParsed(items, interval, i, data, restarts, key, h, if h.Header? then restarts - |h.rest| else 0);
      var p := restarts - |h.rest|;
      key := key[..h.shared] + data[p..p + h.nonShared];
      valueStart, valueLength, pos := p + h.nonShared, h.valueLength, Some(i);
      SkipRestartPoints(i);
      return true;
    }

    method Next()
      requires Ok() && Valid()
      modifies this
      ensures Ok() && old(pos).Some? && pos == if old(pos.value) + 1 < |items| then Some(old(pos.value) + 1) else None
    {
      hide Offset, BlockBytes, Sizes;
      ValidIff();
      var _ := ParseNextKey(pos.value + 1);
    }

    method Prev()
      requires Ok() && Valid()
      modifies this
      ensures Ok() && old(pos).Some? && pos == if old(pos.value) > 0 then Some(old(pos.value) - 1) else None
    {
      hide Offset, BlockBytes;
      ValidIff();
      ghost var c := pos.value;
      var original := current;
      var found := BackToRestart(c);
      if !found {
        return;
      }
      ghost var i := restartIndex * interval;
      SeekToRestartPoint(restartIndex);
      while true
        invariant Ready(i) && i < c
        decreases c - i
      {
        // Loop until the end of the current entry hits the start of the original one.
        var more := ParseNextKey(i);
        EntryOrder(items, interval, i + 1, c);
        if !more || valueStart + valueLength >= original {
          break;
        }
        i := i + 1;
      }
    }

    // The loop of Prev that scans backwards to a restart point before the current entry.
    method BackToRestart(ghost c: nat) returns (found: bool)
      requires Ok() && pos == Some(c)
      modifies this`current, this`restartIndex, this`pos
      ensures found ==> c < |items| && restartIndex < numRestarts && restartIndex * interval < c
      ensures !found ==> Ok() && pos == None && c == 0
    {
      hide Offset, BlockBytes;
      var original := current;
      while true
        invariant current == original && pos == Some(c) && restartIndex < numRestarts
        decreases restartIndex
      {
        var point := GetRestartPoint(restartIndex);
        if point < original {
          EarlierEntry(items, interval, restartIndex, c);
          return true;
        }
        LaterEntry(items, interval, restartIndex, c);
        if restartIndex == 0 {
          current, restartIndex, pos := restarts, numRestarts, None;
          return false;
        }
        restartIndex := restartIndex - 1;
      }
    }

    method SeekToFirst()
      requires Ok()
      modifies this
      ensures Ok() && pos == if items == [] then None else Some(0)
    {
      hide Offset, BlockBytes, Sizes, NumRestarts;
      SeekToRestartPoint(0);
      var _ := ParseNextKey(0);
    }

    method SeekToLast()
      requires Ok()
      modifies this
      ensures Ok() && pos == if items == [] then None else Some(|items| - 1)
    {
      hide Offset, BlockBytes, NumRestarts;
      SeekToRestartPoint(numRestarts - 1);
      ghost var i := (numRestarts - 1) * interval;
      while true
        invariant Ready(i) && (i < |items| || items == [])
        decreases |items| - i
      {
        var more := ParseNextKey(i);
        if i < |items| {
          EntryOrder(items, interval, i + 1, |items|);
        }
        if !more || valueStart + valueLength >= restarts {
          break;
        }
        i := i + 1;
      }
    }

    // The key at a restart point, which is stored whole.
    method RestartKey(k: nat) returns (midKey: Key)
      requires Built() && k < numRestarts && items != []
      ensures k * interval < |items| && midKey == items[k * interval].key
    {
      hide Offset, BlockBytes, NumRestarts, DecodeEntry;
      RestartEntry(|items|, interval, k);
      ghost var i := k * interval;
      DivideUnique(i, interval, k, 0);
      var offset := GetRestartPoint(k);
      EntryLimits(items, interval, i, data, restarts);
      var h := DecodeEntry(data[offset..restarts]);
      EntryParsed(items, interval, i, data, restarts, if i > 0 then items[i - 1].key else [], h, if h.Header? then restarts - |h.rest| else 0);
      RestartIsWhole(items, interval, i, data, restarts, h);
      assert h.Header? && h.shared == 0;
      var p := restarts - |h.rest|;
      midKey := data[p..p + h.nonShared];
    }

    // Binary search for the last restart point with a key before the target.
    method FindRestart(target: Key) returns (left: nat)
      requires Built()
      ensures left < numRestarts
      ensures left > 0 ==> left * interval < |items| && less(items[left * interval].key, target)
    {
      hide Offset, BlockBytes;
      left := 0;
      var right: nat := numRestarts - 1;
      while left < right
        invariant left <= right < numRestarts
        invariant left > 0 ==> left * interval < |items| && less(items[left * interval].key, target)
        decreases right - left
      {
        var mid: nat := (left + right + 1) / 2;
        SeveralGroups(|items|, interval, mid);
        var midKey := RestartKey(mid);
        if less(midKey, target) {
          left := mid;
        } else {
          right := mid - 1;
        }
      }
    }

    method Seek(target: Key)
      requires Ok() && TotalOrder(less) && Increasing(less, items)
      modifies this
      ensures Ok()
      ensures var i := SeekItem(less, items, target); pos == if i < |items| then Some(i) else None
    {
      hide Offset, BlockBytes, NumRestarts, TotalOrder, Increasing;
      var left := FindRestart(target);
      // Linear search in the group.
      ghost var i := left * interval;
      SeekToRestartPoint(left);
      AllBefore(less, items, i, target);
      while true
        invariant Ready(i) && forall j :: 0 <= j < i ==> less(items[j].key, target)
        decreases |items| - i
      {
        var more := ParseNextKey(i);
        if !more || !less(key, target) {
          SeekItemIs(less, items, target, i);
          return;
        }
        i := i + 1;
      }
    }

    // The loop at the end of ParseNextKey.
    method SkipRestartPoints(ghost i: nat)
      requires Built() && InGroup(i) && i < |items| && current == Offset(items, interval, i)
      modifies this`restartIndex
      ensures InGroup(i)
    {
      hide Offset, BlockBytes;
      while restartIndex + 1 < numRestarts
        invariant InGroup(i)
        decreases numRestarts - restartIndex
      {
        var next := GetRestartPoint(restartIndex + 1);
        if next >= current {
          break;
        }
        EarlierEntry(items, interval, restartIndex + 1, i);
        restartIndex := restartIndex + 1;
      }
    }
  }

  lemma EntryLimits(items: seq<Item>, interval: nat, i: nat, data: seq<byte>, restarts: nat)
    requires Sizes(items, interval) && data == BlockBytes(items, interval) && i <= |items| && restarts == Offset(items, interval, |items|)
    ensures Offset(items, interval, i) <= restarts <= |data| && (Offset(items, interval, i) < restarts <==> i < |items|)
  {
    OffsetsGrow(items, interval, i, |items|);
    BlockParts(items, interval);
  }

  // What ParseNextKey makes of the bytes at entry i: the decoded header, and where the key delta is.
  lemma EntryParsed(items: seq<Item>, interval: nat, i: nat, data: seq<byte>, restarts: nat, key: Key, h: Header, p: int)
    requires Sizes(items, interval) && data == BlockBytes(items, interval) && i < |items| && restarts == Offset(items, interval, |items|)
    requires i > 0 && i % interval != 0 ==> key == items[i - 1].key
    requires Offset(items, interval, i) <= restarts <= |data| && h == DecodeEntry(data[Offset(items, interval, i)..restarts])
    requires p == if h.Header? then restarts - |h.rest| else 0
    ensures h.Header? && h.shared <= |key|
    ensures 0 <= p && p + h.nonShared + h.valueLength == Offset(items, interval, i + 1) <= restarts
    ensures key[..h.shared] + data[p..p + h.nonShared] == items[i].key
    ensures data[p + h.nonShared..p + h.nonShared + h.valueLength] == items[i].value
  {
    hide BlockBytes, DecodeEntry, Shared, EntryBody, Offset, Rest;
    EntryPlace(items, interval, i, data, restarts);
    var e, shared, end := items[i], Shared(items, interval, i), Offset(items, interval, i + 1);
    BodyLength(shared, e);
    KeyRebuilt(items, interval, i, key);
    BodySplit(data, end - |EntryBody(shared, e)|, shared, e);
  }

  lemma BodyLength(shared: nat, e: Item)
    requires shared <= |e.key|
    ensures |EntryBody(shared, e)| == |e.key| - shared + |e.value|
  {
  }

  // The bytes from entry i to the restart array, and what they decode to.
  lemma EntryPlace(items: seq<Item>, interval: nat, i: nat, data: seq<byte>, restarts: nat)
    requires Sizes(items, interval) && data == BlockBytes(items, interval) && i <= |items| && restarts == Offset(items, interval, |items|)
    ensures Offset(items, interval, i) <= restarts <= |data| && (Offset(items, interval, i) < restarts <==> i < |items|)
    ensures i < |items| ==>
      var e, shared, end := items[i], Shared(items, interval, i), Offset(items, interval, i + 1);
      && DecodeEntry(data[Offset(items, interval, i)..restarts]) ==
           Header(shared, |e.key| - shared, |e.value|, EntryBody(shared, e) + Rest(items, interval, i + 1))
      && |EntryBody(shared, e)| <= end <= restarts && |Rest(items, interval, i + 1)| == restarts - end
      && data[end - |EntryBody(shared, e)|..end] == EntryBody(shared, e)
  {
    hide Data, EncodeEntry, Shared, DecodeEntry, BlockBytes;
    OffsetsGrow(items, interval, i, |items|);
    BlockParts(items, interval);
    if i < |items| {
      var e, shared := items[i], Shared(items, interval, i);
      RestStep(items, interval, i);
      OffsetsGrow(items, interval, i + 1, |items|);
      EntryIsDecoded(shared, e, Rest(items, interval, i + 1));
      BodyPlace(items, interval, i, data);
      assert data[Offset(items, interval, i)..restarts] == data[..restarts][Offset(items, interval, i)..];
    }
  }

  lemma BodyPlace(items: seq<Item>, interval: nat, i: nat, data: seq<byte>)
    requires interval >= 1 && i < |items| && Offset(items, interval, i + 1) <= |data|
    requires Offset(items, interval, i + 1) <= Offset(items, interval, |items|) <= |data|
    requires data[..Offset(items, interval, |items|)] == Data(items, interval, |items|)
    ensures var end, body := Offset(items, interval, i + 1), EntryBody(Shared(items, interval, i), items[i]);
            |body| <= end && data[end - |body|..end] == body
  {
    OffsetsGrow(items, interval, i + 1, |items|);
    var before, header, body := Data(items, interval, i), EntryHeader(Shared(items, interval, i), items[i]), EntryBody(Shared(items, interval, i), items[i]);
    assert Data(items, interval, i + 1) == before + (header + body);
    hide Data, EntryHeader, EntryBody, Shared;
    Regroup(before, header, body);
    var upTo := Data(items, interval, i + 1);
    assert data[..|upTo|] == upTo by {
      assert data[..|upTo|] == data[..Offset(items, interval, |items|)][..|upTo|];
    }
    assert upTo[|upTo| - |body|..] == body;
    assert data[|upTo| - |body|..|upTo|] == upTo[|upTo| - |body|..];
  }

  lemma BodySplit(data: seq<byte>, p: nat, shared: nat, e: Item)
    requires shared <= |e.key| && p + |EntryBody(shared, e)| <= |data| && data[p..p + |EntryBody(shared, e)|] == EntryBody(shared, e)
    ensures var q := p + |e.key| - shared; q + |e.value| <= |data| && data[p..q] == e.key[shared..] && data[q..q + |e.value|] == e.value
  {
    var n, k := |EntryBody(shared, e)|, |e.key| - shared;
    Subslice(data, p, p + n, 0, k);
    Subslice(data, p, p + n, k, n);
    assert EntryBody(shared, e)[..k] == e.key[shared..] && EntryBody(shared, e)[k..] == e.value;
    assert data[p..p + n][0..k] == data[p..p + n][..k] && data[p..p + n][k..n] == data[p..p + n][k..];
  }

  // The key of an entry, from the shared part of the key before it and its own part.
  lemma KeyRebuilt(items: seq<Item>, interval: nat, i: nat, key: Key)
    requires interval >= 1 && i < |items| && (i > 0 && i % interval != 0 ==> key == items[i - 1].key)
    ensures Shared(items, interval, i) <= |key| && key[..Shared(items, interval, i)] + items[i].key[Shared(items, interval, i)..] == items[i].key
  {
    var n := Shared(items, interval, i);
    assert key[..n] == items[i].key[..n];
    assert items[i].key[..n] + items[i].key[n..] == items[i].key;
  }

  lemma RestartIsWhole(items: seq<Item>, interval: nat, i: nat, data: seq<byte>, restarts: nat, h: Header)
    requires Sizes(items, interval) && data == BlockBytes(items, interval) && i < |items| && restarts == Offset(items, interval, |items|)
    requires i % interval == 0 && Offset(items, interval, i) <= restarts <= |data|
    requires h == DecodeEntry(data[Offset(items, interval, i)..restarts])
    ensures h.Header? && h.shared == 0
  {
    hide BlockBytes, DecodeEntry, EntryBody, Offset, Rest;
    EntryPlace(items, interval, i, data, restarts);
  }

  // With more than one restart point there are entries.
  lemma SeveralGroups(n: nat, interval: nat, k: nat)
    requires interval >= 1 && 0 < k < NumRestarts(n, interval)
    ensures n > 0
  {
  }

  lemma AllBefore(less: Order, items: seq<Item>, i: nat, target: Key)
    requires TotalOrder(less) && Increasing(less, items) && i <= |items|
    requires i > 0 && i < |items| ==> less(items[i].key, target)
    requires i == |items| ==> items == []
    ensures forall j :: 0 <= j < i ==> less(items[j].key, target)
  {
  }

  lemma SeekItemIs(less: Order, items: seq<Item>, target: Key, i: nat)
    requires i <= |items| && (forall j :: 0 <= j < i ==> less(items[j].key, target))
    requires i < |items| ==> !less(items[i].key, target)
    ensures SeekItem(less, items, target) == i
  {
  }

  lemma EntryOrder(items: seq<Item>, interval: nat, i: nat, j: nat)
    requires interval >= 1 && i <= |items| && j <= |items|
    ensures Offset(items, interval, i) < Offset(items, interval, j) <==> i < j
  {
    if i < j {
      OffsetsGrow(items, interval, i, j);
    } else {
      OffsetsGrow(items, interval, j, i);
    }
  }

  // A restart point at or after entry c belongs to it or to a later group.
  lemma LaterEntry(items: seq<Item>, interval: nat, k: nat, c: nat)
    requires interval >= 1 && k < NumRestarts(|items|, interval) && c <= |items|
    requires RestartOffset(items, interval, k) >= Offset(items, interval, c)
    ensures k * interval >= c
  {
    RestartEntry(|items|, interval, k);
    if k * interval < c {
      OffsetsGrow(items, interval, k * interval, c);
    }
  }

  // A restart point before entry i belongs to an earlier group.
  lemma EarlierEntry(items: seq<Item>, interval: nat, k: nat, i: nat)
    requires interval >= 1 && k < NumRestarts(|items|, interval) && i <= |items|
    requires RestartOffset(items, interval, k) < Offset(items, interval, i)
    ensures k * interval < i
  {
    RestartEntry(|items|, interval, k);
    if i <= k * interval {
      OffsetsGrow(items, interval, i, k * interval);
    }
  }
}
