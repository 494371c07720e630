/** BlockBuilder (table/block_builder.cc). */
module BlockBuilder {
  import opened Wrappers
  import opened Bytes
  import opened Coding
  import opened BlockFormat

  class BlockBuilder {
    const interval: nat
    var buffer: seq<byte>
    var restarts: seq<nat>
    var counter: nat
    var lastKey: Key
    // The items added.
    ghost var items: seq<Item>

    ghost predicate Valid()
      reads this
    {
      && interval >= 1
      && buffer == Data(items, interval, |items|)
      && |restarts| == NumRestarts(|items|, interval)
      && (forall r :: 0 <= r < |restarts| ==> restarts[r] == RestartOffset(items, interval, r))
      && (if items == [] then counter == 0 && lastKey == []
          else lastKey == items[|items| - 1].key && counter == (|items| - 1) % interval + 1)
    }

    constructor (interval: nat)
      requires interval >= 1
      ensures Valid() && this.interval == interval && items == []
    {
      this.interval := interval;
      buffer, restarts, counter, lastKey, items := [], [0], 0, [], [];
    }

    method Reset()
      requires Valid()
      modifies this
      ensures Valid() && items == []
    {
      buffer, restarts, counter, lastKey, items := [], [0], 0, [], [];
    }

    // empty()
    method Empty() returns (empty: bool)
      requires Valid()
      ensures empty <==> items == []
    {
      OffsetsGrow(items, interval, 0, |items|);
      empty := buffer == [];
    }

    // CurrentSizeEstimate: the size of the block if it were finished now.
    method CurrentSizeEstimate() returns (size: nat)
      requires Valid()
      ensures size == |BlockBytes(items, interval)|
    {
      size := |buffer| + |restarts| * 4 + 4;
    }

    method Add(e: Item)
      requires Valid()
      modifies this
      ensures Valid() && items == old(items) + [e]
    {
      hide CommonPrefix, EncodeEntry, NumRestarts;
      ghost var was := items;
      ghost var n := |items|;
      items := items + [e];
      RestartsKept(was, e, interval);
      NextGroupSize(n, interval);
      var shared := 0;
      if counter < interval {
        shared := SharedLength(lastKey, e.key);
      } else {
        NewRestart(was, e, interval);
        restarts := restarts + [|buffer|];
        counter := 0;
      }
      assert shared == Shared(items, interval, n);
      var nonShared := |e.key| - shared;
      var entry := EncodeEntry(shared, e);
      buffer := buffer + entry;
      lastKey := lastKey[..shared] + e.key[shared..];
      counter := counter + 1;
    }

    method Finish() returns (block: seq<byte>)
      requires Valid()
      ensures block == BlockBytes(items, interval)
    {
      hide Fixed32, Data, RestartOffset, NumRestarts;
      block := buffer;
      for i := 0 to |restarts|
        invariant block + RestartArray(items, interval, i) == buffer + RestartArray(items, interval, 0)
      {
        ghost var rest := RestartArray(items, interval, i + 1);
        Regroup(block, Fixed32(restarts[i]), rest);
        block := block + Fixed32(restarts[i]);
      }
      block := block + Fixed32(|restarts|);
    }
  }

  // The loop of Add that compares the key with the one before it.
  method SharedLength(lastKey: Key, key: Key) returns (shared: nat)
    ensures shared == CommonPrefix(lastKey, key)
  {
    shared := 0;
    while shared < |lastKey| && shared < |key| && lastKey[shared] == key[shared]
      invariant shared <= |lastKey| && shared <= |key| && lastKey[..shared] == key[..shared]
    {
      shared := shared + 1;
    }
    LongestPrefix(lastKey, key, shared);
  }

  lemma LongestPrefix(a: Key, b: Key, n: nat)
    requires n <= |a| && n <= |b| && a[..n] == b[..n] && (n < |a| && n < |b| ==> a[n] != b[n])
    ensures n == CommonPrefix(a, b)
  {
    var m := CommonPrefix(a, b);
    Agree(a, b, n);
    Agree(a, b, m);
  }

  lemma Agree(a: Key, b: Key, n: nat)
    requires n <= |a| && n <= |b| && a[..n] == b[..n]
    ensures forall i :: 0 <= i < n ==> a[i] == b[i]
  {
    assert forall i :: 0 <= i < n ==> a[..n][i] == a[i] && b[..n][i] == b[i];
  }

  // Adding an item keeps the data and the restart points there are.
  lemma RestartsKept(items: seq<Item>, e: Item, interval: nat)
    requires interval >= 1
    ensures Data(items + [e], interval, |items|) == Data(items, interval, |items|)
    ensures NumRestarts(|items|, interval) <= NumRestarts(|items| + 1, interval)
    ensures forall r :: 0 <= r < NumRestarts(|items|, interval) ==>
              RestartOffset(items + [e], interval, r) == RestartOffset(items, interval, r)
  {
    hide Data, NumRestarts;
    NextGroupSize(|items|, interval);
    DataExtends(items, items + [e], interval, |items|);
    forall r | 0 <= r < NumRestarts(|items|, interval)
      ensures RestartOffset(items + [e], interval, r) == RestartOffset(items, interval, r)
    {
      RestartEntry(|items|, interval, r);
      DataExtends(items, items + [e], interval, r * interval);
    }
  }

  // A new restart point is where the data ended.
  lemma NewRestart(items: seq<Item>, e: Item, interval: nat)
    requires interval >= 1 && NumRestarts(|items| + 1, interval) == NumRestarts(|items|, interval) + 1
    requires NumRestarts(|items|, interval) * interval == |items|
    ensures RestartOffset(items + [e], interval, NumRestarts(|items|, interval)) == Offset(items, interval, |items|)
  {
    hide Data, NumRestarts;
    DataExtends(items, items + [e], interval, |items|);
  }

  lemma NextGroupSize(n: nat, interval: nat)
    requires interval >= 1
    ensures NumRestarts(n, interval) <= NumRestarts(n + 1, interval)
    ensures n == 0 ==> n % interval == 0 && NumRestarts(n + 1, interval) == 1
    ensures n > 0 ==>
      var c := (n - 1) % interval + 1;
      && (c < interval ==> n % interval == c && NumRestarts(n + 1, interval) == NumRestarts(n, interval))
      && (c == interval ==> n % interval == 0 && NumRestarts(n + 1, interval) == NumRestarts(n, interval) + 1 &&
                            NumRestarts(n, interval) * interval == n)
  {
    if n > 0 {
      var q, r := (n - 1) / interval, (n - 1) % interval;
      assert n - 1 == q * interval + r;
      if r + 1 < interval {
        DivideUnique(n, interval, q, r + 1);
      } else {
        MultiplySum(q, 1, interval);
        DivideUnique(n, interval, q + 1, 0);
      }
    } else {
      DivideUnique(0, interval, 0, 0);
    }
  }
}
