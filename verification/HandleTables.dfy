/**
  The handles of the LRU cache and its hash table (util/cache.cc).
 */
module HandleTables {
  import opened Bytes

  // What a lookup compares: the hash first, then the key.
  datatype Name = Name(key: seq<byte>, hash: nat)

  class LRUHandle {
    const name: Name
    const value: string
    const charge: nat
    var nextHash: LRUHandle?
    var next: LRUHandle?
    var prev: LRUHandle?
    var inCache: bool
    var refs: nat

    constructor (name: Name, value: string, charge: nat)
      ensures this.name == name && this.value == value && this.charge == charge
    {
      this.name, this.value, this.charge := name, value, charge;
      nextHash, next, prev, inCache, refs := null, null, null, false, 0;
    }
  }

  // ---- Chains ----

  ghost predicate Distinct(c: seq<LRUHandle>) {
    forall i, j :: 0 <= i < j < |c| ==> c[i] != c[j]
  }

  // What follows place i of a chain.
  function LinkAfter(c: seq<LRUHandle>, i: nat): LRUHandle?
    requires i <= |c|
  {
    if i == |c| then null else c[i]
  }

  // The handles of c, in order, from `first` along next_hash.
  ghost predicate IsChain(first: LRUHandle?, c: seq<LRUHandle>)
    reads c`nextHash
  {
    first == LinkAfter(c, 0) && forall i :: 0 <= i < |c| ==> c[i].nextHash == LinkAfter(c, i + 1)
  }

  // The bucket of a name among m: `hash & (length_ - 1)`, m being a power of two.
  function BucketOf(n: Name, m: nat): (b: nat)
    requires 0 < m
    ensures b < m
  {
    n.hash % m
  }

  predicate IsTableSize(m: nat) {
    m == 4 || (m > 4 && m % 2 == 0 && IsTableSize(m / 2))
  }

  // c is all of bucket b of the handles S, once each.
  ghost predicate IsBucket(c: seq<LRUHandle>, S: set<LRUHandle>, m: nat, b: nat)
    requires 0 < m
  {
    && Distinct(c)
    && (forall h :: h in c ==> h in S && BucketOf(h.name, m) == b)
    && (forall h :: h in S && BucketOf(h.name, m) == b ==> h in c)
  }

  ghost predicate Spread(chains: seq<seq<LRUHandle>>, S: set<LRUHandle>) {
    0 < |chains| && forall b :: 0 <= b < |chains| ==> IsBucket(chains[b], S, |chains|, b)
  }

  ghost predicate Named(entries: map<Name, LRUHandle>) {
    forall n :: n in entries ==> entries[n].name == n
  }

  // ---- Buckets under one change ----

  lemma OtherBucket(c: seq<LRUHandle>, S: set<LRUHandle>, S': set<LRUHandle>, m: nat, b: nat)
    requires 0 < m && IsBucket(c, S, m, b)
    requires forall h :: h in S - S' || h in S' - S ==> BucketOf(h.name, m) != b
    ensures IsBucket(c, S', m, b)
  {
  }

  lemma BucketWith(c: seq<LRUHandle>, S: set<LRUHandle>, m: nat, h: LRUHandle)
    requires 0 < m && IsBucket(c, S, m, BucketOf(h.name, m)) && h !in S
    ensures IsBucket([h] + c, S + {h}, m, BucketOf(h.name, m)) && IsBucket(c + [h], S + {h}, m, BucketOf(h.name, m))
  {
    hide BucketOf;
    assert h !in c;
  }

  lemma BucketReplaced(c: seq<LRUHandle>, S: set<LRUHandle>, m: nat, i: nat, h: LRUHandle)
    requires 0 < m && IsBucket(c, S, m, BucketOf(h.name, m)) && h !in S && i < |c|
    ensures IsBucket(c[i := h], S - {c[i]} + {h}, m, BucketOf(h.name, m))
  {
    hide BucketOf;
    assert h !in c && c[i := h][i] == h;
    forall x | x in c && x != c[i] ensures x in c[i := h] {
      var j :| 0 <= j < |c| && c[j] == x;
      assert c[i := h][j] == x;
    }
  }

  lemma BucketWithout(c: seq<LRUHandle>, S: set<LRUHandle>, m: nat, b: nat, i: nat)
    requires 0 < m && IsBucket(c, S, m, b) && i < |c|
    ensures IsBucket(Without(c, i), S - {c[i]}, m, b)
  {
    hide BucketOf;
    var c' := Without(c, i);
    assert forall j :: 0 <= j < |c'| ==> c'[j] == if j < i then c[j] else c[j + 1];
    forall x | x in c && x != c[i] ensures x in c' {
      var j :| 0 <= j < |c| && c[j] == x;
      assert x == if j < i then c'[j] else c'[j - 1];
    }
  }

  // Place i of a chain taken by h, at the end or in place of another handle.
  ghost function Placed(c: seq<LRUHandle>, i: nat, h: LRUHandle): seq<LRUHandle>
    requires i <= |c|
  {
    if i == |c| then c + [h] else c[i := h]
  }

  ghost function Without(c: seq<LRUHandle>, i: nat): seq<LRUHandle>
    requires i < |c|
  {
    c[..i] + c[i + 1..]
  }

  lemma WithoutAt(c: seq<LRUHandle>, i: nat)
    requires i < |c|
    ensures |Without(c, i)| == |c| - 1
    ensures forall j :: 0 <= j < |c| - 1 ==> Without(c, i)[j] == if j < i then c[j] else c[j + 1]
  {
  }

  // The entry of a name, and no other handle of that name, is in the bucket of the name.
  lemma BucketHolds(chains: seq<seq<LRUHandle>>, entries: map<Name, LRUHandle>, n: Name)
    requires |chains| > 0 && Spread(chains, entries.Values) && Named(entries)
    ensures var c := chains[BucketOf(n, |chains|)];
      && (n in entries ==> entries[n] in c && entries[n].name == n)
      && forall h :: h in c && h.name == n ==> n in entries && entries[n] == h
  {
    hide BucketOf;
    var b := BucketOf(n, |chains|);
    assert IsBucket(chains[b], entries.Values, |chains|, b);
    assert n in entries ==> entries[n] in entries.Values;
  }

  class HandleTable {
    var length: nat
    var elems: nat
    var list: array<LRUHandle?>
    ghost var chains: seq<seq<LRUHandle>>
    ghost var entries: map<Name, LRUHandle>

    ghost predicate Linked()
      reads this, list, entries.Values`nextHash
    {
      && 0 < length == list.Length == |chains|
      && elems == |entries|
      && Named(entries) && Spread(chains, entries.Values)
      && forall b :: 0 <= b < length ==> Owned(chains[b]) && IsChain(list[b], chains[b])
    }

    ghost predicate Owned(c: seq<LRUHandle>)
      reads this
    {
      forall h :: h in c ==> h in entries.Values
    }

    // Chains are short on average: no more entries than buckets.
    ghost predicate Valid()
      reads this, list, entries.Values`nextHash
    {
      Linked() && IsTableSize(length) && elems <= length
    }

    // HandleTable(): Resize() of no entries leaves four empty buckets.
    constructor ()
      ensures Valid() && entries == map[] && fresh(list)
    {
      length, elems, list := 4, 0, new LRUHandle?[4](_ => null);
      chains, entries := seq(4, _ => []), map[];
    }

    lemma LinkedBuckets()
      requires Linked()
      ensures 0 < length == list.Length == |chains| && Named(entries) && Spread(chains, entries.Values)
      ensures forall b :: 0 <= b < length ==> IsChain(list[b], chains[b])
    {
    }

    // FindPointer: the slot that points to the entry, or the last slot of its bucket.  The slot
    // is the next_hash of `before`, or the bucket itself.
    method FindPointer(n: Name) returns (before: LRUHandle?, at: LRUHandle?, ghost i: nat)
      requires Valid()
      ensures 0 < length == |chains| && i <= |chains[BucketOf(n, length)]|
      ensures at == LinkAfter(chains[BucketOf(n, length)], i)
      ensures before == if i == 0 then null else chains[BucketOf(n, length)][i - 1]
      ensures if n in entries then at == entries[n] else at == null
    {
      hide IsTableSize, Spread, Named, BucketOf, Linked;
      LinkedBuckets();
      ghost var c := chains[BucketOf(n, length)];
      BucketHolds(chains, entries, n);
      i := 0;
      before, at := null, list[BucketOf(n, length)];
      while at != null && (at.name.hash != n.hash || n.key != at.name.key)
        invariant i <= |c| && at == LinkAfter(c, i)
        invariant before == if i == 0 then null else c[i - 1]
        invariant forall j :: 0 <= j < i ==> c[j].name != n
        decreases |c| - i
      {
        assert i < |c| && at == c[i];
        before, at := at, at.nextHash;
        i := i + 1;
      }
    }

    // HandleTable::Lookup
    method Lookup(n: Name) returns (h: LRUHandle?)
      requires Valid()
      ensures h == if n in entries then entries[n] else null
    {
      var before, at, i := FindPointer(n);
      h := at;
    }

    // The two stores of HandleTable::Insert.
    static method LinkIn(list: array<LRUHandle?>, b: nat, h: LRUHandle, before: LRUHandle?, at: LRUHandle?,
        ghost chains: seq<seq<LRUHandle>>, ghost S: set<LRUHandle>, ghost i: nat)
      requires list.Length == |chains| && b < |chains| && Spread(chains, S) && h !in S && i <= |chains[b]|
      requires forall d :: 0 <= d < |chains| ==> IsChain(list[d], chains[d])
      requires at == LinkAfter(chains[b], i) && before == if i == 0 then null else chains[b][i - 1]
      modifies list, S`nextHash, h`nextHash
      ensures forall d :: 0 <= d < |chains| && d != b ==> IsChain(list[d], chains[d])
      ensures IsChain(list[b], Placed(chains[b], i, h))
    {
      hide Spread;
      OtherChains(chains, S, b);
      h.nextHash := if at == null then null else at.nextHash;
      if before == null {
        list[b] := h;
      } else {
        before.nextHash := h;
      }
    }

    // The store of HandleTable::Remove.
    static method LinkOut(list: array<LRUHandle?>, b: nat, before: LRUHandle?, at: LRUHandle,
        ghost chains: seq<seq<LRUHandle>>, ghost S: set<LRUHandle>, ghost i: nat)
      requires list.Length == |chains| && b < |chains| && Spread(chains, S) && i < |chains[b]|
      requires forall d :: 0 <= d < |chains| ==> IsChain(list[d], chains[d])
      requires at == chains[b][i] && before == if i == 0 then null else chains[b][i - 1]
      modifies list, S`nextHash
      ensures forall d :: 0 <= d < |chains| && d != b ==> IsChain(list[d], chains[d])
      ensures IsChain(list[b], Without(chains[b], i))
    {
      hide Spread;
      OtherChains(chains, S, b);
      WithoutAt(chains[b], i);
      if before == null {
        list[b] := at.nextHash;
      } else {
        before.nextHash := at.nextHash;
      }
    }

    // HandleTable::Insert: the new entry takes the place of the old one of its name, if any.
    method Insert(h: LRUHandle) returns (replaced: LRUHandle?)
      requires Valid() && h !in entries.Values
      modifies this, list, entries.Values`nextHash, h`nextHash
      ensures Valid() && entries == old(entries)[h.name := h] && (list == old(list) || fresh(list))
      ensures replaced == if h.name in old(entries) then old(entries)[h.name] else null
    {
      hide IsTableSize, Spread, IsBucket, BucketOf, Distinct, IsChain, Placed, Without, Named;
      var b := BucketOf(h.name, length);
      ghost var chains0, entries0 := chains, entries;
      var before, at, i := FindPointer(h.name);
      replaced := at;
      LinkIn(list, b, h, before, at, chains, entries.Values, i);
      chains := chains[b := Placed(chains[b], i, h)];
      entries := entries[h.name := h];
      assert forall d :: 0 <= d < |chains| ==> IsChain(list[d], chains[d]);
      PlacedSpread(chains0, entries0, b, i, h);
      SpreadOwned(chains, entries.Values);
      if at == null {
        elems := elems + 1;
        assert Linked();
        if elems > length {
          Resize();
        }
      }
    }

    // HandleTable::Remove
    method Remove(n: Name) returns (removed: LRUHandle?)
      requires Valid()
      modifies this, list, entries.Values`nextHash
      ensures Valid() && entries == old(entries) - {n} && list == old(list)
      ensures removed == if n in old(entries) then old(entries)[n] else null
    {
      hide IsTableSize, Spread, IsBucket, BucketOf, Distinct, IsChain, Placed, Without, Named;
      var b := BucketOf(n, length);
      ghost var chains0, entries0 := chains, entries;
      var before, at, i := FindPointer(n);
      removed := at;
      if at != null {
        LinkOut(list, b, before, at, chains, entries.Values, i);
        chains := chains[b := Without(chains[b], i)];
        entries := entries - {n};
        RemovedSpread(chains0, entries0, b, i, n);
        SpreadOwned(chains, entries.Values);
        elems := elems - 1;
      }
    }

    // HandleTable::Resize: every handle moves to its bucket in a list of the new size.
    method Resize()
      requires Linked()
      modifies this, entries.Values`nextHash
      ensures Valid() && entries == old(entries) && fresh(list)
      ensures length == 4 || length / 2 < elems
    {
      hide Spread, IsBucket, IsChain, IsTableSize;
      var newLength := NewLength(elems);
      var newList := new LRUHandle?[newLength](_ => null);
      ghost var newChains := MoveAll(list, chains, newList, entries.Values);
      SpreadOwned(newChains, entries.Values);
      list, length, chains := newList, newLength, newChains;
    }

    static method NewLength(elems: nat) returns (r: nat)
      ensures IsTableSize(r) && elems <= r && 0 < r && (r == 4 || r / 2 < elems)
    {
      r := 4;
      while r < elems
        invariant IsTableSize(r) && (r == 4 || r / 2 < elems)
        decreases elems - r
      {
        r := r * 2;
      }
    }

    static method MoveAll(list: array<LRUHandle?>, ghost chains: seq<seq<LRUHandle>>, newList: array<LRUHandle?>,
        ghost S: set<LRUHandle>)
      returns (ghost r: seq<seq<LRUHandle>>)
      requires list != newList && 0 < newList.Length && list.Length == |chains| && Spread(chains, S)
      requires forall b :: 0 <= b < newList.Length ==> newList[b] == null
      requires forall b :: 0 <= b < |chains| ==> IsChain(list[b], chains[b])
      modifies newList, S`nextHash
      ensures |r| == newList.Length && Spread(r, S)
      ensures forall b :: 0 <= b < |r| ==> IsChain(newList[b], r[b])
    {
      hide Spread, IsBucket, BucketOf, Distinct, Below, Members;
      r := seq(newList.Length, _ => []);
      SpreadAll(chains, S);
      NothingMoved(S, newList.Length, list.Length);
      NoChain();
      for i := 0 to list.Length
        invariant |r| == newList.Length && Spread(r, Below(S, list.Length, i))
        invariant forall d :: 0 <= d < |r| ==> IsChain(newList[d], r[d])
        invariant forall d :: i <= d < list.Length ==> IsChain(list[d], chains[d])
        invariant list[..] == old(list[..])
      {
        NextBucket(chains, S, i);
        r := MoveChain(list[i], newList, chains[i], r, Below(S, list.Length, i));
        forall d | i < d < list.Length ensures IsChain(list[d], chains[d]) {
          assert forall h :: h in chains[d] ==> h !in chains[i];
        }
      }
    }

    static method PushFront(newList: array<LRUHandle?>, h: LRUHandle, ghost chains: seq<seq<LRUHandle>>, ghost S: set<LRUHandle>)
      requires 0 < newList.Length == |chains| && Spread(chains, S) && h !in S
      requires forall d :: 0 <= d < |chains| ==> IsChain(newList[d], chains[d])
      modifies newList, h`nextHash
      ensures var b := BucketOf(h.name, |chains|);
              forall d :: 0 <= d < |chains| ==> IsChain(newList[d], if d == b then [h] + chains[b] else chains[d])
    {
      hide Spread, IsBucket, BucketOf;
      SpreadOwned(chains, S);
      var b := BucketOf(h.name, newList.Length);
      h.nextHash := newList[b];
      newList[b] := h;
    }

    static method MoveChain(first: LRUHandle?, newList: array<LRUHandle?>, ghost c: seq<LRUHandle>,
        ghost newChains: seq<seq<LRUHandle>>, ghost moved: set<LRUHandle>)
      returns (ghost r: seq<seq<LRUHandle>>)
      requires IsChain(first, c) && Distinct(c) && newList.Length == |newChains| && Spread(newChains, moved)
      requires forall h :: h in c ==> h !in moved
      requires forall d :: 0 <= d < |newChains| ==> IsChain(newList[d], newChains[d])
      modifies newList, c`nextHash
      ensures |r| == |newChains| && Spread(r, moved + Members(c))
      ensures forall d :: 0 <= d < |r| ==> IsChain(newList[d], r[d])
    {
      r := newChains;
      var h := first;
      ghost var k := 0;
      while h != null
        invariant k <= |c| && |r| == |newChains| && Spread(r, moved + Members(c[..k]))
        invariant h == LinkAfter(c, k) && forall j :: k <= j < |c| ==> c[j].nextHash == LinkAfter(c, j + 1)
        invariant forall d :: 0 <= d < |r| ==> IsChain(newList[d], r[d])
        decreases |c| - k
      {
        MembersNext(c, k);
        MovedSpread(r, moved + Members(c[..k]), h);
        assert moved + Members(c[..k + 1]) == moved + Members(c[..k]) + {h};
        var next := h.nextHash;
        PushFront(newList, h, r, moved + Members(c[..k]));
        r := r[BucketOf(h.name, |r|) := [h] + r[BucketOf(h.name, |r|)]];
        h := next;
        k := k + 1;
      }
      assert c[..k] == c;
    }
  }

  ghost function Members(c: seq<LRUHandle>): set<LRUHandle> {
    set h | h in c
  }

  ghost function Below(S: set<LRUHandle>, m: nat, i: nat): set<LRUHandle>
    requires 0 < m
  {
    set h | h in S && BucketOf(h.name, m) < i
  }

  lemma NextBucket(chains: seq<seq<LRUHandle>>, S: set<LRUHandle>, i: nat)
    requires Spread(chains, S) && i < |chains|
    ensures Below(S, |chains|, i) + Members(chains[i]) == Below(S, |chains|, i + 1)
    ensures forall h :: h in chains[i] ==> h in S && h !in Below(S, |chains|, i)
    ensures forall d, h :: 0 <= d < |chains| && d != i && h in chains[d] ==> h !in chains[i]
    ensures Distinct(chains[i])
  {
    hide BucketOf, Distinct;
    assert IsBucket(chains[i], S, |chains|, i);
    forall d, h | 0 <= d < |chains| && d != i && h in chains[d] ensures h !in chains[i] {
      assert IsBucket(chains[d], S, |chains|, d);
    }
  }

  lemma NothingMoved(S: set<LRUHandle>, m: nat, from: nat)
    requires 0 < m && 0 < from
    ensures Spread(seq(m, _ => []), Below(S, from, 0))
  {
  }

  lemma NoChain()
    ensures IsChain(null, [])
  {
  }

  lemma SpreadAll(chains: seq<seq<LRUHandle>>, S: set<LRUHandle>)
    requires Spread(chains, S)
    ensures 0 < |chains| && Below(S, |chains|, |chains|) == S
  {
  }

  lemma OtherChains(chains: seq<seq<LRUHandle>>, S: set<LRUHandle>, b: nat)
    requires Spread(chains, S) && b < |chains|
    ensures forall d, j :: 0 <= d < |chains| && d != b && 0 <= j < |chains[d]| ==> chains[d][j] in S && chains[d][j] !in chains[b]
    ensures Distinct(chains[b]) && forall j :: 0 <= j < |chains[b]| ==> chains[b][j] in S
  {
    NextBucket(chains, S, b);
    SpreadOwned(chains, S);
  }

  lemma SpreadOwned(chains: seq<seq<LRUHandle>>, S: set<LRUHandle>)
    requires Spread(chains, S)
    ensures forall b, h :: 0 <= b < |chains| && h in chains[b] ==> h in S
  {
    hide BucketOf, Distinct;
    forall b, h | 0 <= b < |chains| && h in chains[b] ensures h in S {
      assert IsBucket(chains[b], S, |chains|, b);
    }
  }

  lemma MovedSpread(r: seq<seq<LRUHandle>>, S: set<LRUHandle>, h: LRUHandle)
    requires Spread(r, S) && h !in S
    ensures var b := BucketOf(h.name, |r|); Spread(r[b := [h] + r[b]], S + {h})
    ensures forall d :: 0 <= d < |r| ==> h !in r[d]
  {
    hide BucketOf;
    var b := BucketOf(h.name, |r|);
    assert IsBucket(r[b], S, |r|, b);
    BucketWith(r[b], S, |r|, h);
    forall d | 0 <= d < |r| && d != b ensures IsBucket(r[d], S + {h}, |r|, d) {
      assert IsBucket(r[d], S, |r|, d);
      OtherBucket(r[d], S, S + {h}, |r|, d);
    }
  }

  lemma MembersNext(c: seq<LRUHandle>, k: nat)
    requires k < |c|
    ensures Members(c[..k + 1]) == Members(c[..k]) + {c[k]}
    ensures Distinct(c) ==> c[k] !in c[..k]
  {
    assert c[..k + 1] == c[..k] + [c[k]];
  }

  lemma ValuesWith(entries: map<Name, LRUHandle>, h: LRUHandle)
    requires Named(entries)
    ensures Named(entries[h.name := h])
    ensures entries[h.name := h].Values == (if h.name in entries then entries.Values - {entries[h.name]} else entries.Values) + {h}
  {
    var e' := entries[h.name := h];
    assert e'[h.name] == h;
    forall x | x in entries.Values && x != (if h.name in entries then entries[h.name] else h) ensures x in e'.Values {
      var n :| n in entries && entries[n] == x;
      assert e'[n] == x;
    }
  }

  lemma ValuesWithout(entries: map<Name, LRUHandle>, n: Name)
    requires Named(entries) && n in entries
    ensures Named(entries - {n}) && (entries - {n}).Values == entries.Values - {entries[n]}
  {
    var e' := entries - {n};
    forall x | x in entries.Values && x != entries[n] ensures x in e'.Values {
      var m :| m in entries && entries[m] == x;
      assert e'[m] == x;
    }
  }

  lemma PlacedSpread(chains: seq<seq<LRUHandle>>, entries: map<Name, LRUHandle>, b: nat, i: nat, h: LRUHandle)
    requires Spread(chains, entries.Values) && Named(entries)
    requires b == BucketOf(h.name, |chains|) && i <= |chains[b]| && h !in entries.Values
    requires if h.name in entries then i < |chains[b]| && chains[b][i] == entries[h.name] else i == |chains[b]|
    ensures Spread(chains[b := Placed(chains[b], i, h)], entries[h.name := h].Values) && Named(entries[h.name := h])
  {
    hide BucketOf, Distinct, IsBucket;
    var m, S, c := |chains|, entries.Values, chains[b];
    var S' := entries[h.name := h].Values;
    ValuesWith(entries, h);
    assert IsBucket(c, S, m, b);
    if i == |c| {
      BucketWith(c, S, m, h);
    } else {
      BucketReplaced(c, S, m, i, h);
    }
    assert IsBucket(Placed(c, i, h), S', m, b);
    forall d | 0 <= d < m && d != b ensures IsBucket(chains[d], S', m, d) {
      assert IsBucket(chains[d], S, m, d);
      OtherBucket(chains[d], S, S', m, d);
    }
  }

  lemma RemovedSpread(chains: seq<seq<LRUHandle>>, entries: map<Name, LRUHandle>, b: nat, i: nat, n: Name)
    requires Spread(chains, entries.Values) && Named(entries)
    requires b == BucketOf(n, |chains|) && i < |chains[b]| && n in entries && chains[b][i] == entries[n]
    ensures Spread(chains[b := Without(chains[b], i)], (entries - {n}).Values) && Named(entries - {n})
  {
    hide BucketOf, Distinct, IsBucket;
    var m, S, c := |chains|, entries.Values, chains[b];
    var S' := (entries - {n}).Values;
    ValuesWithout(entries, n);
    assert IsBucket(c, S, m, b);
    BucketWithout(c, S, m, b, i);
    forall d | 0 <= d < m && d != b ensures IsBucket(chains[d], S', m, d) {
      assert IsBucket(chains[d], S, m, d);
      OtherBucket(chains[d], S, S', m, d);
    }
  }
}
