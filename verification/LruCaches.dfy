/**
  One shard of the LRU cache (util/cache.cc): two circular doubly linked lists over the handles,
  a hash table, and reference counts.
 */
module LruCaches {
  import opened HandleTables

  // ---- Circular lists ----

  // Place i of a list; both ends are the dummy head.
  function Around(head: LRUHandle, s: seq<LRUHandle>, i: int): LRUHandle
    requires -1 <= i <= |s|
  {
    if 0 <= i < |s| then s[i] else head
  }

  // From head along next, and back along prev, are exactly the handles of s in order.
  ghost predicate Ring(head: LRUHandle, s: seq<LRUHandle>)
    reads head`next, head`prev, s`next, s`prev
  {
    && Distinct(s) && head !in s
    && head.next == Around(head, s, 0) && head.prev == Around(head, s, |s| - 1)
    && forall i :: 0 <= i < |s| ==> s[i].next == Around(head, s, i + 1) && s[i].prev == Around(head, s, i - 1)
  }

  function Minus(s: seq<LRUHandle>, e: LRUHandle): (r: seq<LRUHandle>)
    ensures |r| <= |s| && forall h :: h in r ==> h in s
  {
    if s == [] then [] else if s[0] == e then s[1..] else [s[0]] + Minus(s[1..], e)
  }

  lemma {:induction false} MinusIsWithout(s: seq<LRUHandle>, k: nat)
    requires k < |s| && Distinct(s)
    ensures Minus(s, s[k]) == Without(s, k)
  {
    if k > 0 {
      assert s[0] != s[k];
      MinusIsWithout(s[1..], k - 1);
    }
  }

  lemma WithoutMembers(s: seq<LRUHandle>, k: nat)
    requires k < |s| && Distinct(s)
    ensures Distinct(Without(s, k)) && Members(Without(s, k)) == Members(s) - {s[k]}
  {
    var c' := Without(s, k);
    assert forall j :: 0 <= j < |c'| ==> c'[j] == if j < k then s[j] else s[j + 1];
    forall x | x in s && x != s[k] ensures x in c' {
      var j :| 0 <= j < |s| && s[j] == x;
      assert x == if j < k then c'[j] else c'[j - 1];
    }
  }

  function Total(s: seq<LRUHandle>): nat {
    if s == [] then 0 else s[0].charge + Total(s[1..])
  }

  lemma {:induction false} TotalAppend(s: seq<LRUHandle>, e: LRUHandle)
    ensures Total(s + [e]) == Total(s) + e.charge
  {
    if s == [] {
    } else {
      assert (s + [e])[1..] == s[1..] + [e];
      TotalAppend(s[1..], e);
    }
  }

  lemma {:induction false} TotalMinus(s: seq<LRUHandle>, e: LRUHandle)
    requires e in s
    ensures Total(Minus(s, e)) + e.charge == Total(s)
  {
    if s[0] != e {
      TotalMinus(s[1..], e);
    }
  }

  // The neighbours of each handle in the list without place k.
  lemma WithoutPlaces(head: LRUHandle, s: seq<LRUHandle>, k: nat, j: nat)
    requires k < |s| && j < |s| - 1 && Distinct(s) && head !in s
    ensures var i := if j < k then j else j + 1;
      && Without(s, k)[j] == s[i] && s[i] != s[k]
      && Around(head, Without(s, k), j + 1) == Around(head, s, if i + 1 == k then k + 1 else i + 1)
      && Around(head, Without(s, k), j - 1) == Around(head, s, if i - 1 == k then k - 1 else i - 1)
      && (s[i] == Around(head, s, k - 1) <==> i == k - 1) && (s[i] == Around(head, s, k + 1) <==> i == k + 1)
  {
  }

  lemma WithoutEnds(head: LRUHandle, s: seq<LRUHandle>, k: nat)
    requires k < |s|
    ensures Around(head, Without(s, k), 0) == Around(head, s, if k == 0 then 1 else 0)
    ensures Around(head, Without(s, k), |s| - 2) == Around(head, s, if k == |s| - 1 then |s| - 2 else |s| - 1)
  {
  }

  lemma AroundHead(head: LRUHandle, s: seq<LRUHandle>, i: nat)
    requires i <= |s| && head !in s
    ensures Around(head, s, i) == head <==> i == |s|
    ensures i < |s| ==> Around(head, s, i) == s[i]
  {
  }

  lemma RingNext(head: LRUHandle, s: seq<LRUHandle>, i: nat)
    requires Ring(head, s)
    ensures head !in s && head.next == Around(head, s, 0)
    ensures i < |s| ==> s[i].next == Around(head, s, i + 1) && forall j :: i < j < |s| ==> s[i] != s[j]
  {
  }

  lemma AppendPlaces(head: LRUHandle, s: seq<LRUHandle>, e: LRUHandle, j: nat)
    requires j <= |s|
    ensures Around(head, s + [e], j - 1) == Around(head, s, j - 1)
    ensures Around(head, s + [e], j) == if j < |s| then s[j] else e
    ensures Around(head, s + [e], j + 1) == if j + 1 < |s| then s[j + 1] else if j + 1 == |s| then e else head
  {
  }

  // LRUCache::LRU_Remove
  method LRU_Remove(e: LRUHandle, ghost head: LRUHandle, ghost s: seq<LRUHandle>, ghost k: nat)
    requires Ring(head, s) && k < |s| && s[k] == e
    modifies head`next, head`prev, s`next, s`prev
    ensures Ring(head, Without(s, k))
  {
    ghost var r := Without(s, k);
    e.next.prev := e.prev;
    e.prev.next := e.next;
    WithoutMembers(s, k);
    forall j | 0 <= j < |r|
      ensures r[j].next == Around(head, r, j + 1) && r[j].prev == Around(head, r, j - 1)
    {
      WithoutPlaces(head, s, k, j);
    }
    WithoutEnds(head, s, k);
  }

  // LRUCache::LRU_Append: e becomes the newest entry.
  method LRU_Append(head: LRUHandle, e: LRUHandle, ghost s: seq<LRUHandle>)
    requires Ring(head, s) && e !in s && e != head
    modifies head`next, head`prev, s`next, s`prev, e`next, e`prev
    ensures Ring(head, s + [e])
  {
    assert forall i :: 0 <= i < |s| ==> s[i] in s && s[i] != e && s[i] != head;
    e.next := head;
    e.prev := head.prev;
    e.prev.next := e;
    e.next.prev := e;
    ghost var r := s + [e];
    forall j | 0 <= j < |r|
      ensures r[j].next == Around(head, r, j + 1) && r[j].prev == Around(head, r, j - 1)
    {
      AppendPlaces(head, s, e, j);
    }
  }

  lemma IndexIn(s: seq<LRUHandle>, e: LRUHandle) returns (k: nat)
    requires e in s && Distinct(s)
    ensures k < |s| && s[k] == e
    ensures Minus(s, e) == Without(s, k)
    ensures Distinct(Minus(s, e)) && forall h :: h in Minus(s, e) <==> h in s && h != e
    ensures Total(Minus(s, e)) + e.charge == Total(s)
  {
    k :| 0 <= k < |s| && s[k] == e;
    MinusIsWithout(s, k);
    WithoutMembers(s, k);
    assert forall h :: h in Minus(s, e) <==> h in Members(Minus(s, e));
    TotalMinus(s, e);
  }

  // Each cached entry is in exactly one list.
  ghost predicate Listed(lru: seq<LRUHandle>, inUse: seq<LRUHandle>, cached: set<LRUHandle>) {
    && (forall h :: h in lru ==> h in cached && h !in inUse)
    && (forall h :: h in inUse ==> h in cached)
    && (forall h :: h in cached ==> h in lru || h in inUse)
  }

  // A reference for the cache, one for each client handle, and one that the caller of Unref is
  // about to give up.
  ghost predicate Counted(handles: multiset<LRUHandle>, live: set<LRUHandle>, cached: set<LRUHandle>, owed: LRUHandle?)
    reads live`refs, live`inCache
  {
    && (owed != null ==> owed in live)
    && (forall h :: h in handles ==> h in live)
    && (forall h :: h in live ==> (h.inCache <==> h in cached))
    && (forall h :: h in live ==>
          h.refs == handles[h] + (if h in cached then 1 else 0) + (if h == owed then 1 else 0) && 0 < h.refs)
  }

  // A cached entry is on the LRU list just when the cache has the only reference.
  ghost predicate Idle(lru: seq<LRUHandle>, live: set<LRUHandle>, cached: set<LRUHandle>)
    reads live`refs
  {
    forall h :: h in live && h in cached ==> (h in lru <==> h.refs == 1)
  }

  // Every handle is freed once: its deleter has run just when it is no longer live.
  ghost predicate Freed(deleted: seq<LRUHandle>, live: set<LRUHandle>) {
    Distinct(deleted) && forall h :: h in deleted ==> h !in live
  }

  lemma ListedMove(s: seq<LRUHandle>, t: seq<LRUHandle>, cached: set<LRUHandle>, e: LRUHandle)
    requires Distinct(s) && e in s
    requires Listed(s, t, cached) || Listed(t, s, cached)
    ensures Listed(s, t, cached) ==> Listed(Minus(s, e), t + [e], cached)
    ensures Listed(t, s, cached) ==> Listed(t + [e], Minus(s, e), cached)
    ensures Total(s) + Total(t) == Total(Minus(s, e)) + Total(t + [e])
    ensures forall h :: h in Minus(s, e) <==> h in s && h != e
  {
    hide Minus, Total, Distinct;
    var k := IndexIn(s, e);
    TotalAppend(t, e);
  }

  // LRU_Remove(e); LRU_Append(&to, e);
  method MoveBetween(e: LRUHandle, toHead: LRUHandle, ghost fromHead: LRUHandle, ghost s: seq<LRUHandle>, ghost t: seq<LRUHandle>)
    requires Ring(fromHead, s) && Ring(toHead, t) && e in s
    requires (forall h :: h in t ==> h !in s) && fromHead != toHead && fromHead !in t && toHead !in s
    modifies fromHead`next, fromHead`prev, toHead`next, toHead`prev, s`next, s`prev, t`next, t`prev
    ensures Ring(fromHead, Minus(s, e)) && Ring(toHead, t + [e])
  {
    hide Around, Total, Minus, Distinct;
    ghost var k := IndexIn(s, e);
    assert forall i :: 0 <= i < |t| ==> t[i] in t && t[i] !in s && t[i] != fromHead;
    LRU_Remove(e, fromHead, s, k);
    assert Ring(toHead, t);
    ghost var r := Minus(s, e);
    assert forall i :: 0 <= i < |r| ==> r[i] in r && r[i] !in t && r[i] != e && r[i] != toHead;
    LRU_Append(toHead, e, t);
    assert Ring(fromHead, Minus(s, e));
  }

  // LRU_Remove(e), beside another list.
  method RemoveFrom(e: LRUHandle, ghost head: LRUHandle, ghost s: seq<LRUHandle>, ghost otherHead: LRUHandle, ghost t: seq<LRUHandle>)
    requires Ring(head, s) && Ring(otherHead, t) && e in s
    requires (forall h :: h in t ==> h !in s) && head != otherHead && head !in t && otherHead !in s
    modifies head`next, head`prev, s`next, s`prev
    ensures Ring(head, Minus(s, e)) && Ring(otherHead, t)
  {
    hide Around, Total, Minus, Distinct;
    ghost var k := IndexIn(s, e);
    assert forall i :: 0 <= i < |t| ==> t[i] in t && t[i] !in s && t[i] != head;
    LRU_Remove(e, head, s, k);
  }

  // LRU_Append(head, e), beside another list.
  method AppendTo(head: LRUHandle, e: LRUHandle, ghost s: seq<LRUHandle>, ghost otherHead: LRUHandle, ghost t: seq<LRUHandle>)
    requires Ring(head, s) && Ring(otherHead, t) && e !in s && e !in t && e != head && e != otherHead
    requires (forall h :: h in t ==> h !in s) && head != otherHead && head !in t && otherHead !in s
    modifies head`next, head`prev, s`next, s`prev, e`next, e`prev
    ensures Ring(head, s + [e]) && Ring(otherHead, t)
  {
    hide Around, Distinct;
    assert forall i :: 0 <= i < |t| ==> t[i] in t && t[i] !in s && t[i] != e && t[i] != head;
    LRU_Append(head, e, s);
  }

  lemma {:induction false} MinusAbsent(s: seq<LRUHandle>, e: LRUHandle)
    requires e !in s
    ensures Minus(s, e) == s
  {
    if s != [] {
      MinusAbsent(s[1..], e);
    }
  }

  lemma ListedMinus(s: seq<LRUHandle>, t: seq<LRUHandle>, cached: set<LRUHandle>, e: LRUHandle)
    requires Distinct(s) && Distinct(t) && Listed(s, t, cached) && e in cached
    ensures Listed(Minus(s, e), Minus(t, e), cached - {e})
    ensures Total(s) + Total(t) == Total(Minus(s, e)) + Total(Minus(t, e)) + e.charge
    ensures e in s ==> Minus(t, e) == t
    ensures e !in s ==> Minus(s, e) == s
    ensures forall h :: h in Minus(s, e) <==> h in s && h != e
  {
    hide Minus, Total, Distinct;
    if e in s {
      var k := IndexIn(s, e);
      MinusAbsent(t, e);
    } else {
      var k := IndexIn(t, e);
      MinusAbsent(s, e);
    }
  }

  lemma RingDistinct(head: LRUHandle, s: seq<LRUHandle>)
    requires Ring(head, s)
    ensures Distinct(s)
  {
  }

  lemma CountOf(e: LRUHandle, handles: multiset<LRUHandle>, live: set<LRUHandle>, cached: set<LRUHandle>, owed: LRUHandle?)
    requires Counted(handles, live, cached, owed)
    ensures owed != null ==> owed in live
    ensures e in handles ==> e in live
    ensures e in live ==> (e.inCache <==> e in cached)
    ensures e in live ==>
      e.refs == handles[e] + (if e in cached then 1 else 0) + (if e == owed then 1 else 0) && 0 < e.refs
  {
  }

  lemma Places(e: LRUHandle, lru: seq<LRUHandle>, inUse: seq<LRUHandle>, handles: multiset<LRUHandle>, live: set<LRUHandle>,
      cached: set<LRUHandle>, owed: LRUHandle?)
    requires Counted(handles, live, cached, owed) && Idle(lru, live, cached) && Listed(lru, inUse, cached)
    requires e in live
    ensures e.inCache <==> e in cached
    ensures e in lru <==> e in cached && e.refs == 1
    ensures e in inUse <==> e in cached && e.refs > 1
    ensures e in handles <==> e.refs > (if e in cached then 1 else 0) + (if e == owed then 1 else 0)
  {
  }

  // e->refs++, for a handle given to a client
  method CountUp(e: LRUHandle, ghost handles: multiset<LRUHandle>, ghost live: set<LRUHandle>, ghost cached: set<LRUHandle>,
      ghost lru: seq<LRUHandle>, ghost moved: seq<LRUHandle>)
    requires Counted(handles, live, cached, null) && Idle(lru, live, cached) && e in live
    requires forall h :: h in moved <==> h in lru && h != e
    modifies e`refs
    ensures Counted(handles + multiset{e}, live, cached, null) && Idle(moved, live, cached)
  {
    e.refs := e.refs + 1;
  }

  lemma GivenBack(e: LRUHandle, handles: multiset<LRUHandle>, live: set<LRUHandle>, cached: set<LRUHandle>)
    requires Counted(handles, live, cached, null) && e in handles
    ensures Counted(handles - multiset{e}, live, cached, e)
  {
  }

  // A new handle, held by its client and, if cached, by the cache.
  method CountNew(e: LRUHandle, intoCache: bool, ghost handles: multiset<LRUHandle>, ghost live: set<LRUHandle>,
      ghost cached: set<LRUHandle>, ghost lru: seq<LRUHandle>)
    requires Counted(handles, live, cached, null) && Idle(lru, live, cached) && e !in live && cached <= live && e !in lru
    modifies e`refs, e`inCache
    ensures Counted(handles + multiset{e}, live + {e}, if intoCache then cached + {e} else cached, null)
    ensures Idle(lru, live + {e}, if intoCache then cached + {e} else cached)
  {
    e.inCache, e.refs := false, 1;
    if intoCache {
      e.refs, e.inCache := e.refs + 1, true;
    }
  }

  lemma ListedWith(lru: seq<LRUHandle>, inUse: seq<LRUHandle>, cached: set<LRUHandle>, e: LRUHandle)
    requires Listed(lru, inUse, cached) && e !in cached
    ensures Listed(lru, inUse + [e], cached + {e}) && Total(inUse + [e]) == Total(inUse) + e.charge
  {
    TotalAppend(inUse, e);
  }

  // e->in_cache = false: the reference of the cache is now owed.
  method Uncount(e: LRUHandle, ghost handles: multiset<LRUHandle>, ghost live: set<LRUHandle>, ghost cached: set<LRUHandle>,
      ghost lru: seq<LRUHandle>, ghost rest: seq<LRUHandle>)
    requires Counted(handles, live, cached, null) && Idle(lru, live, cached) && e in live && e in cached
    requires forall h :: h in rest <==> h in lru && h != e
    modifies e`inCache
    ensures Counted(handles, live, cached - {e}, e) && Idle(rest, live, cached - {e})
  {
    e.inCache := false;
  }

  // e->refs--, for the reference that is owed
  method CountDown(e: LRUHandle, ghost handles: multiset<LRUHandle>, ghost live: set<LRUHandle>, ghost cached: set<LRUHandle>)
    requires Counted(handles, live, cached, e)
    modifies e`refs
    ensures e.refs == old(e.refs) - 1 && e.refs == handles[e] + if e in cached then 1 else 0
    ensures Counted(handles, if e.refs == 0 then live - {e} else live, cached, null)
  {
    e.refs := e.refs - 1;
  }

  class LRUCache {
    var capacity: nat
    var usage: nat
    // lru_: lru[0] is the oldest entry.  Its handles have refs == 1 and in_cache.
    const lruHead: LRUHandle
    // in_use_: its handles have refs >= 2 and in_cache.
    const inUseHead: LRUHandle
    const table: HandleTable
    ghost var lru: seq<LRUHandle>
    ghost var inUse: seq<LRUHandle>
    // The handles that clients hold, with multiplicity.
    ghost var handles: multiset<LRUHandle>
    // Allocated and not freed.
    ghost var live: set<LRUHandle>
    // The calls of deleters, in order.
    ghost var deleted: seq<LRUHandle>

    ghost predicate Rings()
      reads this`lru, this`inUse, lruHead`next, lruHead`prev, inUseHead`next, inUseHead`prev, lru`next, lru`prev, inUse`next, inUse`prev
    {
      Ring(lruHead, lru) && Ring(inUseHead, inUse)
    }

    // Where the lists stand: the heads are no entries, and usage_ is the charge of all entries.
    ghost predicate Stored(cached: set<LRUHandle>)
      reads this`lru, this`inUse, this`live, this`usage
    {
      && lruHead != inUseHead && lruHead !in live && inUseHead !in live && cached <= live
      && Listed(lru, inUse, cached) && usage == Total(lru) + Total(inUse)
    }

    ghost predicate Core(cached: set<LRUHandle>, owed: LRUHandle?)
      reads this, lruHead`next, lruHead`prev, inUseHead`next, inUseHead`prev, lru`next, lru`prev, inUse`next, inUse`prev
      reads live`refs, live`inCache
    {
      && Rings() && Stored(cached) && Freed(deleted, live)
      && Counted(handles, live, cached, owed) && Idle(lru, live, cached)
    }

    ghost predicate Valid()
      reads this, lruHead`next, lruHead`prev, inUseHead`next, inUseHead`prev, lru`next, lru`prev, inUse`next, inUse`prev
      reads live`refs, live`inCache, table, table.list, table.entries.Values`nextHash
    {
      table.Valid() && Core(table.entries.Values, null)
    }

    constructor (capacity: nat)
      ensures Valid() && this.capacity == capacity && usage == 0 && table.entries == map[]
      ensures lru == inUse == deleted == [] && live == {} && handles == multiset{}
      ensures fresh(table) && fresh(table.list) && fresh(lruHead) && fresh(inUseHead)
    {
      this.capacity, usage := capacity, 0;
      lru, inUse, deleted, live, handles := [], [], [], {}, multiset{};
      lruHead := new LRUHandle(Name([], 0), "", 0);
      inUseHead := new LRUHandle(Name([], 0), "", 0);
      table := new HandleTable();
      new;
      lruHead.next, lruHead.prev := lruHead, lruHead;
      inUseHead.next, inUseHead.prev := inUseHead, inUseHead;
    }

    // LRU_Remove(e); LRU_Append(&in_use_, e);
    method ToInUse(e: LRUHandle, ghost cached: set<LRUHandle>)
      requires Rings() && Stored(cached) && e in lru
      modifies this`lru, this`inUse, lruHead`next, lruHead`prev, inUseHead`next, inUseHead`prev, live`next, live`prev
      ensures Rings() && Stored(cached) && lru == Minus(old(lru), e) && inUse == old(inUse) + [e]
      ensures forall h :: h in lru <==> h in old(lru) && h != e
    {
      hide Ring, Around, Minus, Total, Distinct;
      RingDistinct(lruHead, lru);
      ListedMove(lru, inUse, cached, e);
      MoveBetween(e, inUseHead, lruHead, lru, inUse);
      lru, inUse := Minus(lru, e), inUse + [e];
    }

    // LRU_Remove(e); LRU_Append(&lru_, e);
    method ToLru(e: LRUHandle, ghost cached: set<LRUHandle>)
      requires Rings() && Stored(cached) && e in inUse
      modifies this`lru, this`inUse, lruHead`next, lruHead`prev, inUseHead`next, inUseHead`prev, live`next, live`prev
      ensures Rings() && Stored(cached) && lru == old(lru) + [e] && inUse == Minus(old(inUse), e)
    {
      hide Ring, Around, Minus, Total, Distinct;
      RingDistinct(inUseHead, inUse);
      ListedMove(inUse, lru, cached, e);
      MoveBetween(e, lruHead, inUseHead, inUse, lru);
      lru, inUse := lru + [e], Minus(inUse, e);
    }

    // LRU_Remove(e), from the list it is in.
    method Unlist(e: LRUHandle, ghost cached: set<LRUHandle>)
      requires Rings() && Stored(cached) && e in cached
      modifies this`lru, this`inUse, this`usage, lruHead`next, lruHead`prev, inUseHead`next, inUseHead`prev, live`next, live`prev
      ensures Rings() && Stored(cached - {e}) && usage == old(usage) - e.charge
      ensures lru == Minus(old(lru), e) && inUse == Minus(old(inUse), e)
      ensures forall h :: h in lru <==> h in old(lru) && h != e
    {
      hide Ring, Around, Minus, Total, Distinct;
      RingDistinct(lruHead, lru);
      RingDistinct(inUseHead, inUse);
      ListedMinus(lru, inUse, cached, e);
      ghost var idle := e in lru;
      RemoveFrom(e, if idle then lruHead else inUseHead, if idle then lru else inUse,
                 if idle then inUseHead else lruHead, if idle then inUse else lru);
      lru, inUse, usage := Minus(lru, e), Minus(inUse, e), usage - e.charge;
    }

    lemma StoredLists(cached: set<LRUHandle>)
      requires Stored(cached)
      ensures Listed(lru, inUse, cached) && cached <= live && forall h :: h in lru ==> h in live
    {
    }

    // LRUCache::Ref, for a handle given to a client.
    method Ref(e: LRUHandle, ghost cached: set<LRUHandle>)
      requires Core(cached, null) && e in live
      modifies this`lru, this`inUse, this`handles, lruHead`next, lruHead`prev, inUseHead`next, inUseHead`prev
      modifies live`next, live`prev, e`refs
      ensures Core(cached, null) && handles == old(handles) + multiset{e}
      ensures e in old(lru) ==> lru == Minus(old(lru), e) && inUse == old(inUse) + [e]
      ensures e !in old(lru) ==> lru == old(lru) && inUse == old(inUse)
    {
      hide Rings, Freed, Minus, Total, Counted, Idle, Listed, Stored;
      StoredLists(cached);
      Places(e, lru, inUse, handles, live, cached, null);
      ghost var lru0 := lru;
      if e.refs == 1 && e.inCache {
        ToInUse(e, cached);
      }
      CountUp(e, handles, live, cached, lru0, lru);
      assert Rings() && Stored(cached);
      handles := handles + multiset{e};
    }

    // LRUCache::Unref
    method Unref(e: LRUHandle, ghost cached: set<LRUHandle>)
      requires Core(cached, e)
      modifies this`lru, this`inUse, this`live, this`deleted, lruHead`next, lruHead`prev, inUseHead`next, inUseHead`prev
      modifies live`next, live`prev, e`refs
      ensures Core(cached, null)
      ensures if e in cached || e in handles then live == old(live) && deleted == old(deleted)
              else live == old(live) - {e} && deleted == old(deleted) + [e]
      ensures if e in cached && e !in handles then lru == old(lru) + [e] && inUse == Minus(old(inUse), e)
              else lru == old(lru) && inUse == old(inUse)
    {
      hide Rings, Minus, Total, Counted;
      CountOf(e, handles, live, cached, e);
      CountDown(e, handles, live, cached);
      if e.refs == 0 {
        // The deleter runs, and the handle is freed.
        deleted, live := deleted + [e], live - {e};
      } else if e.inCache && e.refs == 1 {
        ToLru(e, cached);
      }
      assert Freed(deleted, live) && Idle(lru, live, cached);
    }

    // LRUCache::FinishErase: e has been removed from the hash table.
    method FinishErase(e: LRUHandle?, ghost cached: set<LRUHandle>) returns (erased: bool)
      requires Core(cached, null) && (e != null ==> e in cached)
      modifies this`lru, this`inUse, this`usage, this`live, this`deleted, lruHead`next, lruHead`prev, inUseHead`next, inUseHead`prev
      modifies live`next, live`prev, live`refs, live`inCache
      ensures erased <==> e != null
      ensures e == null ==> Core(cached, null) && unchanged(this)
      ensures e != null ==> Core(cached - {e}, null) && lru == Minus(old(lru), e) && inUse == Minus(old(inUse), e)
      ensures e != null ==> usage == old(usage) - e.charge
      ensures e != null ==> deleted == old(deleted) + (if e in handles then [] else [e]) && live == old(live) - (if e in handles then {} else {e})
    {
      hide Rings, Freed, Minus, Total, Counted, Idle, Listed;
      if e != null {
        ghost var lru0 := lru;
        Unlist(e, cached);
        Uncount(e, handles, live, cached, lru0, lru);
        Unref(e, cached - {e});
      }
      erased := e != null;
    }

    // ---- The operations of the cache ----

    method Lookup(n: Name) returns (h: LRUHandle?)
      requires Valid()
      modifies this`lru, this`inUse, this`handles, lruHead`next, lruHead`prev, inUseHead`next, inUseHead`prev
      modifies live`next, live`prev, live`refs
      ensures Valid()
      ensures h == if n in table.entries then table.entries[n] else null
      ensures handles == old(handles) + if h == null then multiset{} else multiset{h}
    {
      hide Core, HandleTable.Linked, IsTableSize;
      h := table.Lookup(n);
      if h != null {
        CachedIsLive(table.entries.Values);
        Names(n);
        Ref(h, table.entries.Values);
      }
    }

    lemma CachedIsLive(cached: set<LRUHandle>)
      requires Core(cached, null)
      ensures cached <= live
    {
    }

    // Release gives back one handle of a client.
    method Release(e: LRUHandle)
      requires Valid() && e in handles
      modifies this`lru, this`inUse, this`handles, this`live, this`deleted, lruHead`next, lruHead`prev, inUseHead`next, inUseHead`prev
      modifies live`next, live`prev, live`refs
      ensures Valid() && handles == old(handles) - multiset{e}
      ensures deleted == old(deleted) + if e in table.entries.Values || e in handles then [] else [e]
    {
      hide Rings, Freed, Counted, Idle, Stored;
      GivenBack(e, handles, live, table.entries.Values);
      handles := handles - multiset{e};
      Unref(e, table.entries.Values);
    }

    method Erase(n: Name)
      requires Valid()
      modifies this, lruHead`next, lruHead`prev, inUseHead`next, inUseHead`prev, table, table.list
      modifies live`nextHash, live`next, live`prev, live`refs, live`inCache
      ensures Valid() && handles == old(handles) && capacity == old(capacity) && table.entries == old(table.entries) - {n}
      ensures deleted == old(deleted) +
        if n in old(table.entries) && old(table.entries)[n] !in handles then [old(table.entries)[n]] else []
    {
      hide Core, Minus, HandleTable.Linked, IsTableSize;
      ghost var cached := table.entries.Values;
      CachedIsLive(cached);
      Names(n);
      var e := table.Remove(n);
      var erased := FinishErase(e, cached);
    }

    // LRU_Append(&in_use_, e); usage_ += charge;
    method AddInUse(e: LRUHandle, ghost cached: set<LRUHandle>)
      requires Rings() && Stored(cached) && Freed(deleted, live) && e !in live && e !in deleted && e != lruHead && e != inUseHead
      modifies this`inUse, this`usage, this`live, inUseHead`next, inUseHead`prev, live`next, live`prev, e`next, e`prev
      ensures Rings() && Stored(cached + {e}) && Freed(deleted, live)
      ensures live == old(live) + {e} && inUse == old(inUse) + [e] && usage == old(usage) + e.charge
    {
      hide Ring, Around, Total, Distinct;
      ListedWith(lru, inUse, cached, e);
      AppendTo(inUseHead, e, inUse, lruHead, lru);
      inUse, usage, live := inUse + [e], usage + e.charge, live + {e};
    }

    lemma NotFreed(e: LRUHandle)
      requires Freed(deleted, live) && e !in deleted
      ensures Freed(deleted, live + {e})
    {
    }

    // The head of Insert: the new handle, on the in-use list unless caching is turned off.
    method Adopt(e: LRUHandle, ghost cached: set<LRUHandle>)
      requires Core(cached, null) && e !in live && e !in deleted && e != lruHead && e != inUseHead
      modifies this`inUse, this`usage, this`live, this`handles, inUseHead`next, inUseHead`prev, live`next, live`prev
      modifies e`next, e`prev, e`refs, e`inCache
      ensures Core(if capacity > 0 then cached + {e} else cached, null)
      ensures live == old(live) + {e} && handles == old(handles) + multiset{e}
      ensures if capacity > 0 then inUse == old(inUse) + [e] && usage == old(usage) + e.charge
              else inUse == old(inUse) && usage == old(usage)
    {
      hide Rings, Total, Counted, Idle, Distinct, Listed, Freed;
      StoredLists(cached);
      NotFreed(e);
      CountNew(e, capacity > 0, handles, live, cached, lru);
      if capacity > 0 {
        AddInUse(e, cached);
      } else {
        e.next := null;
        live := live + {e};
      }
      handles := handles + multiset{e};
    }

    // The body of the loops of Insert and Prune: the oldest entry of the LRU list leaves.
    method EvictOldest()
      requires Valid() && lru != []
      modifies this, lruHead`next, lruHead`prev, inUseHead`next, inUseHead`prev, table, table.list
      modifies live`nextHash, live`next, live`prev, live`refs, live`inCache
      ensures Valid() && handles == old(handles) && capacity == old(capacity) && table.list == old(table.list)
      ensures lru == old(lru)[1..] && inUse == old(inUse) && live == old(live) - {old(lru)[0]}
      ensures table.entries == old(table.entries) - {old(lru)[0].name} && usage == old(usage) - old(lru)[0].charge
      ensures deleted == old(deleted) + [old(lru)[0]]
    {
      hide Core, Minus, HandleTable.Linked, IsTableSize;
      ghost var cached := table.entries.Values;
      var e := lruHead.next;
      Oldest(cached);
      Names(e.name);
      HasName(e);
      var removed := table.Remove(e.name);
      var erased := FinishErase(removed, cached);
    }

    lemma Oldest(cached: set<LRUHandle>)
      requires Core(cached, null) && lru != []
      ensures lruHead.next == lru[0] && lru[0] in cached && cached <= live && lru[0] !in handles
      ensures Minus(lru, lru[0]) == lru[1..] && Minus(inUse, lru[0]) == inUse
    {
      assert lru[0] in lru;
      Places(lru[0], lru, inUse, handles, live, cached, null);
      MinusAbsent(inUse, lru[0]);
    }

    lemma Names(n: Name)
      requires table.Valid()
      ensures n in table.entries ==>
        table.entries[n] in table.entries.Values && table.entries[n].name == n &&
        (table.entries - {n}).Values == table.entries.Values - {table.entries[n]}
      ensures n !in table.entries ==> table.entries - {n} == table.entries
    {
      if n in table.entries {
        ValuesWithout(table.entries, n);
      }
    }

    // Handles to insert are new, so the entry they replace is another handle.
    method Replace(e: LRUHandle)
      requires table.Valid() && e in live && e !in table.entries.Values && table.entries.Values <= live
      requires Core(table.entries.Values + {e}, null)
      modifies this, lruHead`next, lruHead`prev, inUseHead`next, inUseHead`prev, table, table.list
      modifies live`nextHash, live`next, live`prev, live`refs, live`inCache
      ensures Valid() && handles == old(handles) && capacity == old(capacity) && (table.list == old(table.list) || fresh(table.list))
      ensures table.entries == old(table.entries)[e.name := e]
      ensures var m := old(table.entries);
        if e.name in m then
          lru == Minus(old(lru), m[e.name]) && inUse == Minus(old(inUse), m[e.name]) &&
          deleted == old(deleted) + (if m[e.name] in handles then [] else [m[e.name]]) &&
          live == old(live) - (if m[e.name] in handles then {} else {m[e.name]})
        else lru == old(lru) && inUse == old(inUse) && deleted == old(deleted) && live == old(live)
    {
      hide Core, Minus, HandleTable.Linked, IsTableSize;
      ghost var cached := table.entries.Values + {e};
      Replaced(e);
      var replaced := table.Insert(e);
      assert table.entries.Values == if replaced == null then cached else cached - {replaced};
      var erased := FinishErase(replaced, cached);
      assert table.Valid();
      assert Core(table.entries.Values, null);
    }

    lemma Replaced(e: LRUHandle)
      requires table.Valid() && e !in table.entries.Values
      ensures var m := table.entries;
        && (e.name in m ==> m[e.name] in m.Values && m[e.name] != e)
        && m[e.name := e].Values == (m.Values + {e}) - (if e.name in m then {m[e.name]} else {})
    {
      ValuesWith(table.entries, e);
    }

    // The tail of Insert: old entries leave while the cache is over its capacity.
    method Shrink() returns (ghost evicted: nat)
      requires Valid()
      modifies this, lruHead`next, lruHead`prev, inUseHead`next, inUseHead`prev, table, table.list
      modifies live`nextHash, live`next, live`prev, live`refs, live`inCache
      ensures Valid() && handles == old(handles) && capacity == old(capacity) && table.list == old(table.list) && live <= old(live)
      ensures usage <= capacity || lru == []
      ensures evicted <= |old(lru)| && lru == old(lru)[evicted..] && inUse == old(inUse)
      ensures evicted > 0 ==> usage + old(lru)[evicted - 1].charge > capacity
      ensures table.entries == old(table.entries) - NamesOf(old(lru)[..evicted])
      ensures deleted == old(deleted) + old(lru)[..evicted]
    {
      hide Core, HandleTable.Linked, IsTableSize, NamesOf;
      ghost var idle, m, base := lru, table.entries, deleted;
      evicted := 0;
      NoNames(m);
      EmptyRing(table.entries.Values);
      while usage > capacity && lruHead.next != lruHead
        invariant Valid() && handles == old(handles) && capacity == old(capacity) && live <= old(live)
        invariant table.list == old(table.list) && inUse == old(inUse)
        invariant lruHead.next == lruHead <==> lru == []
        invariant evicted <= |idle| && lru == idle[evicted..] && table.entries == m - NamesOf(idle[..evicted])
        invariant deleted == base + idle[..evicted]
        invariant evicted > 0 ==> usage + idle[evicted - 1].charge > capacity
        decreases |lru|
      {
        OneMoreName(m, idle, evicted);
        EvictOldest();
        EmptyRing(table.entries.Values);
        evicted := evicted + 1;
      }
    }

    // Drops every entry that no client holds.
    method Prune()
      requires Valid()
      modifies this, lruHead`next, lruHead`prev, inUseHead`next, inUseHead`prev, table, table.list
      modifies live`nextHash, live`next, live`prev, live`refs, live`inCache
      ensures Valid() && handles == old(handles) && capacity == old(capacity)
      ensures lru == [] && inUse == old(inUse) && table.entries == old(table.entries) - NamesOf(old(lru))
      ensures deleted == old(deleted) + old(lru)
    {
      hide Core, HandleTable.Linked, IsTableSize, NamesOf;
      ghost var idle, m, base, i := lru, table.entries, deleted, 0;
      NoNames(m);
      EmptyRing(table.entries.Values);
      while lruHead.next != lruHead
        invariant Valid() && handles == old(handles) && capacity == old(capacity) && live <= old(live)
        invariant table.list == old(table.list) && inUse == old(inUse)
        invariant lruHead.next == lruHead <==> lru == []
        invariant i <= |idle| && lru == idle[i..] && table.entries == m - NamesOf(idle[..i]) && deleted == base + idle[..i]
        decreases |lru|
      {
        OneMoreName(m, idle, i);
        EvictOldest();
        EmptyRing(table.entries.Values);
        i := i + 1;
      }
      assert idle[..i] == idle;
    }

    // ~LRUCache: a client must not hold a handle of a cached entry any more.  If none is held at
    // all, every handle ever made has been passed to its deleter, once.
    method Destroy()
      requires Valid() && inUse == []
      modifies this`live, this`deleted, live`inCache, live`refs
      ensures deleted == old(deleted) + old(lru) && Distinct(deleted) && live == old(live) - Members(old(lru))
      ensures handles == multiset{} ==> live == {}
    {
      hide Ring, Rings, Freed, Stored, Counted, Idle, Distinct, Around, HandleTable.Linked;
      Idling(table.entries.Values);
      ghost var i := 0;
      var e := lruHead.next;
      assert lru[..0] == [] && e == Around(lruHead, lru, 0);
      while e != lruHead
        invariant i <= |lru| && e == Around(lruHead, lru, i) && Ring(lruHead, lru)
        invariant live == old(live) - Members(lru[..i]) && deleted == old(deleted) + lru[..i] && Freed(deleted, live)
        decreases |lru| - i
        invariant forall j :: i <= j < |lru| ==> lru[j] in live && lru[j].refs == 1
      {
        AroundHead(lruHead, lru, i);
        RingNext(lruHead, lru, i);
        MembersNext(lru, i);
        assert lru[..i + 1] == lru[..i] + [lru[i]];
        var next := e.next;
        e.inCache := false;
        // Unref
        e.refs := e.refs - 1;
        FreedMore(e);
        deleted, live := deleted + [e], live - {e};
        e := next;
        i := i + 1;
      }
      AroundHead(lruHead, lru, i);
      assert lru[..i] == lru;
      FreedMore(lruHead);
    }

    lemma FreedMore(e: LRUHandle)
      requires Freed(deleted, live)
      ensures Distinct(deleted) && (e in live ==> Freed(deleted + [e], live - {e}))
    {
    }

    lemma Idling(cached: set<LRUHandle>)
      requires Core(cached, null) && inUse == []
      ensures cached == Members(lru) && cached <= live && Ring(lruHead, lru) && Freed(deleted, live)
      ensures lruHead !in lru && lruHead.next == Around(lruHead, lru, 0)
      ensures forall j :: 0 <= j < |lru| ==> lru[j] in live && lru[j].refs == 1
      ensures handles == multiset{} ==> live == cached
    {
      forall j | 0 <= j < |lru| ensures lru[j] in live && lru[j].refs == 1 {
        assert lru[j] in lru && lru[j] in cached;
      }
      assert cached == Members(lru);
      assert handles == multiset{} ==> forall h :: h in live ==> h in cached;
    }

    lemma EmptyRing(cached: set<LRUHandle>)
      requires Core(cached, null)
      ensures lruHead.next == lruHead <==> lru == []
    {
    }

    // Returns the handle of the new entry.  `evicted` counts the entries that made room for it.
    method Insert(n: Name, value: string, charge: nat) returns (e: LRUHandle, ghost evicted: nat)
      requires Valid()
      modifies this, lruHead`next, lruHead`prev, inUseHead`next, inUseHead`prev, table, table.list
      modifies live`nextHash, live`next, live`prev, live`refs, live`inCache
      ensures Valid() && fresh(e) && e.name == n && e.value == value && e.charge == charge && capacity == old(capacity)
      ensures handles == old(handles) + multiset{e}
      ensures usage <= capacity || lru == []
      ensures var m := old(table.entries);
        var replaced := if capacity > 0 && n in m then [m[n]] else [];
        var idle := if replaced != [] then Minus(old(lru), replaced[0]) else old(lru);
        && evicted <= |idle| && lru == idle[evicted..]
        && (evicted > 0 ==> usage + idle[evicted - 1].charge > capacity)
        && table.entries == (if capacity > 0 then m[n := e] else m) - NamesOf(idle[..evicted])
        && deleted == old(deleted) + (if replaced != [] && replaced[0] in handles then [] else replaced) + idle[..evicted]
      ensures capacity > 0 ==> n in table.entries && table.entries[n] == e
    {
      hide Core, Minus, HandleTable.Linked, IsTableSize, NamesOf;
      e := new LRUHandle(n, value, charge);
      CachedIsLive(table.entries.Values);
      Adopt(e, table.entries.Values);
      if capacity > 0 {
        Replace(e);
        Inserted(e);
        HeldStays(e);
      }
      evicted := Shrink();
    }

    lemma Inserted(e: LRUHandle)
      requires e.name in table.entries && table.entries[e.name] == e
      ensures e in table.entries.Values
    {
    }

    lemma HasName(e: LRUHandle)
      requires table.Valid() && e in table.entries.Values
      ensures e.name in table.entries && table.entries[e.name] == e
    {
    }

    // An entry that a client holds is not on the LRU list, so it is not evicted.
    lemma HeldStays(e: LRUHandle)
      requires Valid() && e in handles && e in table.entries.Values
      ensures forall k :: 0 <= k <= |lru| ==> e.name !in NamesOf(lru[..k])
    {
      Places(e, lru, inUse, handles, live, table.entries.Values, null);
      forall h | h in lru ensures h.name != e.name {
        HasName(h);
        HasName(e);
      }
    }
  }

  ghost function NamesOf(s: seq<LRUHandle>): set<Name> {
    set h | h in s :: h.name
  }

  lemma NoNames(m: map<Name, LRUHandle>)
    ensures m - NamesOf([]) == m
  {
  }

  lemma OneMoreName(m: map<Name, LRUHandle>, s: seq<LRUHandle>, i: nat)
    requires i < |s|
    ensures m - NamesOf(s[..i]) - {s[i].name} == m - NamesOf(s[..i + 1]) && s[..i + 1] == s[..i] + [s[i]]
  {
    assert s[..i + 1] == s[..i] + [s[i]];
    assert NamesOf(s[..i + 1]) == NamesOf(s[..i]) + {s[i].name};
  }
}
