/**
  MergingIterator (table/merger.cc): over sorted children without common keys it is a cursor over
  their sorted union, in both directions.
 */
module MergingIterator {
  import opened Wrappers
  import opened Keys
  import opened Versions
  import opened Cursors

  datatype Direction = Forward | Reverse

  // ---- Positions in a child, and in the union ----

  // How many entries of es come before entry n of the union.
  function Below(es: seq<Entry>, all: seq<Entry>, n: nat): nat {
    if n < |all| then SeekIndex(es, all[n].key) else |es|
  }

  function AtOrAfter(es: seq<Entry>, all: seq<Entry>, n: nat): Position {
    var j := Below(es, all, n);
    if j < |es| then Some(j) else None
  }

  function LastBelow(es: seq<Entry>, all: seq<Entry>, n: nat): Position {
    var j := Below(es, all, n);
    if j > 0 then Some(j - 1) else None
  }

  // `all` is the sorted union of pairwise disjoint sorted children.
  ghost predicate IsUnion(all: seq<Entry>, lists: seq<seq<Entry>>) {
    && Sorted(all)
    && (forall i :: 0 <= i < |lists| ==> Sorted(lists[i]))
    && (forall e :: e in all <==> exists i :: 0 <= i < |lists| && e in lists[i])
    && forall i, j, a, b :: 0 <= i < |lists| && 0 <= j < |lists| && i != j && a in lists[i] && b in lists[j] ==> a.key != b.key
  }

  // In a sorted sequence the index of a key is the number of entries before it.
  lemma SeekOwn(es: seq<Entry>, j: nat)
    requires Sorted(es) && j < |es|
    ensures SeekIndex(es, es[j].key) == j
  {
    SeekIndexIs(es, es[j].key, j);
  }

  // Passing entry n of the union moves on in the child that holds it, and in no other.
  lemma BelowNext(es: seq<Entry>, all: seq<Entry>, n: nat)
    requires Sorted(es) && Sorted(all) && n < |all| && forall e :: e in es ==> e in all
    ensures all[n] in es ==> Below(es, all, n) < |es| && es[Below(es, all, n)] == all[n] && Below(es, all, n + 1) == Below(es, all, n) + 1
    ensures all[n] !in es ==> Below(es, all, n + 1) == Below(es, all, n)
  {
    var b := Below(es, all, n);
    if all[n] in es {
      var j :| 0 <= j < |es| && es[j] == all[n];
      SeekOwn(es, j);
      BelowIs(es, all, n + 1, b + 1);
    } else {
      if b < |es| && es[b].key == all[n].key {
        SameKeySameEntry(all, n, es[b]);
      }
      BelowIs(es, all, n + 1, b);
    }
  }

  lemma SameKeySameEntry(all: seq<Entry>, n: nat, e: Entry)
    requires Sorted(all) && n < |all| && e in all && e.key == all[n].key
    ensures e == all[n]
  {
    var m :| 0 <= m < |all| && all[m] == e;
    assert m == n;
  }

  // The entries of es before all[n] are those in all[..n].
  lemma BelowIs(es: seq<Entry>, all: seq<Entry>, n: nat, j: nat)
    requires Sorted(es) && Sorted(all) && 0 < n <= |all| && j <= |es| && forall e :: e in es ==> e in all
    requires forall i :: 0 <= i < j ==> AtMost(es[i].key, all[n - 1].key)
    requires j < |es| ==> Less(all[n - 1].key, es[j].key)
    ensures Below(es, all, n) == j
  {
    if n < |all| {
      assert Less(all[n - 1].key, all[n].key);
      if j < |es| {
        NotBetween(all, n, es[j]);
      }
      SeekIndexIs(es, all[n].key, j);
    } else if j < |es| {
      NotBetween(all, n, es[j]);
    }
  }

  lemma NotBetween(all: seq<Entry>, n: nat, e: Entry)
    requires Sorted(all) && 0 < n <= |all| && e in all && Less(all[n - 1].key, e.key)
    ensures n < |all| && !Less(e.key, all[n].key)
  {
    var m :| 0 <= m < |all| && all[m] == e;
    assert forall i, j :: 0 <= i <= j < |all| ==> AtMost(all[i].key, all[j].key);
  }

  class MergingIterator {
    const children: seq<Cursor>
    var current: Option<nat>
    var direction: Direction
    // The union of the children, and the position in it.
    ghost const all: seq<Entry>
    ghost var pos: Position

    ghost function Lists(): (r: seq<seq<Entry>>)
      ensures |r| == |children| && forall i :: 0 <= i < |children| ==> r[i] == children[i].es
    {
      seq(|children|, i requires 0 <= i < |children| => children[i].es)
    }

    ghost predicate Shape()
      reads children
    {
      && (forall i, j :: 0 <= i < j < |children| ==> children[i] != children[j])
      && (forall i :: 0 <= i < |children| ==> children[i].Ok())
      && IsUnion(all, Lists())
    }

    // Every child stands at its first entry from entry n of the union on ...
    ghost predicate AllAtOrAfter(n: nat)
      reads children
    {
      forall i :: 0 <= i < |children| ==> children[i].pos == AtOrAfter(children[i].es, all, n)
    }

    // ... or at its last entry before entry n.
    ghost predicate AllBelow(n: nat)
      reads children
    {
      forall i :: 0 <= i < |children| ==> children[i].pos == LastBelow(children[i].es, all, n)
    }

    // Only children move; the entry shown is the one at pos.
    ghost predicate Ok()
      reads this, children
    {
      && Shape()
      && (current.Some? <==> pos.Some?)
      && (current.Some? ==>
            && pos.value < |all| && current.value < |children| && children[current.value].Valid()
            && children[current.value].Current() == all[pos.value]
            && (direction.Forward? ==> AllAtOrAfter(pos.value))
            && (direction.Reverse? ==> AllBelow(pos.value + 1)))
    }

    predicate Valid()
      reads this
    {
      current.Some?
    }

    constructor (children: seq<Cursor>, ghost all: seq<Entry>)
      requires forall i, j :: 0 <= i < j < |children| ==> children[i] != children[j]
      requires forall i :: 0 <= i < |children| ==> children[i].Ok()
      requires IsUnion(all, seq(|children|, i requires 0 <= i < |children| => children[i].es))
      ensures Ok() && this.children == children && this.all == all && pos == None
    {
      this.children, this.all := children, all;
      current, direction, pos := None, Forward, None;
      new;
      assert Lists() == seq(|children|, i requires 0 <= i < |children| => children[i].es);
    }

    function Current(): Entry
      requires Ok() && Valid()
      reads this, children
      ensures Current() == all[pos.value]
    {
      children[current.value].Current()
    }

    // FindSmallest, with every child at its first entry from entry n of the union on.
    method FindSmallest(ghost n: nat)
      requires Shape() && n <= |all| && AllAtOrAfter(n)
      modifies this`current, this`pos, this`direction
      ensures Ok() && direction.Forward? && pos == if n < |all| then Some(n) else None
    {
      hide IsUnion, AtOrAfter, LastBelow, Below, Sorted, AllBelow, AllAtOrAfter;
      direction := Forward;
      var smallest: Option<nat> := None;
      for i := 0 to |children|
        invariant smallest.Some? ==> smallest.value < i && children[smallest.value].Valid()
        invariant forall j :: 0 <= j < i && children[j].Valid() ==>
                    smallest.Some? && !Less(children[j].Current().key, children[smallest.value].Current().key)
      {
        if children[i].Valid() {
          if smallest.None? {
            smallest := Some(i);
          } else if Less(children[i].Current().key, children[smallest.value].Current().key) {
            smallest := Some(i);
          }
        }
      }
      SmallestIsNext(n, smallest);
      current := smallest;
      pos := if n < |all| then Some(n) else None;
    }

    // FindLargest, with every child at its last entry before entry n of the union.
    method FindLargest(ghost n: nat)
      requires Shape() && n <= |all| && AllBelow(n)
      modifies this`current, this`pos, this`direction
      ensures Ok() && direction.Reverse? && pos == if n > 0 then Some(n - 1) else None
    {
      hide IsUnion, AtOrAfter, LastBelow, Below, Sorted, AllBelow, AllAtOrAfter;
      direction := Reverse;
      var largest: Option<nat> := None;
      for i := |children| downto 0
        invariant largest.Some? ==> i <= largest.value < |children| && children[largest.value].Valid()
        invariant forall j :: i <= j < |children| && children[j].Valid() ==>
                    largest.Some? && !Less(children[largest.value].Current().key, children[j].Current().key)
      {
        if children[i].Valid() {
          if largest.None? {
            largest := Some(i);
          } else if Less(children[largest.value].Current().key, children[i].Current().key) {
            largest := Some(i);
          }
        }
      }
      LargestIsNext(n, largest);
      current := largest;
      pos := if n > 0 then Some(n - 1) else None;
    }

    method SeekToFirst()
      requires Ok()
      modifies this, children
      ensures Ok() && pos == First(|all|)
    {
      hide IsUnion, AtOrAfter, LastBelow, Sorted, SeekPosition;
      for i := 0 to |children|
        invariant Shape()
        invariant forall j :: 0 <= j < i ==> children[j].pos == AtOrAfter(children[j].es, all, 0)
      {
        ChildOfUnion(all, Lists(), i);
        FirstIsBelow(children[i].es, all);
        children[i].SeekToFirst();
      }
      FindSmallest(0);
    }

    method SeekToLast()
      requires Ok()
      modifies this, children
      ensures Ok() && pos == Last(|all|)
    {
      hide IsUnion, AtOrAfter, LastBelow, Sorted, SeekPosition;
      for i := 0 to |children|
        invariant Shape()
        invariant forall j :: 0 <= j < i ==> children[j].pos == LastBelow(children[j].es, all, |all|)
      {
        LastIsBelow(children[i].es, all);
        children[i].SeekToLast();
      }
      FindLargest(|all|);
    }

    method Seek(target: InternalKey)
      requires Ok()
      modifies this, children
      ensures Ok() && pos == SeekPosition(all, target)
    {
      hide IsUnion, AtOrAfter, LastBelow, Sorted, SeekPosition;
      ghost var n := SeekIndex(all, target);
      for i := 0 to |children|
        invariant Shape()
        invariant forall j :: 0 <= j < i ==> children[j].pos == AtOrAfter(children[j].es, all, n)
      {
        ChildOfUnion(all, Lists(), i);
        SeekIsBelow(children[i].es, all, target);
        children[i].Seek(target);
      }
      FindSmallest(n);
      assert pos == SeekPosition(all, target) by {
        SeekPositionIs(all, target);
      }
    }

    method Next()
      requires Ok() && Valid()
      modifies this, children
      ensures Ok() && pos == After(|all|, old(pos.value))
    {
      hide IsUnion, AtOrAfter, LastBelow, Below, Sorted, FirstAfter, LastBefore, SeekPosition;
      ghost var p := pos.value;
      var c := current.value;
      var key := children[c].Current().key;
      if direction != Forward {
        for i := 0 to |children|
          invariant Shape() && children[c].pos == old(children[c].pos)
          invariant forall j :: 0 <= j < i && j != c ==> children[j].pos == AtOrAfter(children[j].es, all, p + 1)
        {
          if i != c {
            OtherChild(all, Lists(), c, i, p);
            AfterIsNext(children[i].es, all, p);
            PositionAfter(children[i], key);
          }
        }
      } else {
        forall i | 0 <= i < |children| && i != c ensures children[i].pos == AtOrAfter(children[i].es, all, p + 1) {
          OtherChild(all, Lists(), c, i, p);
          AfterIsNext(children[i].es, all, p);
        }
      }
      OwnPosition(p, c);
      children[c].Next();
      FindSmallest(p + 1);
    }

    method Prev()
      requires Ok() && Valid()
      modifies this, children
      ensures Ok() && pos == Before(old(pos.value))
    {
      hide IsUnion, AtOrAfter, LastBelow, Below, Sorted, FirstAfter, LastBefore, SeekPosition;
      ghost var p := pos.value;
      var c := current.value;
      var key := children[c].Current().key;
      if direction != Reverse {
        for i := 0 to |children|
          invariant Shape() && children[c].pos == old(children[c].pos)
          invariant forall j :: 0 <= j < i && j != c ==> children[j].pos == LastBelow(children[j].es, all, p)
        {
          if i != c {
            BeforeIsBelow(children[i].es, all, p);
            PositionBefore(children[i], key);
          }
        }
      } else {
        forall i | 0 <= i < |children| && i != c ensures children[i].pos == LastBelow(children[i].es, all, p) {
          OtherChild(all, Lists(), c, i, p);
          AfterIsNext(children[i].es, all, p);
        }
      }
      OwnPosition(p, c);
      children[c].Prev();
      FindLargest(p);
    }

    // The current child stands at its own entry number Below(p).
    lemma OwnPosition(p: nat, c: nat)
      requires Shape() && p < |all| && c < |children| && children[c].Valid() && children[c].Current() == all[p]
      ensures After(|children[c].es|, children[c].pos.value) == AtOrAfter(children[c].es, all, p + 1)
      ensures Before(children[c].pos.value) == LastBelow(children[c].es, all, p)
    {
      hide IsUnion, Sorted;
      ChildOfUnion(all, Lists(), c);
      assert all[p] in children[c].es;
      SeekOwn(children[c].es, children[c].pos.value);
      BelowNext(children[c].es, all, p);
    }

    lemma NothingLeft(n: nat, smallest: Option<nat>)
      requires Shape() && n == |all| && AllAtOrAfter(n)
      requires smallest.Some? ==> smallest.value < |children| && children[smallest.value].Valid()
      ensures smallest.None?
    {
    }

    lemma LargestIsNext(n: nat, largest: Option<nat>)
      requires Shape() && n <= |all| && AllBelow(n)
      requires largest.Some? ==> largest.value < |children| && children[largest.value].Valid()
      requires forall j :: 0 <= j < |children| && children[j].Valid() ==>
                 largest.Some? && !Less(children[largest.value].Current().key, children[j].Current().key)
      ensures largest.Some? <==> n > 0
      ensures largest.Some? ==> children[largest.value].Current() == all[n - 1]
    {
      hide IsUnion, Sorted, LastBelow, Below;
      if n > 0 {
        var h := Holder(all, Lists(), n - 1);
        ChildOfUnion(all, Lists(), h);
        HolderStandsAt(children[h].es, all, n - 1);
        var m := largest.value;
        ChildOfUnion(all, Lists(), m);
        StandsUpTo(children[m].es, all, n - 1);
        assert children[largest.value].Current() == all[n - 1];
      } else if largest.Some? {
        ChildOfUnion(all, Lists(), largest.value);
        NothingBelow(children[largest.value].es, all);
      }
    }

    lemma SmallestIsNext(n: nat, smallest: Option<nat>)
      requires Shape() && n <= |all| && AllAtOrAfter(n)
      requires smallest.Some? ==> smallest.value < |children| && children[smallest.value].Valid()
      requires forall j :: 0 <= j < |children| && children[j].Valid() ==>
                 smallest.Some? && !Less(children[j].Current().key, children[smallest.value].Current().key)
      ensures smallest.Some? <==> n < |all|
      ensures smallest.Some? ==> children[smallest.value].Current() == all[n]
    {
      hide IsUnion, Sorted, Below;
      if n < |all| {
        var h := Holder(all, Lists(), n);
        ChildOfUnion(all, Lists(), h);
        HolderStandsAt(children[h].es, all, n);
        var m := smallest.value;
        ChildOfUnion(all, Lists(), m);
        StandsFrom(children[m].es, all, n);
        assert children[smallest.value].Current() == all[n];
      } else {
        NothingLeft(n, smallest);
      }
    }
  }

  // No child stands after entry n of the union, when all stand before entry n + 1.
  lemma StandsUpTo(es: seq<Entry>, all: seq<Entry>, n: nat)
    requires Sorted(es) && Sorted(all) && n < |all| && forall e :: e in es ==> e in all
    ensures var p := LastBelow(es, all, n + 1); p.Some? ==> es[p.value] == all[n] || Less(es[p.value].key, all[n].key)
  {
    BelowNext(es, all, n);
  }

  // The child that holds entry n of the union stands there.
  lemma HolderStandsAt(es: seq<Entry>, all: seq<Entry>, n: nat)
    requires Sorted(es) && Sorted(all) && n < |all| && (forall e :: e in es ==> e in all) && all[n] in es
    ensures AtOrAfter(es, all, n).Some? && es[AtOrAfter(es, all, n).value] == all[n]
    ensures LastBelow(es, all, n + 1).Some? && es[LastBelow(es, all, n + 1).value] == all[n]
  {
    BelowNext(es, all, n);
  }

  // No child stands before entry n of the union, and at entry n only if it holds it.
  lemma StandsFrom(es: seq<Entry>, all: seq<Entry>, n: nat)
    requires Sorted(es) && Sorted(all) && n < |all| && forall e :: e in es ==> e in all
    ensures var p := AtOrAfter(es, all, n); p.Some? ==> es[p.value] == all[n] || Less(all[n].key, es[p.value].key)
  {
    var p := AtOrAfter(es, all, n);
    if p.Some? && es[p.value].key == all[n].key {
      SameKeySameEntry(all, n, es[p.value]);
    }
  }

  // The branch of Next that repositions a child after the key shown.
  method PositionAfter(child: Cursor, key: InternalKey)
    requires child.Ok()
    modifies child
    ensures child.Ok() && child.pos == FirstAfter(child.es, key)
  {
    child.Seek(key);
    if child.Valid() && child.Current().key == key {
      child.Next();
    }
  }

  function FirstAfter(es: seq<Entry>, key: InternalKey): Position {
    var i := SeekIndex(es, key);
    var j := if i < |es| && es[i].key == key then i + 1 else i;
    if j < |es| then Some(j) else None
  }

  // The branch of Prev that repositions a child before the key shown.
  method PositionBefore(child: Cursor, key: InternalKey)
    requires child.Ok()
    modifies child
    ensures child.Ok() && child.pos == LastBefore(child.es, key)
  {
    child.Seek(key);
    if child.Valid() {
      child.Prev();
    } else {
      child.SeekToLast();
    }
  }

  function LastBefore(es: seq<Entry>, key: InternalKey): Position {
    var i := SeekIndex(es, key);
    if i > 0 then Some(i - 1) else None
  }

  // The entry shown is in no other child.
  lemma OtherChild(all: seq<Entry>, lists: seq<seq<Entry>>, c: nat, i: nat, p: nat)
    requires IsUnion(all, lists) && c < |lists| && i < |lists| && i != c && p < |all| && all[p] in lists[c]
    ensures Sorted(all) && Sorted(lists[i]) && (forall e :: e in lists[i] ==> e in all)
    ensures all[p] !in lists[i]
  {
  }

  lemma AfterIsNext(es: seq<Entry>, all: seq<Entry>, p: nat)
    requires Sorted(es) && Sorted(all) && p < |all| && (forall e :: e in es ==> e in all) && all[p] !in es
    ensures FirstAfter(es, all[p].key) == AtOrAfter(es, all, p + 1)
    ensures AtOrAfter(es, all, p) == AtOrAfter(es, all, p + 1) && LastBelow(es, all, p + 1) == LastBelow(es, all, p)
  {
    BelowNext(es, all, p);
    var i := SeekIndex(es, all[p].key);
    if i < |es| {
      OtherEntryOtherKey(all, p, es[i]);
    }
  }

  lemma OtherEntryOtherKey(all: seq<Entry>, n: nat, e: Entry)
    requires Sorted(all) && n < |all| && e in all && e != all[n]
    ensures e.key != all[n].key
  {
    var m :| 0 <= m < |all| && all[m] == e;
    assert m < n ==> Less(all[m].key, all[n].key);
    assert m > n ==> Less(all[n].key, all[m].key);
  }

  lemma BeforeIsBelow(es: seq<Entry>, all: seq<Entry>, p: nat)
    requires p < |all|
    ensures LastBefore(es, all[p].key) == LastBelow(es, all, p)
  {
  }

  lemma Holder(all: seq<Entry>, lists: seq<seq<Entry>>, n: nat) returns (h: nat)
    requires IsUnion(all, lists) && n < |all|
    ensures h < |lists| && all[n] in lists[h]
  {
    assert all[n] in all;
    h :| 0 <= h < |lists| && all[n] in lists[h];
  }

  lemma ChildOfUnion(all: seq<Entry>, lists: seq<seq<Entry>>, i: nat)
    requires IsUnion(all, lists) && i < |lists|
    ensures Sorted(all) && Sorted(lists[i]) && forall e :: e in lists[i] ==> e in all
  {
  }

  lemma SeekPositionIs(es: seq<Entry>, target: InternalKey)
    ensures SeekPosition(es, target) == if SeekIndex(es, target) < |es| then Some(SeekIndex(es, target)) else None
  {
  }

  // Before the first entry of the union there is nothing ...
  lemma FirstIsBelow(es: seq<Entry>, all: seq<Entry>)
    requires Sorted(es) && Sorted(all) && forall e :: e in es ==> e in all
    ensures First(|es|) == AtOrAfter(es, all, 0)
  {
    if |es| > 0 {
      assert es[0] in es && es[0] in all;
      var m :| 0 <= m < |all| && all[m] == es[0];
      assert m > 0 ==> Less(all[0].key, all[m].key);
      SeekIndexIs(es, all[0].key, 0);
    }
  }

  // ... and before its end, everything.
  lemma LastIsBelow(es: seq<Entry>, all: seq<Entry>)
    ensures Last(|es|) == LastBelow(es, all, |all|)
  {
  }

  // Seeking a child to a target is seeking it to where the union stands at that target.
  lemma SeekIsBelow(es: seq<Entry>, all: seq<Entry>, target: InternalKey)
    requires Sorted(es) && Sorted(all) && forall e :: e in es ==> e in all
    ensures SeekPosition(es, target) == AtOrAfter(es, all, SeekIndex(all, target))
  {
    var n, j := SeekIndex(all, target), SeekIndex(es, target);
    forall i | j <= i < |es| ensures n < |all| && !Less(es[i].key, all[n].key) {
      assert i > j ==> Less(es[j].key, es[i].key);
      assert es[i] in es && es[i] in all;
      var m :| 0 <= m < |all| && all[m] == es[i];
      assert m >= n;
      assert m > n ==> Less(all[n].key, all[m].key);
    }
    if n < |all| {
      assert forall i :: 0 <= i < j ==> Less(es[i].key, all[n].key);
      SeekIndexIs(es, all[n].key, j);
    }
  }

  lemma NothingBelow(es: seq<Entry>, all: seq<Entry>)
    requires Sorted(es) && Sorted(all) && forall e :: e in es ==> e in all
    ensures LastBelow(es, all, 0) == None
  {
    FirstIsBelow(es, all);
  }
}
