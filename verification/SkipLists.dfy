/**
  The skip list (db/skiplist.h).  Nodes live in an arena that only grows, and a pointer is an
  arena address; address 0 is head_.  One writer at a time links a new node bottom-up, one store
  per step, while readers load links without a lock.
 */
module SkipLists {
  import opened Wrappers
  import opened Keys
  import opened Versions
  import opened Cursors
  import MemTable

  const MAX_HEIGHT: nat := 12

  type Pointer = Option<nat>

  // `next` has one link per level of the node.
  datatype Node = Node(entry: Entry, next: seq<Pointer>)

  // head_ is before every target.
  predicate NodeBefore(nodes: seq<Node>, x: nat, target: InternalKey)
    requires x < |nodes|
  {
    x == 0 || Less(nodes[x].entry.key, target)
  }

  // KeyIsAfterNode: null is infinite.
  predicate KeyIsAfter(nodes: seq<Node>, p: Pointer, target: InternalKey)
    requires p.Some? ==> p.value < |nodes|
  {
    p.Some? && Less(nodes[p.value].entry.key, target)
  }

  predicate Follows(nodes: seq<Node>, x: nat, y: nat)
    requires x < |nodes| && y < |nodes|
  {
    NodeBefore(nodes, x, nodes[y].entry.key)
  }

  ghost predicate InArena(nodes: seq<Node>, level: set<nat>) {
    forall x :: x in level ==> 0 < x < |nodes|
  }

  // p is the least node of the level after x.
  ghost predicate IsSuccessor(nodes: seq<Node>, level: set<nat>, x: nat, p: Pointer)
    requires InArena(nodes, level) && x < |nodes|
  {
    match p
    case None => forall y :: y in level ==> !Follows(nodes, x, y)
    case Some(n) =>
      n in level && Follows(nodes, x, n) &&
      forall y :: y in level && Follows(nodes, x, y) ==> y == n || Follows(nodes, n, y)
  }

  // The links of level i are a sorted list from head_ over exactly the nodes of `level`.
  ghost predicate Linked(nodes: seq<Node>, level: set<nat>, i: nat) {
    && 0 < |nodes| && i < |nodes[0].next|
    && InArena(nodes, level)
    && (forall x :: x in level ==> i < |nodes[x].next|)
    && DistinctKeys(nodes, level)
    && IsSuccessor(nodes, level, 0, nodes[0].next[i])
    && (forall x :: x in level ==> IsSuccessor(nodes, level, x, nodes[x].next[i]))
  }

  ghost predicate DistinctKeys(nodes: seq<Node>, level: set<nat>)
    requires InArena(nodes, level)
  {
    forall x, y :: x in level && y in level && x != y ==> nodes[x].entry.key != nodes[y].entry.key
  }

  // on[i] is the set of nodes linked at level i: each level is a sublist of the level below it.
  ghost predicate WellFormed(nodes: seq<Node>, on: seq<set<nat>>) {
    && |on| == MAX_HEIGHT
    && (forall i :: 0 <= i < MAX_HEIGHT ==> Linked(nodes, on[i], i))
    && (forall i, j :: 0 <= i < j < MAX_HEIGHT ==> on[j] <= on[i])
  }

  // ---- Searches ----

  // p is the first node of the level whose key is at or after the target.
  ghost predicate IsFirstAtOrAfter(nodes: seq<Node>, level: set<nat>, target: InternalKey, p: Pointer)
    requires InArena(nodes, level)
  {
    match p
    case None => forall y :: y in level ==> Less(nodes[y].entry.key, target)
    case Some(n) =>
      n in level && !Less(nodes[n].entry.key, target) &&
      forall y :: y in level && !Less(nodes[y].entry.key, target) ==> y == n || Less(nodes[n].entry.key, nodes[y].entry.key)
  }

  // x is the last node of the level whose key is before the target, or head_.
  ghost predicate IsLastBefore(nodes: seq<Node>, level: set<nat>, target: InternalKey, x: nat)
    requires InArena(nodes, level) && x < |nodes|
  {
    && (x == 0 || x in level)
    && NodeBefore(nodes, x, target)
    && forall y :: y in level && Less(nodes[y].entry.key, target) ==> y == x || (x != 0 && Less(nodes[y].entry.key, nodes[x].entry.key))
  }

  ghost predicate IsLast(nodes: seq<Node>, level: set<nat>, x: nat)
    requires InArena(nodes, level) && x < |nodes|
  {
    && (x == 0 || x in level)
    && forall y :: y in level ==> y == x || (x != 0 && Less(nodes[y].entry.key, nodes[x].entry.key))
  }

  lemma SearchStops(nodes: seq<Node>, level: set<nat>, target: InternalKey, x: nat, p: Pointer)
    requires InArena(nodes, level) && x < |nodes| && (x == 0 || x in level) && DistinctKeys(nodes, level)
    requires NodeBefore(nodes, x, target) && IsSuccessor(nodes, level, x, p) && !KeyIsAfter(nodes, p, target)
    ensures IsFirstAtOrAfter(nodes, level, target, p)
    ensures IsLastBefore(nodes, level, target, x)
  {
    forall y | y in level && !Less(nodes[y].entry.key, target) ensures Follows(nodes, x, y) {
    }
    forall y | y in level && Less(nodes[y].entry.key, target)
      ensures y == x || (x != 0 && Less(nodes[y].entry.key, nodes[x].entry.key))
    {
      assert !Follows(nodes, x, y);
    }
  }

  // ---- Readers beside a writer ----

  // What a search has in hand between two loads.
  datatype Reader = Searching(x: nat, level: nat) | Stopped(result: Pointer)

  ghost predicate ReaderInv(nodes: seq<Node>, on: seq<set<nat>>, target: InternalKey, r: Reader)
    requires |on| == MAX_HEIGHT
  {
    r.Searching? ==> r.level < MAX_HEIGHT && r.x < |nodes| && (r.x == 0 || r.x in on[r.level]) && NodeBefore(nodes, r.x, target)
  }

  // One turn of the loop of FindGreaterOrEqual: one load.
  function ReaderTurn(nodes: seq<Node>, target: InternalKey, r: Reader): Reader
    requires r.Searching? && r.x < |nodes| && r.level < |nodes[r.x].next|
    requires nodes[r.x].next[r.level].Some? ==> nodes[r.x].next[r.level].value < |nodes|
  {
    var next := nodes[r.x].next[r.level];
    if KeyIsAfter(nodes, next, target) then Searching(next.value, r.level)
    else if r.level == 0 then Stopped(next)
    else Searching(r.x, r.level - 1)
  }

  lemma ReaderTurnOk(nodes: seq<Node>, on: seq<set<nat>>, target: InternalKey, r: Reader)
    requires WellFormed(nodes, on) && ReaderInv(nodes, on, target, r) && r.Searching?
    ensures r.x < |nodes| && r.level < |nodes[r.x].next| && IsSuccessor(nodes, on[r.level], r.x, nodes[r.x].next[r.level])
    ensures var r' := ReaderTurn(nodes, target, r);
      && ReaderInv(nodes, on, target, r')
      && (r'.Stopped? ==> IsFirstAtOrAfter(nodes, on[0], target, r'.result) && IsLastBefore(nodes, on[0], target, r.x))
  {
    assert Linked(nodes, on[r.level], r.level) && Linked(nodes, on[0], 0);
    var p := nodes[r.x].next[r.level];
    assert IsSuccessor(nodes, on[r.level], r.x, p);
    if !KeyIsAfter(nodes, p, target) {
      SearchStops(nodes, on[r.level], target, r.x, p);
    }
  }

  // The arena and the nodes linked at each level, at one instant.
  datatype Moment = Moment(nodes: seq<Node>, on: seq<set<nat>>)

  // What stores may do to the list: nodes are never unlinked, and entries never change.
  ghost predicate Grew(m: Moment, m': Moment) {
    && |m.nodes| <= |m'.nodes| && |m.on| == |m'.on|
    && (forall x :: 0 <= x < |m.nodes| ==> m'.nodes[x].entry == m.nodes[x].entry)
    && (forall i :: 0 <= i < |m.on| ==> m.on[i] <= m'.on[i])
  }

  lemma ReaderStable(m: Moment, m': Moment, target: InternalKey, r: Reader)
    requires WellFormed(m.nodes, m.on) && WellFormed(m'.nodes, m'.on) && Grew(m, m')
    requires ReaderInv(m.nodes, m.on, target, r)
    ensures ReaderInv(m'.nodes, m'.on, target, r)
  {
    hide Linked;
  }

  // One search among any stores of a writer: at each instant either the reader takes a turn or
  // the list grows.  The search starts at whatever height it read, current, stale or too large.
  ghost predicate IsWatched(moments: seq<Moment>, target: InternalKey, readers: seq<Reader>) {
    && 0 < |moments| == |readers|
    && (forall k :: 0 <= k < |moments| ==> WellFormed(moments[k].nodes, moments[k].on))
    && readers[0].Searching? && readers[0].x == 0 && readers[0].level < MAX_HEIGHT
    && (forall k, l :: 0 <= k && l == k + 1 < |moments| ==> TurnOrStore(moments[k], moments[l], target, readers[k], readers[l]))
  }

  ghost predicate TurnOrStore(m: Moment, m': Moment, target: InternalKey, r: Reader, r': Reader)
    requires WellFormed(m.nodes, m.on)
  {
    || (Grew(m, m') && r' == r)
    || (m' == m && ReaderInv(m.nodes, m.on, target, r) && r.Searching? && r' == Turned(m, target, r))
  }

  ghost function Turned(m: Moment, target: InternalKey, r: Reader): Reader
    requires WellFormed(m.nodes, m.on) && ReaderInv(m.nodes, m.on, target, r) && r.Searching?
  {
    ReaderTurnOk(m.nodes, m.on, target, r);
    ReaderTurn(m.nodes, target, r)
  }

  lemma {:induction false} WatchedReader(moments: seq<Moment>, target: InternalKey, readers: seq<Reader>, k: nat)
    requires IsWatched(moments, target, readers) && k < |moments|
    ensures ReaderInv(moments[k].nodes, moments[k].on, target, readers[k])
  {
    hide WellFormed, ReaderInv;
    if k == 0 {
      StartsAtHead(moments[0], target, readers[0]);
    } else {
      var j := k - 1;
      WatchedReader(moments, target, readers, j);
      assert TurnOrStore(moments[j], moments[k], target, readers[j], readers[k]);
      if readers[k] == readers[j] && Grew(moments[j], moments[k]) {
        ReaderStable(moments[j], moments[k], target, readers[j]);
      } else {
        ReaderTurnOk(moments[j].nodes, moments[j].on, target, readers[j]);
      }
    }
  }

  lemma StartsAtHead(m: Moment, target: InternalKey, r: Reader)
    requires WellFormed(m.nodes, m.on) && r.Searching? && r.x == 0 && r.level < MAX_HEIGHT
    ensures ReaderInv(m.nodes, m.on, target, r)
  {
    assert Linked(m.nodes, m.on[0], 0);
  }

  // A search among concurrent stores is atomic: its result is the true first node at or after
  // the target on level 0 at one instant k of the search.  So is FindLessThan, which takes the same
  // turns and returns the node the last of them leaves from.
  lemma {:induction false} SearchIsAtomic(moments: seq<Moment>, target: InternalKey, readers: seq<Reader>) returns (k: nat)
    requires IsWatched(moments, target, readers) && readers[|readers| - 1].Stopped?
    ensures k < |moments| && Linked(moments[k].nodes, moments[k].on[0], 0)
    ensures IsFirstAtOrAfter(moments[k].nodes, moments[k].on[0], target, readers[|readers| - 1].result)
    ensures readers[k].Searching? && readers[k].x < |moments[k].nodes|
    ensures IsLastBefore(moments[k].nodes, moments[k].on[0], target, readers[k].x)
  {
    hide WellFormed, ReaderInv, IsFirstAtOrAfter, IsLastBefore, Linked;
    var n := |moments| - 1;
    var j := n - 1;
    assert TurnOrStore(moments[j], moments[n], target, readers[j], readers[n]);
    if readers[j].Stopped? {
      k := SearchIsAtomic(moments[..n], target, readers[..n]);
    } else {
      WatchedReader(moments, target, readers, j);
      ReaderTurnOk(moments[j].nodes, moments[j].on, target, readers[j]);
      LevelZero(moments[j]);
      k := j;
    }
  }

  lemma LevelZero(m: Moment)
    requires WellFormed(m.nodes, m.on)
    ensures |m.on| == MAX_HEIGHT && Linked(m.nodes, m.on[0], 0)
  {
  }

  lemma {:induction false} ListGrew(moments: seq<Moment>, target: InternalKey, readers: seq<Reader>, k: nat)
    requires IsWatched(moments, target, readers) && k < |moments|
    ensures Grew(moments[0], moments[k])
  {
    if k > 0 {
      var j := k - 1;
      ListGrew(moments, target, readers, j);
      assert TurnOrStore(moments[j], moments[k], target, readers[j], readers[k]);
    }
  }

  // So no key inserted before the search began is passed over.
  lemma SearchFindsEarlierKeys(moments: seq<Moment>, target: InternalKey, readers: seq<Reader>, y: nat)
    returns (k: nat)
    requires IsWatched(moments, target, readers) && readers[|readers| - 1].Stopped?
    requires Linked(moments[0].nodes, moments[0].on[0], 0)
    requires y in moments[0].on[0] && !Less(moments[0].nodes[y].entry.key, target)
    ensures var p := readers[|readers| - 1].result;
      k < |moments| && p.Some? && p.value < |moments[k].nodes| &&
      AtMost(moments[k].nodes[p.value].entry.key, moments[0].nodes[y].entry.key)
  {
    k := SearchIsAtomic(moments, target, readers);
    ListGrew(moments, target, readers, k);
    assert y in moments[k].on[0];
  }

  // ---- Iteration beside a writer ----

  // An iterator moves on by single loads of level-0 links, and stores may come between any two.
  ghost predicate IsScan(moments: seq<Moment>, at: seq<nat>) {
    && 0 < |moments| == |at|
    && (forall k :: 0 <= k < |moments| ==> WellFormed(moments[k].nodes, moments[k].on))
    && OnList(moments[0], at[0])
    && (forall k, l :: 0 <= k && l == k + 1 < |moments| ==> LoadOrStore(moments[k], moments[l], at[k], at[l]))
  }

  // The iterator stands at a node of level 0, or at head_ before the first.
  ghost predicate OnList(m: Moment, x: nat)
    requires WellFormed(m.nodes, m.on)
  {
    x < |m.nodes| && (x == 0 || x in m.on[0])
  }

  ghost predicate LoadOrStore(m: Moment, m': Moment, x: nat, x': nat)
    requires WellFormed(m.nodes, m.on)
  {
    || (Grew(m, m') && x' == x)
    || (m' == m && OnList(m, x) && 0 < |m.nodes[x].next| && m.nodes[x].next[0] == Some(x'))
  }

  // The next load will read null.
  ghost predicate AtEnd(m: Moment, x: nat) {
    x < |m.nodes| && 0 < |m.nodes[x].next| && m.nodes[x].next[0] == None
  }

  lemma NextLoad(m: Moment, x: nat)
    requires WellFormed(m.nodes, m.on) && OnList(m, x)
    ensures 0 < |m.nodes[x].next| && IsSuccessor(m.nodes, m.on[0], x, m.nodes[x].next[0])
  {
    assert Linked(m.nodes, m.on[0], 0);
  }

  lemma {:induction false} ScanStaysOnList(moments: seq<Moment>, at: seq<nat>, k: nat)
    requires IsScan(moments, at) && k < |moments|
    ensures OnList(moments[k], at[k]) && Grew(moments[0], moments[k]) && |moments[k].on| == MAX_HEIGHT
  {
    if k > 0 {
      ScanStaysOnList(moments, at, k - 1);
      assert LoadOrStore(moments[k - 1], moments[k], at[k - 1], at[k]);
      NextLoad(moments[k - 1], at[k - 1]);
      hide Linked;
    }
  }

  // A key that was in the list before the scan began is visited, unless it lies still ahead.
  lemma {:induction false} AheadOrVisited(moments: seq<Moment>, at: seq<nat>, k: nat, y: nat)
    requires IsScan(moments, at) && k < |moments|
    requires y in moments[0].on[0] && y < |moments[0].nodes| && Follows(moments[0].nodes, at[0], y)
    ensures y < |moments[k].nodes| && at[k] < |moments[k].nodes|
    ensures Follows(moments[k].nodes, at[k], y) || exists j :: 0 <= j <= k && at[j] == y
  {
    ScanStaysOnList(moments, at, k);
    if k > 0 {
      AheadOrVisited(moments, at, k - 1, y);
      var m, m', x := moments[k - 1], moments[k], at[k - 1];
      ScanStaysOnList(moments, at, k - 1);
      assert LoadOrStore(m, m', x, at[k]);
      NextLoad(m, x);
      hide WellFormed, Linked;
      if Follows(m.nodes, x, y) && m' == m && m.nodes[x].next[0] == Some(at[k]) {
        assert y in m.on[0];
        assert y == at[k] || Follows(m.nodes, at[k], y);
      }
    }
  }

  lemma NothingAhead(m: Moment, x: nat, y: nat)
    requires WellFormed(m.nodes, m.on) && OnList(m, x) && AtEnd(m, x) && y in m.on[0]
    ensures y < |m.nodes| && !Follows(m.nodes, x, y)
  {
    NextLoad(m, x);
  }

  // A scan to the end visits every key behind its start that was there when it began, whatever is
  // inserted meanwhile, ...
  lemma ScanVisitsEarlierKeys(moments: seq<Moment>, at: seq<nat>, y: nat) returns (k: nat)
    requires IsScan(moments, at) && AtEnd(moments[|moments| - 1], at[|at| - 1])
    requires y in moments[0].on[0] && y < |moments[0].nodes| && Follows(moments[0].nodes, at[0], y)
    ensures k < |at| && at[k] == y
  {
    hide WellFormed, Follows, OnList, AtEnd;
    var n := |moments| - 1;
    AheadOrVisited(moments, at, n, y);
    ScanStaysOnList(moments, at, n);
    assert y in moments[n].on[0];
    NothingAhead(moments[n], at[n], y);
    k :| 0 <= k <= n && at[k] == y;
  }

  // One turn of a scan.
  lemma ScanStep(m: Moment, m': Moment, x: nat, x': nat)
    requires WellFormed(m.nodes, m.on) && WellFormed(m'.nodes, m'.on) && OnList(m, x) && LoadOrStore(m, m', x, x')
    ensures Grew(m, m') && OnList(m', x') && x' < |m.nodes|
    ensures x' == x || (x' != 0 && Follows(m.nodes, x, x'))
  {
    NextLoad(m, x);
    LevelZero(m);
    hide Linked;
  }

  // ... and in ascending order, each once.
  lemma {:induction false} ScanAscends(moments: seq<Moment>, at: seq<nat>, i: nat, j: nat)
    requires IsScan(moments, at) && i <= j < |moments|
    ensures at[i] < |moments[j].nodes| && at[j] < |moments[j].nodes|
    ensures at[i] == at[j] || (at[j] != 0 && Follows(moments[j].nodes, at[i], at[j]))
  {
    hide WellFormed, LoadOrStore, IsSuccessor, Less;
    ScanStaysOnList(moments, at, j);
    if i < j {
      ScanAscends(moments, at, i, j - 1);
      ScanStaysOnList(moments, at, j - 1);
      assert LoadOrStore(moments[j - 1], moments[j], at[j - 1], at[j]);
      ScanStep(moments[j - 1], moments[j], at[j - 1], at[j]);
      FollowsOn(moments[j - 1].nodes, at[i], at[j - 1], at[j]);
    }
  }

  lemma FollowsOn(nodes: seq<Node>, x: nat, y: nat, z: nat)
    requires x < |nodes| && y < |nodes| && z < |nodes|
    ensures y != 0 && Follows(nodes, x, y) && Follows(nodes, y, z) ==> Follows(nodes, x, z)
  {
    LessIsTotalOrder(nodes[x].entry.key, nodes[y].entry.key, nodes[z].entry.key);
  }

  // ---- Stores ----

  function SetNext(nodes: seq<Node>, x: nat, i: nat, p: Pointer): seq<Node>
    requires x < |nodes| && i < |nodes[x].next|
  {
    nodes[x := nodes[x].(next := nodes[x].next[i := p])]
  }

  // Readers of a level see only the links of that level.
  lemma LinkedFrame(nodes: seq<Node>, nodes': seq<Node>, level: set<nat>, i: nat)
    requires Linked(nodes, level, i) && |nodes| <= |nodes'|
    requires forall x :: 0 <= x < |nodes| ==> nodes'[x].entry == nodes[x].entry && |nodes'[x].next| == |nodes[x].next|
    requires forall x :: x == 0 || x in level ==> nodes'[x].next[i] == nodes[x].next[i]
    ensures Linked(nodes', level, i)
  {
    assert nodes'[0].next[i] == nodes[0].next[i];
    SuccessorFrame(nodes, nodes', level, 0, nodes[0].next[i]);
    forall x | x in level ensures IsSuccessor(nodes', level, x, nodes'[x].next[i]) {
      SuccessorFrame(nodes, nodes', level, x, nodes[x].next[i]);
    }
    hide IsSuccessor;
  }

  lemma SuccessorFrame(nodes: seq<Node>, nodes': seq<Node>, level: set<nat>, x: nat, p: Pointer)
    requires InArena(nodes, level) && x < |nodes| && IsSuccessor(nodes, level, x, p) && |nodes| <= |nodes'|
    requires forall y :: 0 <= y < |nodes| ==> nodes'[y].entry == nodes[y].entry
    ensures IsSuccessor(nodes', level, x, p)
  {
  }

  // NewNode: not yet linked anywhere.
  lemma AllocateOk(nodes: seq<Node>, on: seq<set<nat>>, n: Node)
    requires WellFormed(nodes, on)
    ensures WellFormed(nodes + [n], on)
  {
    hide Linked;
    forall i | 0 <= i < MAX_HEIGHT ensures Linked(nodes + [n], on[i], i) {
      AllocateLinked(nodes, on[i], i, n);
    }
  }

  lemma AllocateLinked(nodes: seq<Node>, level: set<nat>, i: nat, n: Node)
    requires Linked(nodes, level, i)
    ensures Linked(nodes + [n], level, i)
  {
    var nodes' := nodes + [n];
    LinkedFrame(nodes, nodes', level, i);
  }

  // NoBarrier_SetNext on a node that readers of level i cannot reach.
  lemma PrepareOk(nodes: seq<Node>, on: seq<set<nat>>, x: nat, i: nat, p: Pointer)
    requires WellFormed(nodes, on) && 0 < x < |nodes| && i < MAX_HEIGHT && i < |nodes[x].next| && x !in on[i]
    ensures WellFormed(SetNext(nodes, x, i, p), on)
  {
    forall j | 0 <= j < MAX_HEIGHT ensures Linked(SetNext(nodes, x, i, p), on[j], j) {
      assert Linked(nodes, on[j], j);
      LinkedFrame(nodes, SetNext(nodes, x, i, p), on[j], j);
    }
  }

  // prev[i] for a key: the node after which the key goes in level i.
  ghost predicate IsPrevious(nodes: seq<Node>, level: set<nat>, i: nat, prev: nat, key: InternalKey)
    requires Linked(nodes, level, i)
  {
    && prev < |nodes| && (prev == 0 || prev in level)
    && NodeBefore(nodes, prev, key)
    && !KeyIsAfter(nodes, nodes[prev].next[i], key)
  }

  ghost predicate PreviousAt(nodes: seq<Node>, on: seq<set<nat>>, i: nat, prev: nat, key: InternalKey) {
    i < |on| && Linked(nodes, on[i], i) && IsPrevious(nodes, on[i], i, prev, key)
  }

  // prev[i]->SetNext(i, x)
  lemma PublishLinked(nodes: seq<Node>, level: set<nat>, i: nat, prev: nat, x: nat)
    requires Linked(nodes, level, i) && 0 < x < |nodes| && i < |nodes[x].next| && x !in level
    requires IsPrevious(nodes, level, i, prev, nodes[x].entry.key) && nodes[x].next[i] == nodes[prev].next[i]
    requires forall y :: y in level ==> nodes[y].entry.key != nodes[x].entry.key
    ensures Linked(SetNext(nodes, prev, i, Some(x)), level + {x}, i)
  {
    hide IsSuccessor;
    var nodes' := SetNext(nodes, prev, i, Some(x));
    forall y | y == 0 || y in level + {x} ensures IsSuccessor(nodes', level + {x}, y, nodes'[y].next[i]) {
      PublishSuccessor(nodes, level, i, prev, x, y);
    }
    assert IsSuccessor(nodes', level + {x}, 0, nodes'[0].next[i]);
  }

  lemma PublishSuccessor(nodes: seq<Node>, level: set<nat>, i: nat, prev: nat, x: nat, y: nat)
    requires Linked(nodes, level, i) && 0 < x < |nodes| && i < |nodes[x].next| && x !in level
    requires IsPrevious(nodes, level, i, prev, nodes[x].entry.key) && nodes[x].next[i] == nodes[prev].next[i]
    requires forall z :: z in level ==> nodes[z].entry.key != nodes[x].entry.key
    requires y == 0 || y in level + {x}
    ensures var nodes' := SetNext(nodes, prev, i, Some(x)); IsSuccessor(nodes', level + {x}, y, nodes'[y].next[i])
  {
    hide IsSuccessor;
    var nodes' := SetNext(nodes, prev, i, Some(x));
    if y == prev {
      PublishAtPrevious(nodes, level, i, prev, x);
    } else if y == x {
      PublishAtNew(nodes, level, i, prev, x);
    } else {
      PublishElsewhere(nodes, level, i, prev, x, y);
    }
    SuccessorFrame(nodes, nodes', level + {x}, y, nodes'[y].next[i]);
  }

  lemma PublishAtPrevious(nodes: seq<Node>, level: set<nat>, i: nat, prev: nat, x: nat)
    requires Linked(nodes, level, i) && 0 < x < |nodes| && x !in level
    requires IsPrevious(nodes, level, i, prev, nodes[x].entry.key)
    requires forall y :: y in level ==> nodes[y].entry.key != nodes[x].entry.key
    ensures IsSuccessor(nodes, level + {x}, prev, Some(x))
  {
    hide Less;
    var p := nodes[prev].next[i];
    assert IsSuccessor(nodes, level, prev, p);
    hide Linked;
    forall z | z in level && Follows(nodes, prev, z) ensures Follows(nodes, x, z) {
      LessIsTotalOrder(nodes[x].entry.key, nodes[p.value].entry.key, nodes[z].entry.key);
    }
  }

  lemma PublishAtNew(nodes: seq<Node>, level: set<nat>, i: nat, prev: nat, x: nat)
    requires Linked(nodes, level, i) && 0 < x < |nodes| && x !in level
    requires IsPrevious(nodes, level, i, prev, nodes[x].entry.key)
    requires forall y :: y in level ==> nodes[y].entry.key != nodes[x].entry.key
    ensures IsSuccessor(nodes, level + {x}, x, nodes[prev].next[i])
  {
    hide Less;
    var p := nodes[prev].next[i];
    assert IsSuccessor(nodes, level, prev, p);
    hide Linked;
    forall z | z in level + {x} && Follows(nodes, x, z)
      ensures p.Some? && (z == p.value || Follows(nodes, p.value, z))
    {
      LessIsTotalOrder(nodes[x].entry.key, nodes[x].entry.key, nodes[z].entry.key);
      LessIsTotalOrder(nodes[prev].entry.key, nodes[x].entry.key, nodes[z].entry.key);
      assert Follows(nodes, prev, z);
    }
    if p.Some? {
      LessIsTotalOrder(nodes[x].entry.key, nodes[p.value].entry.key, nodes[x].entry.key);
    }
  }

  lemma PublishElsewhere(nodes: seq<Node>, level: set<nat>, i: nat, prev: nat, x: nat, y: nat)
    requires Linked(nodes, level, i) && 0 < x < |nodes| && x !in level
    requires IsPrevious(nodes, level, i, prev, nodes[x].entry.key)
    requires y != prev && (y == 0 || y in level)
    ensures IsSuccessor(nodes, level + {x}, y, nodes[y].next[i])
  {
    assert IsSuccessor(nodes, level, prev, nodes[prev].next[i]) && IsSuccessor(nodes, level, y, nodes[y].next[i]);
    if Follows(nodes, y, x) {
      assert prev != 0 && Follows(nodes, y, prev);
    }
  }

  lemma AdvanceShrinks(nodes: seq<Node>, level: set<nat>, on0: set<nat>, x: nat, n: nat)
    requires InArena(nodes, level) && level <= on0 && InArena(nodes, on0) && x < |nodes| && n in level && Follows(nodes, x, n)
    ensures NodesAfter(nodes, on0, n) < NodesAfter(nodes, on0, x)
  {
    forall y | y in NodesAfter(nodes, on0, n) ensures y in NodesAfter(nodes, on0, x) {
    }
    assert n in NodesAfter(nodes, on0, x) && n !in NodesAfter(nodes, on0, n);
  }

  ghost function NodesAfter(nodes: seq<Node>, on0: set<nat>, x: nat): set<nat>
    requires InArena(nodes, on0) && x < |nodes|
  {
    set y | y in on0 && Follows(nodes, x, y)
  }

  // Each moment is one store after the moment before it, and searches work in all of them.
  ghost predicate IsTrace(trace: seq<Moment>) {
    && (forall k :: 0 <= k < |trace| ==> WellFormed(trace[k].nodes, trace[k].on))
    && (forall k, l :: 0 <= k && l == k + 1 < |trace| ==> OneStore(trace[k], trace[l]))
  }

  ghost predicate OneStore(m: Moment, m': Moment) {
    && Grew(m, m')
    && ((exists n :: m'.nodes == m.nodes + [n])
        || exists x, i, p :: 0 <= x < |m.nodes| && 0 <= i < |m.nodes[x].next| && m'.nodes == SetNext(m.nodes, x, i, p))
  }

  lemma TraceGrows(trace: seq<Moment>, m: Moment)
    requires IsTrace(trace) && trace != [] && WellFormed(m.nodes, m.on) && OneStore(trace[|trace| - 1], m)
    ensures IsTrace(trace + [m])
  {
    hide WellFormed, OneStore;
  }

  lemma AtLevel(nodes: seq<Node>, on: seq<set<nat>>, i: nat)
    requires WellFormed(nodes, on) && i < MAX_HEIGHT
    ensures |on| == MAX_HEIGHT && InArena(nodes, on[i]) && InArena(nodes, on[0]) && on[i] <= on[0]
    ensures Linked(nodes, on[i], i) && Linked(nodes, on[0], 0)
  {
    assert Linked(nodes, on[i], i) && Linked(nodes, on[0], 0);
    hide Linked, IsSuccessor;
  }

  lemma LevelStop(nodes: seq<Node>, on: seq<set<nat>>, target: InternalKey, x: nat, level: nat)
    requires WellFormed(nodes, on) && ReaderInv(nodes, on, target, Searching(x, level))
    requires Linked(nodes, on[level], level) && !KeyIsAfter(nodes, nodes[x].next[level], target)
    ensures PreviousAt(nodes, on, level, x, target)
  {
  }

  lemma LinkedDistinct(nodes: seq<Node>, level: set<nat>, i: nat)
    requires Linked(nodes, level, i)
    ensures InArena(nodes, level) && DistinctKeys(nodes, level)
  {
    hide IsSuccessor;
  }

  lemma LinkAt(nodes: seq<Node>, level: set<nat>, i: nat, x: nat)
    requires Linked(nodes, level, i) && x < |nodes| && (x == 0 || x in level)
    ensures i < |nodes[x].next| && InArena(nodes, level) && IsSuccessor(nodes, level, x, nodes[x].next[i])
  {
    hide IsSuccessor, DistinctKeys;
  }

  lemma HeadExists(nodes: seq<Node>, level: set<nat>, i: nat)
    requires Linked(nodes, level, i)
    ensures 0 < |nodes|
  {
    hide IsSuccessor, DistinctKeys;
  }

  lemma SublistAt(nodes: seq<Node>, on: seq<set<nat>>, i: nat, x: nat)
    requires WellFormed(nodes, on) && i + 1 < MAX_HEIGHT
    ensures x in on[i + 1] ==> x in on[i]
  {
    hide Linked;
  }

  lemma LastStops(nodes: seq<Node>, level: set<nat>, x: nat)
    requires InArena(nodes, level) && x < |nodes| && (x == 0 || x in level) && Linked(nodes, level, 0)
    requires IsSuccessor(nodes, level, x, None)
    ensures IsLast(nodes, level, x)
  {
    LinkedDistinct(nodes, level, 0);
    hide Linked;
  }

  // A level nobody has been linked at yet.
  lemma HeadIsPrevious(nodes: seq<Node>, on: seq<set<nat>>, i: nat, key: InternalKey, maxHeight: nat)
    requires FullyLinked(nodes, on, maxHeight) && maxHeight <= i < MAX_HEIGHT
    ensures PreviousAt(nodes, on, i, 0, key)
  {
    assert Linked(nodes, on[i], i);
    assert on[i] == {};
  }

  ghost predicate LacksKey(nodes: seq<Node>, level: set<nat>, key: InternalKey) {
    forall y :: y in level ==> y < |nodes| && nodes[y].entry.key != key
  }

  // Insert has linked node x, of `height` levels, at the levels below i.  nodes0 and on0 are the
  // list before the insertion.
  ghost predicate Linking(nodes0: seq<Node>, on0: seq<set<nat>>, nodes: seq<Node>, on: seq<set<nat>>,
    e: Entry, height: nat, prev: seq<nat>, i: nat)
  {
    && WellFormed(nodes, on) && |on| == |on0| == MAX_HEIGHT && i <= height <= MAX_HEIGHT == |prev|
    && 0 < |nodes0| && |nodes| == |nodes0| + 1
    && (forall y :: 0 <= y < |nodes0| ==> nodes[y].entry == nodes0[y].entry && |nodes[y].next| == |nodes0[y].next|)
    && nodes[|nodes0|].entry == e && |nodes[|nodes0|].next| == height
    && (forall j :: 0 <= j < i ==> on[j] == on0[j] + {|nodes0|})
    && (forall j :: i <= j < MAX_HEIGHT ==> on[j] == on0[j])
    && (forall j :: 0 <= j < MAX_HEIGHT ==> LacksKey(nodes0, on0[j], e.key))
    && (forall j :: i <= j < height ==> PreviousAt(nodes, on, j, prev[j], e.key))
  }

  lemma StoreIsOne(nodes: seq<Node>, on: seq<set<nat>>, x: nat, i: nat, p: Pointer, on': seq<set<nat>>)
    requires x < |nodes| && i < |nodes[x].next| && |on| == |on'| && forall j :: 0 <= j < |on| ==> on[j] <= on'[j]
    ensures OneStore(Moment(nodes, on), Moment(SetNext(nodes, x, i, p), on'))
  {
  }

  lemma {:induction false} PreviousIsLinked(nodes: seq<Node>, on: seq<set<nat>>, j: nat, prev: nat, key: InternalKey)
    requires PreviousAt(nodes, on, j, prev, key)
    ensures j < |on| && prev < |nodes| && j < |nodes[prev].next| && (prev == 0 || prev in on[j])
    ensures IsSuccessor(nodes, on[j], prev, nodes[prev].next[j])
  {
    LinkAt(nodes, on[j], j, prev);
  }

  // x->NoBarrier_SetNext(i, prev[i]->NoBarrier_Next(i))
  lemma PrepareStep(nodes0: seq<Node>, on0: seq<set<nat>>, nodes: seq<Node>, on: seq<set<nat>>,
    e: Entry, height: nat, prev: seq<nat>, i: nat)
    requires Linking(nodes0, on0, nodes, on, e, height, prev, i) && i < height
    ensures prev[i] < |nodes0| && i < |nodes[prev[i]].next|
    ensures var nodes' := SetNext(nodes, |nodes0|, i, nodes[prev[i]].next[i]);
      Linking(nodes0, on0, nodes', on, e, height, prev, i) && nodes'[prev[i]] == nodes[prev[i]]
  {
    hide WellFormed, PreviousAt;
    var x := |nodes0|;
    PreviousIsLinked(nodes, on, i, prev[i], e.key);
    var p := nodes[prev[i]].next[i];
    var nodes' := SetNext(nodes, x, i, p);
    assert LacksKey(nodes0, on0[i], e.key) && x !in on0[i];
    PrepareOk(nodes, on, x, i, p);
    forall j | i <= j < height ensures PreviousAt(nodes', on, j, prev[j], e.key) {
      PreviousIsLinked(nodes, on, j, prev[j], e.key);
      PreviousFrame(nodes, on, nodes', on, j, prev[j], e.key);
    }
  }

  // prev[i]->SetNext(i, x)
  lemma PublishStep(nodes0: seq<Node>, on0: seq<set<nat>>, nodes: seq<Node>, on: seq<set<nat>>,
    e: Entry, height: nat, prev: seq<nat>, i: nat)
    requires Linking(nodes0, on0, nodes, on, e, height, prev, i) && i < height
    requires prev[i] < |nodes0| && i < |nodes[prev[i]].next| && nodes[|nodes0|].next[i] == nodes[prev[i]].next[i]
    ensures Linking(nodes0, on0, SetNext(nodes, prev[i], i, Some(|nodes0|)), on[i := on[i] + {|nodes0|}], e, height, prev, i + 1)
  {
    hide WellFormed, PreviousAt;
    var x := |nodes0|;
    var nodes', on' := SetNext(nodes, prev[i], i, Some(x)), on[i := on[i] + {x}];
    PublishOk(nodes0, on0, nodes, on, e, height, prev, i);
    forall j | i < j < height ensures PreviousAt(nodes', on', j, prev[j], e.key) {
      PreviousIsLinked(nodes, on, j, prev[j], e.key);
      PreviousFrame(nodes, on, nodes', on', j, prev[j], e.key);
    }
  }

  lemma PublishOk(nodes0: seq<Node>, on0: seq<set<nat>>, nodes: seq<Node>, on: seq<set<nat>>,
    e: Entry, height: nat, prev: seq<nat>, i: nat)
    requires Linking(nodes0, on0, nodes, on, e, height, prev, i) && i < height
    requires prev[i] < |nodes0| && i < |nodes[prev[i]].next| && nodes[|nodes0|].next[i] == nodes[prev[i]].next[i]
    ensures WellFormed(SetNext(nodes, prev[i], i, Some(|nodes0|)), on[i := on[i] + {|nodes0|}])
  {
    hide Linked, IsPrevious;
    var x := |nodes0|;
    var nodes', on' := SetNext(nodes, prev[i], i, Some(x)), on[i := on[i] + {x}];
    assert PreviousAt(nodes, on, i, prev[i], e.key);
    assert LacksKey(nodes0, on0[i], e.key) && x !in on0[i];
    PublishLinked(nodes, on[i], i, prev[i], x);
    forall j | 0 <= j < MAX_HEIGHT && j != i ensures Linked(nodes', on'[j], j) {
      OtherLevel(nodes, on[j], j, prev[i], i, Some(x));
    }
  }

  lemma OtherLevel(nodes: seq<Node>, level: set<nat>, j: nat, x: nat, i: nat, p: Pointer)
    requires Linked(nodes, level, j) && x < |nodes| && i < |nodes[x].next| && i != j
    ensures Linked(SetNext(nodes, x, i, p), level, j)
  {
    LinkedFrame(nodes, SetNext(nodes, x, i, p), level, j);
  }

  lemma LinkingShape(nodes0: seq<Node>, on0: seq<set<nat>>, nodes: seq<Node>, on: seq<set<nat>>,
    e: Entry, height: nat, prev: seq<nat>, i: nat)
    requires Linking(nodes0, on0, nodes, on, e, height, prev, i)
    ensures WellFormed(nodes, on) && |on| == MAX_HEIGHT == |prev| && |nodes| == |nodes0| + 1
    ensures height <= MAX_HEIGHT && |nodes[|nodes0|].next| == height
  {
    hide WellFormed, PreviousAt;
  }

  lemma NewNode(nodes: seq<Node>, on: seq<set<nat>>, n: Node, height: nat, prev: seq<nat>)
    requires WellFormed(nodes, on) && |prev| == MAX_HEIGHT && |n.next| == height <= MAX_HEIGHT
    requires LacksKey(nodes, on[0], n.entry.key)
    requires forall j :: 0 <= j < height ==> PreviousAt(nodes, on, j, prev[j], n.entry.key)
    ensures Linking(nodes, on, nodes + [n], on, n.entry, height, prev, 0)
    ensures IsTrace([Moment(nodes, on), Moment(nodes + [n], on)])
  {
    AllocateOk(nodes, on, n);
    HeadExists(nodes, on[0], 0);
    assert OneStore(Moment(nodes, on), Moment(nodes + [n], on));
    hide PreviousAt, Linked;
    forall j | 0 <= j < MAX_HEIGHT ensures LacksKey(nodes, on[j], n.entry.key) {
      assert on[j] <= on[0];
    }
    forall j | 0 <= j < height ensures PreviousAt(nodes + [n], on, j, prev[j], n.entry.key) {
      PreviousIsLinked(nodes, on, j, prev[j], n.entry.key);
      PreviousFrame(nodes, on, nodes + [n], on, j, prev[j], n.entry.key);
    }
    hide WellFormed;
  }

  // Between calls of Insert: every node is linked at all the levels it has.
  ghost predicate FullyLinked(nodes: seq<Node>, on: seq<set<nat>>, maxHeight: nat) {
    && WellFormed(nodes, on)
    && 1 <= maxHeight <= MAX_HEIGHT
    && (forall x :: x in on[0] ==> |nodes[x].next| <= maxHeight)
    && (forall i, x :: 0 <= i < MAX_HEIGHT && x in on[0] && i < |nodes[x].next| ==> x in on[i])
  }

  ghost function EntriesOn(nodes: seq<Node>, level: set<nat>): set<Entry>
    requires forall x :: x in level ==> x < |nodes|
  {
    set x | x in level :: nodes[x].entry
  }

  lemma NewKey(nodes: seq<Node>, on: seq<set<nat>>, e: Entry)
    requires WellFormed(nodes, on)
    requires forall x :: x in on[0] ==> x < |nodes|
    requires forall x :: x in EntriesOn(nodes, on[0]) ==> x.key != e.key
    ensures LacksKey(nodes, on[0], e.key)
  {
    hide Linked;
    forall y | y in on[0] ensures nodes[y].entry.key != e.key {
      assert nodes[y].entry in EntriesOn(nodes, on[0]);
    }
  }

  lemma FullyLinkedShape(nodes: seq<Node>, on: seq<set<nat>>, maxHeight: nat)
    requires FullyLinked(nodes, on, maxHeight)
    ensures WellFormed(nodes, on) && |on| == MAX_HEIGHT && 1 <= maxHeight <= MAX_HEIGHT
    ensures forall x :: x in on[0] ==> x < |nodes|
  {
    assert Linked(nodes, on[0], 0);
    hide Linked;
  }

  // One more node, which is on its first `height` levels.
  ghost predicate OneMoreNode(nodes0: seq<Node>, on0: seq<set<nat>>, nodes: seq<Node>, on: seq<set<nat>>, e: Entry, height: nat) {
    && |nodes| == |nodes0| + 1 && nodes[|nodes0|].entry == e && |nodes[|nodes0|].next| == height
    && (forall y :: 0 <= y < |nodes0| ==> nodes[y].entry == nodes0[y].entry && |nodes[y].next| == |nodes0[y].next|)
    && |on| == |on0|
    && forall j :: 0 <= j < |on0| ==> on[j] == if j < height then on0[j] + {|nodes0|} else on0[j]
  }

  lemma InsertDone(nodes0: seq<Node>, on0: seq<set<nat>>, oldHeight: nat, nodes: seq<Node>, on: seq<set<nat>>, maxHeight: nat,
    e: Entry, height: nat, prev: seq<nat>)
    requires FullyLinked(nodes0, on0, oldHeight) && Linking(nodes0, on0, nodes, on, e, height, prev, height)
    requires 1 <= height && maxHeight == if height > oldHeight then height else oldHeight
    ensures FullyLinked(nodes, on, maxHeight)
    ensures forall x :: x in on0[0] ==> x < |nodes0|
    ensures forall x :: x in on[0] ==> x < |nodes|
    ensures EntriesOn(nodes, on[0]) == EntriesOn(nodes0, on0[0]) + {e}
    ensures OneMoreNode(nodes0, on0, nodes, on, e, height)
  {
    hide Linked, PreviousAt;
    var x := |nodes0|;
    assert on[0] == on0[0] + {x};
    forall i, y | 0 <= i < MAX_HEIGHT && y in on[0] && i < |nodes[y].next| ensures y in on[i] {
      if y != x {
        assert y in on0[i];
      }
    }
    forall c | c in EntriesOn(nodes0, on0[0]) + {e} ensures c in EntriesOn(nodes, on[0]) {
      if c == e {
        assert nodes[x].entry == e;
      } else {
        var y :| y in on0[0] && nodes0[y].entry == c;
        assert nodes[y].entry == c;
      }
    }
  }

  lemma PreviousFrame(nodes: seq<Node>, on: seq<set<nat>>, nodes': seq<Node>, on': seq<set<nat>>, j: nat, prev: nat, key: InternalKey)
    requires PreviousAt(nodes, on, j, prev, key) && WellFormed(nodes', on') && j < MAX_HEIGHT == |on| && on'[j] == on[j]
    requires |nodes| <= |nodes'| && j < |nodes[prev].next| && j < |nodes'[prev].next| && nodes'[prev].next[j] == nodes[prev].next[j]
    requires forall y :: 0 <= y < |nodes| ==> nodes'[y].entry == nodes[y].entry
    ensures PreviousAt(nodes', on', j, prev, key)
  {
    assert Linked(nodes', on'[j], j);
    LinkAt(nodes, on[j], j, prev);
    hide Linked;
  }

  // One turn of a search loop, with all that the loops need of it.
  lemma SearchTurn(nodes: seq<Node>, on: seq<set<nat>>, target: InternalKey, x: nat, level: nat)
    requires WellFormed(nodes, on) && ReaderInv(nodes, on, target, Searching(x, level))
    ensures |on| == MAX_HEIGHT && level < |nodes[x].next| && Linked(nodes, on[0], 0)
    ensures var next := nodes[x].next[level]; next.Some? ==> next.value < |nodes|
    ensures var next := nodes[x].next[level]; KeyIsAfter(nodes, next, target) ==>
      ReaderInv(nodes, on, target, Searching(next.value, level)) && NodesAfter(nodes, on[0], next.value) < NodesAfter(nodes, on[0], x)
    ensures var next := nodes[x].next[level]; !KeyIsAfter(nodes, next, target) ==>
      PreviousAt(nodes, on, level, x, target) &&
      (level == 0 ==> IsFirstAtOrAfter(nodes, on[0], target, next) && IsLastBefore(nodes, on[0], target, x)) &&
      (level > 0 ==> ReaderInv(nodes, on, target, Searching(x, level - 1)))
  {
    hide Linked, IsSuccessor;
    ReaderTurnOk(nodes, on, target, Searching(x, level));
    AtLevel(nodes, on, level);
    LinkAt(nodes, on[level], level, x);
    var next := nodes[x].next[level];
    NextInArena(nodes, on[level], x, next);
    if KeyIsAfter(nodes, next, target) {
      AdvanceShrinks(nodes, on[level], on[0], x, next.value);
    } else {
      LevelStop(nodes, on, target, x, level);
      LinkedDistinct(nodes, on[level], level);
      SearchStops(nodes, on[level], target, x, next);
    }
  }

  lemma NextInArena(nodes: seq<Node>, level: set<nat>, x: nat, p: Pointer)
    requires InArena(nodes, level) && x < |nodes| && IsSuccessor(nodes, level, x, p)
    ensures p.Some? ==> p.value < |nodes| && p.value in level && Follows(nodes, x, p.value)
  {
  }

  class SkipList {
    var nodes: seq<Node>
    var maxHeight: nat
    ghost var on: seq<set<nat>>

    // Holds between any two stores of Insert, and is enough for a search.
    ghost predicate Searchable()
      reads this
    {
      WellFormed(nodes, on)
    }

    ghost predicate Valid()
      reads this
    {
      FullyLinked(nodes, on, maxHeight)
    }

    ghost function Contents(): (r: set<Entry>)
      requires Searchable()
      reads this
    {
      LevelZero(Moment(nodes, on));
      EntriesOn(nodes, on[0])
    }

    constructor ()
      ensures Valid() && Contents() == {}
    {
      var entry := Entry(InternalKey(0.0, 0, Value), "");
      nodes := [Node(entry, seq(MAX_HEIGHT, _ => None))];
      maxHeight := 1;
      on := seq(MAX_HEIGHT, _ => {});
    }

    // `seen` is the max_height_ the search read: it may be stale.
    method FindGreaterOrEqual(target: InternalKey, seen: nat) returns (p: Pointer, prev: seq<nat>)
      requires Searchable() && 1 <= seen <= MAX_HEIGHT
      ensures Linked(nodes, on[0], 0) && IsFirstAtOrAfter(nodes, on[0], target, p)
      ensures |prev| == MAX_HEIGHT && forall i :: 0 <= i < seen ==> PreviousAt(nodes, on, i, prev[i], target)
    {
      var x: nat, level: nat := 0, seen - 1;
      prev := seq(MAX_HEIGHT, _ => 0);
      StartsAtHead(Moment(nodes, on), target, Searching(x, level));
      SearchTurn(nodes, on, target, x, level);
      hide WellFormed, Linked, PreviousAt, IsSuccessor, NodesAfter, IsFirstAtOrAfter, IsLastBefore, Less, NodeBefore;
      while true
        invariant level < seen && ReaderInv(nodes, on, target, Searching(x, level)) && |prev| == MAX_HEIGHT
        invariant forall i :: level < i < seen ==> PreviousAt(nodes, on, i, prev[i], target)
        decreases level, NodesAfter(nodes, on[0], x)
      {
        SearchTurn(nodes, on, target, x, level);
        var next := nodes[x].next[level];
        if KeyIsAfter(nodes, next, target) {
          x := next.value;
        } else {
          prev := prev[level := x];
          if level == 0 {
            return next, prev;
          }
          level := level - 1;
        }
      }
    }

    method FindLessThan(target: InternalKey, seen: nat) returns (x: nat)
      requires Searchable() && 1 <= seen <= MAX_HEIGHT
      ensures Linked(nodes, on[0], 0) && x < |nodes| && IsLastBefore(nodes, on[0], target, x)
    {
      var level: nat := seen - 1;
      x := 0;
      StartsAtHead(Moment(nodes, on), target, Searching(x, level));
      SearchTurn(nodes, on, target, x, level);
      hide WellFormed, Linked, PreviousAt, IsSuccessor, NodesAfter, IsFirstAtOrAfter, IsLastBefore, Less, NodeBefore;
      while true
        invariant level < seen && ReaderInv(nodes, on, target, Searching(x, level))
        decreases level, NodesAfter(nodes, on[0], x)
      {
        SearchTurn(nodes, on, target, x, level);
        var next := nodes[x].next[level];
        if next.None? || !Less(nodes[next.value].entry.key, target) {
          if level == 0 {
            return;
          }
          level := level - 1;
        } else {
          x := next.value;
        }
      }
    }

    method FindLast(seen: nat) returns (x: nat)
      requires Searchable() && 1 <= seen <= MAX_HEIGHT
      ensures Linked(nodes, on[0], 0) && x < |nodes| && IsLast(nodes, on[0], x)
    {
      var level: nat := seen - 1;
      x := 0;
      AtLevel(nodes, on, level);
      HeadExists(nodes, on[0], 0);
      hide WellFormed, Linked;
      while true
        invariant level < seen && x < |nodes| && (x == 0 || x in on[level])
        decreases level, NodesAfter(nodes, on[0], x)
      {
        AtLevel(nodes, on, level);
        LinkAt(nodes, on[level], level, x);
        var next := nodes[x].next[level];
        if next.None? {
          if level == 0 {
            LastStops(nodes, on[0], x);
            return;
          }
          level := level - 1;
          SublistAt(nodes, on, level, x);
        } else {
          AdvanceShrinks(nodes, on[level], on[0], x, next.value);
          x := next.value;
        }
      }
    }

    // One turn of the linking loop of Insert: two stores.
    method LinkAtLevel(prev: seq<nat>, i: nat, ghost nodes0: seq<Node>, ghost on0: seq<set<nat>>, ghost e: Entry, ghost height: nat,
      ghost before: seq<Moment>)
      returns (ghost trace: seq<Moment>)
      requires Linking(nodes0, on0, nodes, on, e, height, prev, i) && i < height
      requires IsTrace(before) && before != [] && before[|before| - 1] == Moment(nodes, on)
      modifies this`nodes, this`on
      ensures Linking(nodes0, on0, nodes, on, e, height, prev, i + 1)
      ensures IsTrace(trace) && before < trace && trace[|trace| - 1] == Moment(nodes, on)
    {
      hide Linking, WellFormed, OneStore, IsTrace;
      LinkingShape(nodes0, on0, nodes, on, e, height, prev, i);
      PrepareStep(nodes0, on0, nodes, on, e, height, prev, i);
      var x := |nodes| - 1;
      var after := nodes[prev[i]].next[i];
      StoreIsOne(nodes, on, x, i, after, on);
      nodes := SetNext(nodes, x, i, after);
      LinkingShape(nodes0, on0, nodes, on, e, height, prev, i);
      TraceGrows(before, Moment(nodes, on));
      trace := before + [Moment(nodes, on)];

      PublishStep(nodes0, on0, nodes, on, e, height, prev, i);
      ghost var on' := on[i := on[i] + {x}];
      StoreIsOne(nodes, on, prev[i], i, Some(x), on');
      nodes, on := SetNext(nodes, prev[i], i, Some(x)), on';
      LinkingShape(nodes0, on0, nodes, on, e, height, prev, i + 1);
      TraceGrows(trace, Moment(nodes, on));
      trace := trace + [Moment(nodes, on)];
    }

    // The trace has one moment for every store to a link.
    method Insert(e: Entry, height: nat) returns (ghost trace: seq<Moment>)
      requires Valid() && 1 <= height <= MAX_HEIGHT
      requires forall x :: x in Contents() ==> x.key != e.key
      modifies this
      ensures Valid() && Contents() == old(Contents()) + {e}
      ensures OneMoreNode(old(nodes), old(on), nodes, on, e, height)
      ensures maxHeight == if height > old(maxHeight) then height else old(maxHeight)
      ensures IsTrace(trace) && trace != []
      ensures trace[0] == Moment(old(nodes), old(on)) && trace[|trace| - 1] == Moment(nodes, on)
    {
      hide Linking, WellFormed, OneStore, IsTrace, PreviousAt, FullyLinked, IsFirstAtOrAfter, Linked, OneMoreNode;
      ghost var nodes0, on0, oldHeight := nodes, on, maxHeight;
      FullyLinkedShape(nodes, on, maxHeight);
      NewKey(nodes, on, e);
      var at, prev := FindGreaterOrEqual(e.key, maxHeight);
      prev := HeadAbove(prev, height, e.key);
      if height > maxHeight {
        maxHeight := height;
      }
      var node := Node(e, seq(height, _ => None));
      NewNode(nodes, on, node, height, prev);
      trace := [Moment(nodes, on), Moment(nodes + [node], on)];
      nodes := nodes + [node];
      for i := 0 to height
        invariant Linking(nodes0, on0, nodes, on, e, height, prev, i) && IsTrace(trace) && |trace| > 1
        invariant trace[0] == Moment(nodes0, on0) && trace[|trace| - 1] == Moment(nodes, on)
        invariant maxHeight == if height > oldHeight then height else oldHeight
      {
        trace := LinkAtLevel(prev, i, nodes0, on0, e, height, trace);
      }
      InsertDone(nodes0, on0, oldHeight, nodes, on, maxHeight, e, height, prev);
    }

    // prev[i] = head_ for the levels that nobody has been linked at yet.
    method HeadAbove(prev: seq<nat>, height: nat, ghost key: InternalKey) returns (r: seq<nat>)
      requires Valid() && height <= MAX_HEIGHT == |prev|
      requires forall i :: 0 <= i < maxHeight ==> PreviousAt(nodes, on, i, prev[i], key)
      ensures |r| == MAX_HEIGHT && forall i :: 0 <= i < height ==> PreviousAt(nodes, on, i, r[i], key)
    {
      hide PreviousAt, WellFormed;
      r := prev;
      if height > maxHeight {
        for i := maxHeight to height
          invariant |r| == MAX_HEIGHT
          invariant forall j :: 0 <= j < i ==> PreviousAt(nodes, on, j, r[j], key)
        {
          HeadIsPrevious(nodes, on, i, key, maxHeight);
          r := r[i := 0];
        }
      }
    }

    method Contains(key: InternalKey) returns (found: bool)
      requires Valid()
      ensures found <==> exists x :: x in Contents() && x.key == key
    {
      FullyLinkedShape(nodes, on, maxHeight);
      var p, prev := FindGreaterOrEqual(key, maxHeight);
      found := p.Some? && nodes[p.value].entry.key == key;
      FoundIffPresent(nodes, on[0], key, p);
    }
  }

  lemma FoundIffPresent(nodes: seq<Node>, level: set<nat>, key: InternalKey, p: Pointer)
    requires InArena(nodes, level) && IsFirstAtOrAfter(nodes, level, key, p)
    ensures p.Some? && nodes[p.value].entry.key == key <==> exists x :: x in EntriesOn(nodes, level) && x.key == key
  {
    if p.Some? && nodes[p.value].entry.key == key {
      assert nodes[p.value].entry in EntriesOn(nodes, level);
    }
    forall x | x in EntriesOn(nodes, level) && x.key == key ensures p.Some? && nodes[p.value].entry.key == key {
      var y :| y in level && nodes[y].entry == x;
    }
  }

  // ---- Iteration ----

  // es is level 0 read from head_ to the end.
  ghost predicate IsListing(es: seq<Entry>, nodes: seq<Node>, level: set<nat>)
    requires InArena(nodes, level)
  {
    Sorted(es) && forall x :: x in es <==> x in EntriesOn(nodes, level)
  }

  // The iterator at p stands at this position of the listing.
  ghost predicate At(es: seq<Entry>, nodes: seq<Node>, level: set<nat>, p: Pointer, pos: Position)
    requires InArena(nodes, level)
  {
    if p.None? then pos.None? else p.value in level && pos.Some? && pos.value < |es| && es[pos.value] == nodes[p.value].entry
  }

  lemma IndexOf(es: seq<Entry>, nodes: seq<Node>, level: set<nat>, y: nat) returns (j: nat)
    requires InArena(nodes, level) && IsListing(es, nodes, level) && y in level
    ensures j < |es| && es[j] == nodes[y].entry
  {
    assert nodes[y].entry in EntriesOn(nodes, level);
    j :| 0 <= j < |es| && es[j] == nodes[y].entry;
  }

  lemma NodeOf(es: seq<Entry>, nodes: seq<Node>, level: set<nat>, j: nat) returns (y: nat)
    requires InArena(nodes, level) && IsListing(es, nodes, level) && j < |es|
    ensures y in level && es[j] == nodes[y].entry
  {
    assert es[j] in EntriesOn(nodes, level);
    y :| y in level && nodes[y].entry == es[j];
  }

  // The first node at or after a target is where a seek in the listing ends.
  lemma FirstIsSeek(es: seq<Entry>, nodes: seq<Node>, level: set<nat>, target: InternalKey, p: Pointer)
    requires InArena(nodes, level) && IsListing(es, nodes, level) && IsFirstAtOrAfter(nodes, level, target, p)
    ensures At(es, nodes, level, p, SeekPosition(es, target))
  {
    hide IsListing;
    var i := SeekIndex(es, target);
    if i < |es| {
      var y := NodeOf(es, nodes, level, i);
    }
    if p.Some? {
      var j := IndexOf(es, nodes, level, p.value);
      ListingOrder(es, nodes, level, i, j);
    }
  }

  lemma ListingOrder(es: seq<Entry>, nodes: seq<Node>, level: set<nat>, i: nat, j: nat)
    requires InArena(nodes, level) && IsListing(es, nodes, level) && j < |es|
    ensures i < j ==> Less(es[i].key, es[j].key) && !Less(es[j].key, es[i].key)
  {
  }

  // A link of level 0 leads to the next position.
  lemma SuccessorIsNext(es: seq<Entry>, nodes: seq<Node>, level: set<nat>, x: nat, p: Pointer, pos: nat)
    requires InArena(nodes, level) && IsListing(es, nodes, level) && x in level && IsSuccessor(nodes, level, x, p)
    requires pos < |es| && es[pos] == nodes[x].entry
    ensures At(es, nodes, level, p, After(|es|, pos))
  {
    hide IsListing, Less;
    if pos + 1 < |es| {
      var y := NodeOf(es, nodes, level, pos + 1);
      ListingOrder(es, nodes, level, pos, pos + 1);
      assert Follows(nodes, x, y);
    }
    if p.Some? {
      var j := IndexOf(es, nodes, level, p.value);
      ListingOrder(es, nodes, level, j, pos);
      ListingOrder(es, nodes, level, pos + 1, j);
      LessIsTotalOrder(es[pos].key, es[pos].key, es[pos].key);
    }
  }

  lemma HeadIsFirst(es: seq<Entry>, nodes: seq<Node>, level: set<nat>, p: Pointer)
    requires InArena(nodes, level) && IsListing(es, nodes, level) && 0 < |nodes| && IsSuccessor(nodes, level, 0, p)
    ensures At(es, nodes, level, p, First(|es|))
  {
    hide IsListing;
    if 0 < |es| {
      var y := NodeOf(es, nodes, level, 0);
      var j := IndexOf(es, nodes, level, p.value);
      ListingOrder(es, nodes, level, 0, j);
    } else if p.Some? {
      var j := IndexOf(es, nodes, level, p.value);
    }
  }

  ghost function OrNull(x: nat): Pointer {
    if x == 0 then None else Some(x)
  }

  lemma LastBeforeIsPrevious(es: seq<Entry>, nodes: seq<Node>, level: set<nat>, x: nat, pos: nat)
    requires InArena(nodes, level) && IsListing(es, nodes, level) && x < |nodes| && pos < |es|
    requires IsLastBefore(nodes, level, es[pos].key, x)
    ensures At(es, nodes, level, OrNull(x), Cursors.Before(pos))
  {
    hide IsListing;
    if pos > 0 {
      var y := NodeOf(es, nodes, level, pos - 1);
      ListingOrder(es, nodes, level, pos - 1, pos);
    }
    if x != 0 {
      var j := IndexOf(es, nodes, level, x);
      ListingOrder(es, nodes, level, pos, j);
      if pos > 0 {
        ListingOrder(es, nodes, level, j, pos - 1);
      }
    }
  }

  lemma LastIsLast(es: seq<Entry>, nodes: seq<Node>, level: set<nat>, x: nat)
    requires InArena(nodes, level) && IsListing(es, nodes, level) && x < |nodes| && IsLast(nodes, level, x)
    ensures At(es, nodes, level, OrNull(x), Last(|es|))
  {
    hide IsListing;
    if |es| > 0 {
      var y := NodeOf(es, nodes, level, |es| - 1);
    }
    if x != 0 {
      var j := IndexOf(es, nodes, level, x);
      ListingOrder(es, nodes, level, j, |es| - 1);
    }
  }

  // SkipList::Iterator: a cursor over the listing.
  class SkipListIterator {
    const list: SkipList
    var node: Pointer

    ghost predicate Over(es: seq<Entry>)
      reads list
    {
      list.Valid() && InArena(list.nodes, list.on[0]) && IsListing(es, list.nodes, list.on[0])
    }

    ghost predicate StandsAt(es: seq<Entry>, pos: Position)
      requires Over(es)
      reads this, list
    {
      At(es, list.nodes, list.on[0], node, pos)
    }

    constructor (list: SkipList)
      ensures this.list == list && node == None
    {
      this.list, node := list, None;
    }

    method Next(ghost es: seq<Entry>, ghost pos: nat)
      requires Over(es) && StandsAt(es, Some(pos))
      modifies this
      ensures Over(es) && StandsAt(es, After(|es|, pos))
    {
      FullyLinkedShape(list.nodes, list.on, list.maxHeight);
      AtLevel(list.nodes, list.on, 0);
      LinkAt(list.nodes, list.on[0], 0, node.value);
      SuccessorIsNext(es, list.nodes, list.on[0], node.value, list.nodes[node.value].next[0], pos);
      node := list.nodes[node.value].next[0];
    }

    method Prev(ghost es: seq<Entry>, ghost pos: nat)
      requires Over(es) && StandsAt(es, Some(pos))
      modifies this
      ensures Over(es) && StandsAt(es, Cursors.Before(pos))
    {
      FullyLinkedShape(list.nodes, list.on, list.maxHeight);
      var x := list.FindLessThan(list.nodes[node.value].entry.key, list.maxHeight);
      LastBeforeIsPrevious(es, list.nodes, list.on[0], x, pos);
      node := if x == 0 then None else Some(x);
    }

    method Seek(target: InternalKey, ghost es: seq<Entry>)
      requires Over(es)
      modifies this
      ensures Over(es) && StandsAt(es, SeekPosition(es, target))
    {
      FullyLinkedShape(list.nodes, list.on, list.maxHeight);
      var p, prev := list.FindGreaterOrEqual(target, list.maxHeight);
      FirstIsSeek(es, list.nodes, list.on[0], target, p);
      node := p;
    }

    method SeekToFirst(ghost es: seq<Entry>)
      requires Over(es)
      modifies this
      ensures Over(es) && StandsAt(es, First(|es|))
    {
      FullyLinkedShape(list.nodes, list.on, list.maxHeight);
      AtLevel(list.nodes, list.on, 0);
      HeadExists(list.nodes, list.on[0], 0);
      LinkAt(list.nodes, list.on[0], 0, 0);
      HeadIsFirst(es, list.nodes, list.on[0], list.nodes[0].next[0]);
      node := list.nodes[0].next[0];
    }

    method SeekToLast(ghost es: seq<Entry>)
      requires Over(es)
      modifies this
      ensures Over(es) && StandsAt(es, Last(|es|))
    {
      FullyLinkedShape(list.nodes, list.on, list.maxHeight);
      var x := list.FindLast(list.maxHeight);
      LastIsLast(es, list.nodes, list.on[0], x);
      node := if x == 0 then None else Some(x);
    }
  }

  // MemTable::Add through the skip list is the sorted insertion of module MemTable.
  method AddToMemTable(list: SkipList, e: Entry, height: nat, ghost es: seq<Entry>)
    requires list.Valid() && 1 <= height <= MAX_HEIGHT && InArena(list.nodes, list.on[0]) && IsListing(es, list.nodes, list.on[0])
    requires forall x :: x in es ==> x.key != e.key
    modifies list
    ensures list.Valid() && InArena(list.nodes, list.on[0]) && IsListing(MemTable.Add(es, e), list.nodes, list.on[0])
  {
    ghost var trace := list.Insert(e, height);
    FullyLinkedShape(list.nodes, list.on, list.maxHeight);
    AtLevel(list.nodes, list.on, 0);
  }
}
