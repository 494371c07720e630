/**
  Group commit (DBImpl::Write and DBImpl::BuildBatchGroup, db/db_impl.cc).  The writer at the
  front of the queue leads: it appends the batches behind it to its own, gives up the mutex to
  log and apply them, and then takes the whole group out of the queue.  More writers may enqueue
  in the meantime.
 */
module WriteQueues {
  import opened Bytes
  import opened WriteBatches

  class Writer {
    // Null for a forced memtable switch.
    const batch: WriteBatch?
    ghost const ops: seq<BatchOp>
    const sync: bool
    var done: bool
    var status: Status

    constructor (batch: WriteBatch?, ghost ops: seq<BatchOp>, sync: bool)
      ensures this.batch == batch && this.ops == ops && this.sync == sync && !done
    {
      this.batch, this.ops, this.sync := batch, ops, sync;
      done, status := false, Ok;
    }

    ghost function Ops(): seq<BatchOp> {
      if batch == null then [] else ops
    }

    // WriteBatchInternal::ByteSize
    ghost function ByteSize(): nat {
      if batch == null then 0 else HEADER + |AllOps(ops)|
    }
  }

  ghost function OpsOf(ws: seq<Writer>): seq<BatchOp> {
    if ws == [] then [] else ws[0].Ops() + OpsOf(ws[1..])
  }

  ghost function SizeOf(ws: seq<Writer>): nat {
    if ws == [] then 0 else ws[0].ByteSize() + SizeOf(ws[1..])
  }

  lemma {:induction false} OneMoreWriter(ws: seq<Writer>, w: Writer)
    ensures OpsOf(ws + [w]) == OpsOf(ws) + w.Ops() && SizeOf(ws + [w]) == SizeOf(ws) + w.ByteSize()
  {
    if ws == [] {
      assert OpsOf([w][1..]) == [] && SizeOf([w][1..]) == 0;
      assert w.Ops() + [] == w.Ops() && [] + w.Ops() == w.Ops();
      assert ws + [w] == [w];
    } else {
      assert (ws + [w])[1..] == ws[1..] + [w];
      OneMoreWriter(ws[1..], w);
      Regroup(ws[0].Ops(), OpsOf(ws[1..]), w.Ops());
    }
  }

  lemma FirstWriter(w: Writer)
    ensures OpsOf([w]) == w.Ops() && SizeOf([w]) == w.ByteSize()
  {
    assert OpsOf([w][1..]) == [] && SizeOf([w][1..]) == 0;
    assert w.Ops() + [] == w.Ops();
  }

  lemma {:induction false} TwoGroups(a: seq<Writer>, b: seq<Writer>)
    ensures OpsOf(a + b) == OpsOf(a) + OpsOf(b)
  {
    if a == [] {
      assert a + b == b;
    } else {
      assert (a + b)[1..] == a[1..] + b;
      TwoGroups(a[1..], b);
      Regroup(a[0].Ops(), OpsOf(a[1..]), OpsOf(b));
    }
  }

  lemma {:induction false} OpsAreBytes(ops: seq<BatchOp>)
    ensures |ops| <= |AllOps(ops)|
  {
    if ops != [] {
      OpsAreBytes(ops[1..]);
    }
  }

  lemma {:induction false} GroupIsSmall(ws: seq<Writer>)
    ensures |OpsOf(ws)| <= SizeOf(ws)
  {
    if ws != [] {
      OpsAreBytes(ws[0].ops);
      GroupIsSmall(ws[1..]);
    }
  }

  // The size up to which a group may grow.
  function MaxSize(size: nat): nat {
    if size <= 0x2_0000 then size + 0x2_0000 else 0x10_0000
  }

  // The first n writers go together: without the sync writes that a leader that is none must not take, and not
  // more than a megabyte, or 128 kilobytes more than the first batch if that is not larger.  The group ends
  // at such a write, or before it would be too large.
  ghost predicate IsGroup(ws: seq<Writer>, n: nat) {
    && 1 <= n <= |ws|
    && var limit := if ws[0].ByteSize() <= 131072 then ws[0].ByteSize() + 131072 else 1048576;
       && (forall i :: 0 <= i < n ==> ws[i].sync ==> ws[0].sync)
       && (HasMore(ws, n) ==> SizeOf(ws[..n]) <= limit)
       && (n < |ws| ==> (ws[n].sync && !ws[0].sync) || (ws[n].batch != null && SizeOf(ws[..n + 1]) > limit))
  }

  // A batch is added to that of the leader.
  ghost predicate HasMore(ws: seq<Writer>, n: nat)
    requires n <= |ws|
  {
    exists i :: 1 <= i < n && ws[i].batch != null
  }

  lemma NoMore(ws: seq<Writer>)
    requires ws != []
    ensures !HasMore(ws, 1)
  {
  }

  lemma MoreStep(ws: seq<Writer>, n: nat)
    requires 1 <= n < |ws|
    ensures HasMore(ws, n + 1) <==> HasMore(ws, n) || ws[n].batch != null
  {
  }

  // There is only one such group.
  lemma GroupIsUnique(ws: seq<Writer>, n: nat, m: nat)
    requires IsGroup(ws, n) && IsGroup(ws, m)
    ensures n == m
  {
    if n < m {
      GroupIsShortest(ws, n, m);
    } else if m < n {
      GroupIsShortest(ws, m, n);
    }
  }

  lemma GroupIsShortest(ws: seq<Writer>, n: nat, m: nat)
    requires IsGroup(ws, n) && n < m <= |ws|
    ensures !IsGroup(ws, m)
  {
    hide SizeOf;
    SizesGrow(ws, n + 1, m);
  }

  lemma {:induction false} SizesGrow(ws: seq<Writer>, n: nat, m: nat)
    requires n <= m <= |ws|
    ensures SizeOf(ws[..n]) <= SizeOf(ws[..m])
  {
    hide SizeOf, OpsOf;
    if n < m {
      SizesGrow(ws, n, m - 1);
      OneMoreWriter(ws[..m - 1], ws[m - 1]);
      assert ws[..m] == ws[..m - 1] + [ws[m - 1]];
    }
  }

  lemma NumberedMore(n: nat, a: seq<BatchOp>, b: seq<BatchOp>)
    ensures Numbered(n, a + b) == Numbered(n, a) + Numbered(n + |a|, b)
  {
  }

  // Every writer is in the queue or has left, once, and in the order of arrival.
  ghost predicate IsQueue(enqueued: seq<Writer>, departed: seq<Writer>, writers: seq<Writer>, results: seq<Status>) {
    && enqueued == departed + writers
    && |results| == |departed|
    && (forall i, j :: 0 <= i < j < |enqueued| ==> enqueued[i] != enqueued[j])
  }

  lemma Queued(enqueued: seq<Writer>, departed: seq<Writer>, writers: seq<Writer>, results: seq<Status>)
    requires IsQueue(enqueued, departed, writers, results)
    ensures forall i, j :: 0 <= i < j < |writers| ==> writers[i] != writers[j]
  {
    assert forall i :: 0 <= i < |writers| ==> writers[i] == enqueued[|departed| + i];
  }

  lemma OneMoreGone(gone: seq<Writer>, ws: seq<Writer>, ended: seq<Status>, i: nat, status: Status)
    requires i < |ws|
    ensures gone + ws[..i] + [ws[i]] == gone + ws[..i + 1] && ws[i..][1..] == ws[i + 1..]
    ensures ended + seq(i, _ => status) + [status] == ended + seq(i + 1, _ => status)
  {
  }

  lemma FrontLeft(enqueued: seq<Writer>, departed: seq<Writer>, writers: seq<Writer>, results: seq<Status>, n: nat, status: Status)
    requires IsQueue(enqueued, departed, writers, results) && n <= |writers|
    ensures IsQueue(enqueued, departed + writers[..n], writers[n..], results + seq(n, _ => status))
  {
    Regroup(departed, writers[..n], writers[n..]);
    assert writers == writers[..n] + writers[n..];
  }

  // Numbers in the memtables increase.  As long as no group failed, the memtables have got all
  // operations of the departed writers in order, with consecutive numbers.
  ghost predicate Kept(first: nat, last: nat, memtable: seq<(nat, BatchOp)>, departed: seq<Writer>, results: seq<Status>) {
    && first <= last + 1
    && (forall i :: 0 <= i < |memtable| ==> memtable[i].0 <= last)
    && (forall i, j :: 0 <= i < j < |memtable| ==> memtable[i].0 < memtable[j].0)
    && ((forall r :: r in results ==> r == Ok) ==>
          memtable == Numbered(first, OpsOf(departed)) && last + 1 == first + |OpsOf(departed)|)
  }

  // A group that was logged and applied.
  lemma KeptGroup(first: nat, last: nat, memtable: seq<(nat, BatchOp)>, departed: seq<Writer>, results: seq<Status>, group: seq<Writer>)
    requires Kept(first, last, memtable, departed, results)
    ensures var ops := OpsOf(group);
      Kept(first, last + |ops|, memtable + Numbered(last + 1, ops), departed + group, results + seq(|group|, _ => Ok))
  {
    hide OpsOf;
    var ops := OpsOf(group);
    TwoGroups(departed, group);
    NumberedMore(first, OpsOf(departed), ops);
    assert forall r :: r in results ==> r in results + seq(|group|, _ => Ok);
  }

  // A group that failed, or a lone writer without a batch.
  lemma KeptOther(first: nat, last: nat, last': nat, memtable: seq<(nat, BatchOp)>, departed: seq<Writer>, results: seq<Status>,
    group: seq<Writer>, status: Status)
    requires Kept(first, last, memtable, departed, results) && last <= last' && group != []
    requires status == Ok ==> OpsOf(group) == [] && last' == last
    ensures Kept(first, last', memtable, departed + group, results + seq(|group|, _ => status))
  {
    hide OpsOf;
    var results' := results + seq(|group|, _ => status);
    assert results'[|results|] == status;
    assert status in results';
    assert forall r :: r in results ==> r in results';
    TwoGroups(departed, group);
    assert OpsOf(departed) + [] == OpsOf(departed);
  }

  // The group of a leader that has given up the mutex.
  datatype Leading = Idle | Group(size: nat, result: WriteBatch) | Alone(status: Status)

  class WriteQueue {
    var writers: seq<Writer>
    var lastSequence: nat
    const tmpBatch: WriteBatch
    // The log records, how many of them have been synced, and what went into the memtables.
    var log: seq<seq<byte>>
    var synced: nat
    var memtable: seq<(nat, BatchOp)>
    var leading: Leading
    ghost const first: nat
    ghost var enqueued: seq<Writer>
    ghost var departed: seq<Writer>
    // The status that each departed writer got.
    ghost var results: seq<Status>

    ghost predicate BatchesOk()
      reads this`writers, set w | w in writers && w.batch != null :: w.batch
    {
      && (forall w :: w in writers && w.batch != null ==> w.batch != tmpBatch && w.batch.Contains(w.ops))
      && (forall i, j :: 0 <= i < j < |writers| && writers[i].batch != null ==> writers[i].batch != writers[j].batch)
    }

    ghost predicate Fifo()
      reads this`writers, this`enqueued, this`departed, this`results
    {
      IsQueue(enqueued, departed, writers, results)
    }

    ghost predicate Conserves()
      reads this`lastSequence, this`log, this`synced, this`memtable, this`departed, this`results
    {
      synced <= |log| && Kept(first, lastSequence, memtable, departed, results)
    }

    ghost predicate LeadingOk()
      reads this`writers, this`leading, this`lastSequence, tmpBatch, set w | w in writers && w.batch != null :: w.batch
    {
      match leading
      case Idle => tmpBatch.Contains([])
      case Alone(room) => tmpBatch.Contains([]) && 1 <= |writers| && (room == Ok ==> writers[0].batch == null)
      case Group(size, result) =>
        && 1 <= size <= |writers| && writers[0].batch != null
        && (result == tmpBatch || (result == writers[0].batch && tmpBatch.Contains([])))
        && result.Holds(lastSequence + 1, OpsOf(writers[..size]))
        && (forall i :: 0 <= i < size ==> writers[i].sync ==> writers[0].sync)
    }

    ghost predicate Valid()
      reads this, tmpBatch, set w | w in writers && w.batch != null :: w.batch
    {
      BatchesOk() && Fifo() && Conserves() && LeadingOk()
    }

    constructor (lastSequence: nat)
      ensures Valid() && writers == [] && leading == Idle && this.lastSequence == lastSequence
      ensures enqueued == departed == [] && results == [] && memtable == [] && log == []
      ensures fresh(tmpBatch)
    {
      this.lastSequence, first := lastSequence, lastSequence + 1;
      tmpBatch := new WriteBatch();
      writers, log, synced, memtable, leading := [], [], 0, [], Idle;
      enqueued, departed, results := [], [], [];
    }

    // writers_.push_back(&w)
    method Enqueue(w: Writer)
      requires Valid() && w !in enqueued && !w.done
      requires w.batch != null ==>
        w.batch != tmpBatch && w.batch.Contains(w.ops) && forall v :: v in writers ==> v.batch != w.batch
      modifies this`writers, this`enqueued
      ensures Valid() && writers == old(writers) + [w] && enqueued == old(enqueued) + [w]
    {
      hide Conserves, WriteBatch.Contains, WriteBatch.Holds, OpsOf;
      writers, enqueued := writers + [w], enqueued + [w];
      Regroup(departed, old(writers), [w]);
      match leading
      case Group(size, result) => assert writers[..size] == old(writers)[..size];
      case _ =>
    }

    // BuildBatchGroup: the group is the first n writers.
    method BuildBatchGroup() returns (n: nat, result: WriteBatch)
      requires Valid() && leading == Idle && writers != [] && writers[0].batch != null
      modifies tmpBatch
      ensures BatchesOk() && 1 <= n <= |writers|
      ensures result == tmpBatch || (result == writers[0].batch && tmpBatch.Contains([]))
      ensures result.Contains(OpsOf(writers[..n])) && (result == writers[0].batch ==> OpsOf(writers[..n]) == writers[0].ops)
      ensures IsGroup(writers, n)
    {
      hide AllOps, WriteBatch.Contains, Fifo, Conserves, OpsOf, SizeOf, HasMore;
      NoMore(writers);
      var leader := writers[0];
      FirstWriter(leader);
      assert writers[..1] == [leader];
      leader.batch.SizeIs(leader.ops);
      result := leader.batch;
      var size := |leader.batch.rep|;
      var maxSize := MaxSize(size);
      n := 1;
      while n < |writers|
        invariant 1 <= n <= |writers| && BatchesOk()
        invariant size == SizeOf(writers[..n]) && maxSize == MaxSize(leader.ByteSize())
        invariant result == tmpBatch || (result == leader.batch && tmpBatch.Contains([]))
        invariant result.Contains(OpsOf(writers[..n]))
        invariant forall i :: 0 <= i < n ==> writers[i].sync ==> leader.sync
        invariant result == leader.batch ==> OpsOf(writers[..n]) == leader.ops
        invariant result == tmpBatch ==> size <= maxSize
        invariant result == tmpBatch <==> HasMore(writers, n)
      {
        var w := writers[n];
        MoreStep(writers, n);
        OneMoreWriter(writers[..n], w);
        assert writers[..n + 1] == writers[..n] + [w];
        if w.sync && !leader.sync {
          break;
        }
        if w.batch != null {
          w.batch.SizeIs(w.ops);
          GroupIsSmall(writers[..n + 1]);
          size := size + |w.batch.rep|;
          if size > maxSize {
            break;
          }
          if result == leader.batch {
            result := tmpBatch;
            leader.batch.SizeIs(leader.ops);
            tmpBatch.Append(leader.batch, [], leader.ops);
            assert [] + leader.ops == leader.ops;
          }
          tmpBatch.Append(w.batch, OpsOf(writers[..n]), w.ops);
        }
        assert w.batch == null ==> OpsOf(writers[..n]) + [] == OpsOf(writers[..n]);
        n := n + 1;
      }
    }

    // The first half of Write, in the leader, with the mutex: `room` is what MakeRoomForWrite said.
    method Begin(room: Status)
      requires Valid() && leading == Idle && writers != [] && lastSequence + 1 < U64
      modifies this`leading, tmpBatch, writers[0].batch
      ensures Valid() && leading != Idle
      ensures if room == Ok && writers[0].batch != null then leading.Group? && IsGroup(writers, leading.size) else leading == Alone(room)
    {
      hide Conserves, WriteBatch.Contains, WriteBatch.Holds, OpsOf, SizeOf, Fifo;
      if room == Ok && writers[0].batch != null {
        var n, result := BuildBatchGroup();
        result.SetSequence(lastSequence + 1, OpsOf(writers[..n]));
        leading := Group(n, result);
      } else {
        leading := Alone(room);
      }
    }

    // How a group ends.
    static function Outcome(leading: Leading, sync: bool, logged: Status, flushed: Status): Status {
      match leading
      case Alone(room) => room
      case _ => if logged != Ok then logged else if sync then flushed else Ok
    }

    ghost function GroupSize(): nat
      reads this`leading
    {
      if leading.Group? then leading.size else 1
    }

    // The second half of Write.  `logged` and `flushed` are what AddRecord and Sync returned.
    method Finish(logged: Status, flushed: Status) returns (status: Status)
      requires Valid() && leading != Idle
      modifies this, tmpBatch, set w | w in writers
      ensures Valid() && leading == Idle && status == Outcome(old(leading), old(writers[0]).sync, logged, flushed)
      ensures departed == old(departed) + old(writers)[..old(GroupSize())] && writers == old(writers)[old(GroupSize())..]
      ensures results == old(results) + seq(old(GroupSize()), _ => status)
      ensures forall i :: 0 < i < old(GroupSize()) ==> old(writers)[i].done && old(writers)[i].status == status
      ensures old(leading).Group? && status == Ok ==>
        memtable == old(memtable) + Numbered(old(lastSequence) + 1, OpsOf(old(writers)[..old(GroupSize())]))
      ensures !(old(leading).Group? && status == Ok) ==> memtable == old(memtable)
      // A sync write that succeeds is on disk, whoever led its group.
      ensures status == Ok && old(leading).Group? && (exists i :: 0 <= i < old(GroupSize()) && old(writers)[i].sync) ==>
        synced == |log| && |log| == |old(log)| + 1 && log[|log| - 1] == BatchBytes(old(lastSequence) + 1, OpsOf(old(writers)[..old(GroupSize())]))
    {
      hide Kept, Fifo, WriteBatch.Contains, WriteBatch.Holds, OpsOf, Numbered, BatchBytes;
      var size := if leading.Group? then leading.size else 1;
      ghost var group := writers[..size];
      if leading.Group? {
        status := LogAndApply(size, leading.result, logged, flushed);
        if status == Ok {
          KeptGroup(first, old(lastSequence), old(memtable), departed, results, group);
        } else {
          KeptOther(first, old(lastSequence), lastSequence, memtable, departed, results, group, status);
        }
      } else {
        status := leading.status;
        assert group == [writers[0]];
        FirstWriter(writers[0]);
        KeptOther(first, lastSequence, lastSequence, memtable, departed, results, group, status);
      }
      Depart(size, status);
      leading := Idle;
    }

    // The group leaves the queue, from the front.
    method Depart(size: nat, status: Status)
      requires Fifo() && BatchesOk() && 1 <= size <= |writers|
      modifies this`writers, this`departed, this`results, set w | w in writers
      ensures Fifo() && BatchesOk()
      ensures departed == old(departed) + old(writers)[..size] && writers == old(writers)[size..]
      ensures results == old(results) + seq(size, _ => status)
      ensures forall i :: 0 < i < size ==> old(writers)[i].done && old(writers)[i].status == status
    {
      hide IsQueue, WriteBatch.Contains;
      ghost var ws, gone, ended := writers, departed, results;
      Queued(enqueued, departed, writers, results);
      var leader := writers[0];
      var i := 0;
      while i < size
        invariant i <= size && enqueued == old(enqueued)
        invariant writers == ws[i..] && departed == gone + ws[..i] && results == ended + seq(i, _ => status)
        invariant forall j :: 0 < j < i ==> ws[j].done && ws[j].status == status
      {
        var ready := writers[0];
        writers := writers[1..];
        if ready != leader {
          ready.status := status;
          ready.done := true;
        }
        OneMoreGone(gone, ws, ended, i, status);
        departed, results := departed + [ready], results + [status];
        i := i + 1;
      }
      FrontLeft(enqueued, gone, ws, ended, size, status);
    }

    // What the leader does without the mutex, and SetLastSequence.
    method LogAndApply(size: nat, result: WriteBatch, logged: Status, flushed: Status) returns (status: Status)
      requires Valid() && leading == Group(size, result)
      modifies this`log, this`synced, this`memtable, this`lastSequence, tmpBatch
      ensures status == Outcome(leading, writers[0].sync, logged, flushed)
      ensures BatchesOk() && tmpBatch.Contains([]) && synced <= |log|
      ensures var ops := OpsOf(writers[..size]);
        && lastSequence == old(lastSequence) + |ops|
        && memtable == (if status == Ok then old(memtable) + Numbered(old(lastSequence) + 1, ops) else old(memtable))
        && log == (if logged == Ok then old(log) + [BatchBytes(old(lastSequence) + 1, ops)] else old(log))
      ensures status == Ok && writers[0].sync ==> synced == |log|
    {
      hide Kept, Fifo, OpsOf, WriteBatch.Contains, BatchBytes, AllOps, Numbered, OpFits;
      ghost var ops := OpsOf(writers[..size]);
      result.CountIs(lastSequence + 1, ops);
      var count := result.Count();
      status := logged;
      if logged == Ok {
        log := log + [result.rep];
        if writers[0].sync {
          status := flushed;
          if flushed == Ok {
            synced := |log|;
          }
        }
      }
      if status == Ok {
        var entries, inserted := result.InsertInto(lastSequence + 1, ops);
        memtable, status := memtable + entries, inserted;
      }
      lastSequence := lastSequence + count;
      if result == tmpBatch {
        tmpBatch.Clear();
      }
    }
  }
}
