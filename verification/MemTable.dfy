/**
  MemTable::Add and WriteBatchInternal::InsertInto (db/memtable.cc, db/write_batch.cc) on the
  sorted run a memtable presents.  How the skip list keeps that run is in module SkipLists.
 */
module MemTable {
  import opened Keys
  import opened VersionedMap

  function Add(es: seq<Entry>, e: Entry): (r: seq<Entry>)
    ensures forall x :: x in r <==> x == e || x in es
    ensures Sorted(es) && (forall x :: x in es ==> x.key != e.key) ==> Sorted(r)
  {
    if es == [] || Less(e.key, es[0].key) then [e] + es
    else
      var rest := Add(es[1..], e);
      assert Sorted(es) && (forall x :: x in es ==> x.key != e.key) ==> forall x :: x in rest ==> Less(es[0].key, x.key) by {
        if Sorted(es) && (forall x :: x in es ==> x.key != e.key) {
          assert es[0] in es;
          forall x | x in rest ensures Less(es[0].key, x.key) {
          }
        }
      }
      [es[0]] + rest
  }

  // MemTableInserter: the entries of a batch go in one by one.
  method InsertInto(mem: seq<Entry>, batch: seq<Entry>) returns (r: seq<Entry>)
    requires Sorted(mem)
    requires forall i, x :: 0 <= i < |batch| && x in mem ==> x.key != batch[i].key
    requires forall i, j :: 0 <= i < j < |batch| ==> batch[i].key != batch[j].key
    ensures Sorted(r)
    ensures forall x :: x in r <==> x in mem || x in batch
  {
    r := mem;
    for i := 0 to |batch|
      invariant Sorted(r)
      invariant forall x :: x in r <==> x in mem || x in batch[..i]
    {
      assert batch[..i + 1] == batch[..i] + [batch[i]];
      r := Add(r, batch[i]);
    }
    assert batch[..|batch|] == batch;
  }
}
