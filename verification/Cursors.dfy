/**
  Iterators over sorted entries (include/leveldb/iterator.h): the contract that every internal
  iterator keeps, as a position in a sorted sequence.
 */
module Cursors {
  import opened Wrappers
  import opened Keys
  import opened Versions

  // A position, or none when the iterator is not Valid().
  type Position = Option<nat>

  function First(n: nat): Position {
    if n == 0 then None else Some(0)
  }

  function Last(n: nat): Position {
    if n == 0 then None else Some(n - 1)
  }

  function SeekPosition(es: seq<Entry>, target: InternalKey): Position {
    var i := SeekIndex(es, target);
    if i < |es| then Some(i) else None
  }

  function After(n: nat, p: nat): Position {
    if p + 1 < n then Some(p + 1) else None
  }

  function Before(p: nat): Position {
    if p == 0 then None else Some(p - 1)
  }

  class Cursor {
    const es: seq<Entry>
    var pos: Position

    ghost predicate Ok()
      reads this
    {
      Sorted(es) && (pos.Some? ==> pos.value < |es|)
    }

    constructor (es: seq<Entry>)
      requires Sorted(es)
      ensures Ok() && this.es == es && pos == None
    {
      this.es, pos := es, None;
    }

    predicate Valid()
      reads this
    {
      pos.Some?
    }

    function Current(): Entry
      requires Ok() && Valid()
      reads this
    {
      es[pos.value]
    }

    method SeekToFirst()
      requires Ok()
      modifies this
      ensures Ok() && pos == First(|es|)
    {
      pos := First(|es|);
    }

    method SeekToLast()
      requires Ok()
      modifies this
      ensures Ok() && pos == Last(|es|)
    {
      pos := Last(|es|);
    }

    method Seek(target: InternalKey)
      requires Ok()
      modifies this
      ensures Ok() && pos == SeekPosition(es, target)
    {
      pos := SeekPosition(es, target);
    }

    method Next()
      requires Ok() && Valid()
      modifies this
      ensures Ok() && pos == After(|es|, old(pos.value))
    {
      pos := After(|es|, pos.value);
    }

    method Prev()
      requires Ok() && Valid()
      modifies this
      ensures Ok() && pos == Before(old(pos.value))
    {
      pos := Before(pos.value);
    }
  }
}
