/**
  DBIter (db/db_iter.cc): scans the internal entries and shows, for each user key that is live at
  its sequence number, the newest visible value.
 */
module DbIter {
  import opened Wrappers
  import opened Keys
  import opened VersionedMap
  import opened Versions
  import opened Cursors

  // Entry i is what a scan at sequence number s shows for its user key: a value, and the newest
  // visible entry of the key.
  ghost predicate Live(es: seq<Entry>, s: nat, i: nat) {
    && i < |es| && es[i].key.sn <= s && es[i].key.kind.Value?
    && forall j :: 0 <= j < i && es[j].key.user == es[i].key.user ==> es[j].key.sn > s
  }

  // The first live entry from position p on.
  ghost predicate IsFirstLive(es: seq<Entry>, s: nat, p: int, r: Position) {
    match r
    case None => forall i: nat :: p <= i ==> !Live(es, s, i)
    case Some(c) => p <= c && Live(es, s, c) && forall i: nat :: p <= i < c ==> !Live(es, s, i)
  }

  // The last live entry before position p.
  ghost predicate IsLastLive(es: seq<Entry>, s: nat, p: int, r: Position) {
    match r
    case None => forall i: nat :: i < p ==> !Live(es, s, i)
    case Some(c) => c < p && Live(es, s, c) && forall i: nat :: c < i < p ==> !Live(es, s, i)
  }

  // The live entry a seek to user key k finds.
  ghost predicate IsSeekLive(es: seq<Entry>, s: nat, k: UserKey, r: Position) {
    match r
    case None => forall i: nat :: i < |es| && es[i].key.user >= k ==> !Live(es, s, i)
    case Some(c) => Live(es, s, c) && es[c].key.user >= k &&
                    forall i: nat :: i < c && es[i].key.user >= k ==> !Live(es, s, i)
  }

  // Live entries have different user keys, in order.
  lemma LiveOrder(es: seq<Entry>, s: nat, i: nat, j: nat)
    requires Sorted(es) && Live(es, s, i) && Live(es, s, j)
    ensures i < j <==> es[i].key.user < es[j].key.user
  {
    assert i < j ==> Less(es[i].key, es[j].key);
    assert j < i ==> Less(es[j].key, es[i].key);
  }

  // The live entries are the plain view of the entries.
  lemma LiveIsView(es: seq<Entry>, s: nat, k: UserKey, v: string)
    requires Sorted(es) && Distinct(Contents(es))
    ensures View(Contents(es), k, s) == Some(v) <==> exists i: nat :: Live(es, s, i) && es[i].key.user == k && es[i].value == v
  {
    var E := Contents(es);
    forall i: nat | Live(es, s, i) && es[i].key.user == k ensures View(E, k, s) == Some(es[i].value) {
      LiveIsNewest(es, s, i);
      ViewOfNewest(E, k, s, es[i]);
    }
    if View(E, k, s) == Some(v) {
      var e :| IsNewest(E, k, s, e) && e.key.kind.Value?;
      ViewOfNewest(E, k, s, e);
      var i :| 0 <= i < |es| && es[i] == e;
      NewestIsLive(es, s, i);
      assert Live(es, s, i) && es[i].key.user == k && es[i].value == v;
    }
  }

  lemma LiveIsNewest(es: seq<Entry>, s: nat, i: nat)
    requires Sorted(es) && Live(es, s, i)
    ensures IsNewest(Contents(es), es[i].key.user, s, es[i])
  {
    forall x | x in Contents(es) && Visible(x, es[i].key.user, s) ensures x.key.sn <= es[i].key.sn {
      var j :| 0 <= j < |es| && es[j] == x;
      assert j > i ==> Less(es[i].key, es[j].key);
    }
  }

  lemma NewestIsLive(es: seq<Entry>, s: nat, i: nat)
    requires Sorted(es) && i < |es| && IsNewest(Contents(es), es[i].key.user, s, es[i]) && es[i].key.kind.Value?
    requires Distinct(Contents(es))
    ensures Live(es, s, i)
  {
    forall j | 0 <= j < i && es[j].key.user == es[i].key.user ensures es[j].key.sn > s {
      assert Less(es[j].key, es[i].key);
      assert es[j] in Contents(es) && es[i] in Contents(es);
    }
  }

  datatype Direction = Forward | Reverse

  class DBIter {
    const iter: Cursor
    const sequence: nat
    var savedKey: UserKey
    var savedValue: string
    var direction: Direction
    var valid: bool
    // The live entry shown.
    ghost var current: Position

    ghost predicate Ok()
      reads this, iter
    {
      && iter.Ok()
      && (valid <==> current.Some?)
      && (valid ==> Live(iter.es, sequence, current.value))
      && (valid && direction.Forward? ==> iter.pos == current)
      && (valid && direction.Reverse? ==>
            && savedKey == iter.es[current.value].key.user && savedValue == iter.es[current.value].value
            && JustBefore(iter.es, sequence, savedKey, iter.pos))
    }

    constructor (iter: Cursor, sequence: nat)
      requires iter.Ok()
      ensures Ok() && this.iter == iter && this.sequence == sequence && current == None
    {
      this.iter, this.sequence := iter, sequence;
      savedKey, savedValue, direction, valid, current := 0.0, "", Forward, false, None;
    }

    method Key() returns (k: UserKey)
      requires Ok() && valid
      ensures k == iter.es[current.value].key.user
    {
      k := if direction.Forward? then iter.Current().key.user else savedKey;
    }

    method Value() returns (v: string)
      requires Ok() && valid
      ensures v == iter.es[current.value].value
    {
      v := if direction.Forward? then iter.Current().value else savedValue;
    }

    method SeekToFirst()
      requires Ok()
      modifies this, iter
      ensures Ok() && IsFirstLive(iter.es, sequence, 0, current)
    {
      direction, savedValue := Forward, "";
      iter.SeekToFirst();
      if iter.Valid() {
        FindNextUserEntry(false, savedKey);
      } else {
        valid, current := false, None;
      }
    }

    method SeekToLast()
      requires Ok()
      modifies this, iter
      ensures Ok() && IsLastLive(iter.es, sequence, |iter.es|, current)
    {
      direction, savedValue := Reverse, "";
      iter.SeekToLast();
      FindPrevUserEntry(|iter.es|);
    }

    method Seek(target: UserKey)
      requires Ok()
      modifies this, iter
      ensures Ok() && IsSeekLive(iter.es, sequence, target, current)
    {
      hide Live, Passed, IsFirstPast, IsSeekLive;
      direction, savedValue := Forward, "";
      iter.Seek(SeekKey(target, sequence));
      SeekStart(iter.es, sequence, target);
      ghost var start := SeekIndex(iter.es, SeekKey(target, sequence));
      savedKey := *;
      ghost var skip := savedKey;
      if iter.Valid() {
        FindNextUserEntry(false, savedKey);
      } else {
        valid, current := false, None;
      }
      SeekDone(iter.es, sequence, target, start, skip, current);
    }

    // The next live entry after the one shown.
    method Next()
      requires Ok() && valid
      modifies this, iter
      ensures Ok() && IsFirstLive(iter.es, sequence, old(current.value) + 1, current)
    {
      hide Live, Passed, IsFirstPast, IsFirstLive, JustBefore;
      ghost var c := current.value;
      ghost var start := c;
      if direction.Reverse? {
        direction := Forward;
        start := if iter.pos.Some? then iter.pos.value + 1 else 0;
        ForwardAgain(iter.es, sequence, iter.pos, c, start);
        if !iter.Valid() {
          iter.SeekToFirst();
        } else {
          iter.Next();
        }
        // The entry shown lies ahead: the test for the end cannot succeed here.
        assert iter.Valid();
      } else {
        savedKey := iter.Current().key.user;
        OnCurrent(iter.es, sequence, c);
      }
      FindNextUserEntry(true, savedKey);
      NextDone(iter.es, sequence, c, start, current);
    }

    // The last live entry before the one shown.
    method Prev()
      requires Ok() && valid
      modifies this, iter
      ensures Ok() && IsLastLive(iter.es, sequence, old(current.value), current)
    {
      hide Live, IsLastLive, JustBefore;
      ghost var c := current.value;
      if direction.Forward? {
        savedKey := iter.Current().key.user;
        var p := BackToKeyChange(c);
        if !iter.Valid() {
          NothingBefore(iter.es, sequence, c);
          valid, current, savedValue := false, None, "";
          savedKey := *;
          return;
        }
        direction := Reverse;
      } else {
        BlockBefore(iter.es, sequence, c, iter.pos);
      }
      ghost var from := if iter.pos.Some? then iter.pos.value + 1 else 0;
      FindPrevUserEntry(from);
      PrevDone(iter.es, sequence, c, from, current);
    }

    // FindPrevUserEntry: the last live entry up to here.
    method FindPrevUserEntry(ghost from: nat)
      requires iter.Ok() && direction.Reverse? && from <= |iter.es|
      requires iter.pos == if from == 0 then None else Some(from - 1)
      modifies this, iter
      ensures Ok() && IsLastLive(iter.es, sequence, from, current)
    {
      hide Live, IsLastLive, JustBefore, Gathered;
      var valueType := Deletion;
      ghost var c: nat := 0;
      StartGather(iter.es, sequence, from);
      if iter.Valid() {
        while true
          invariant iter.Ok() && iter.Valid() && direction.Reverse? && iter.pos.value < from
          invariant Gathered(iter.es, sequence, from, iter.pos.value, valueType, c)
          invariant valueType.Value? ==> c < |iter.es| && savedKey == iter.es[c].key.user && savedValue == iter.es[c].value
          decreases iter.pos.value
        {
          var e := iter.Current();
          ghost var p := iter.pos.value;
          if e.key.sn <= sequence && valueType.Value? && e.key.user < savedKey {
            // A visible entry of an earlier key: what was gathered is the entry to show.
            GatherEnd(iter.es, sequence, from, p, c);
            break;
          }
          GatherOn(iter.es, sequence, from, p, valueType, c);
          if e.key.sn <= sequence {
            valueType := e.key.kind;
            if valueType.Deletion? {
              savedKey := *;
              savedValue := "";
            } else {
              savedKey, savedValue, c := e.key.user, e.value, p;
            }
          }
          iter.Prev();
          if !iter.Valid() {
            GatherFront(iter.es, sequence, from, valueType, c);
            break;
          }
        }
      }
      if valueType.Deletion? {
        valid, current, savedValue, direction := false, None, "", Forward;
        savedKey := *;
      } else {
        valid, current := true, Some(c);
      }
    }

    // The loop of Prev that leaves the entries of the current key behind.
    method BackToKeyChange(ghost c: nat) returns (ghost p: nat)
      requires iter.Ok() && iter.pos == Some(c) && savedKey == iter.es[c].key.user && Live(iter.es, sequence, c)
      modifies iter
      ensures iter.Ok()
      ensures var from := if iter.pos.Some? then iter.pos.value + 1 else 0;
              from <= c && forall i: nat :: from <= i < c ==> !Live(iter.es, sequence, i)
    {
      hide Live;
      p := c;
      while true
        invariant iter.Ok() && iter.Valid() && iter.pos.value <= c && iter.es[iter.pos.value].key.user == savedKey
        decreases iter.pos.value
      {
        p := iter.pos.value;
        UsersInOrder(iter.es);
        iter.Prev();
        if !iter.Valid() || iter.Current().key.user < savedKey {
          break;
        }
      }
      NoneInBlock(iter.es, sequence, p, c);
    }

    // FindNextUserEntry: the first live entry from here on, past user key `skip` if asked to.
    method FindNextUserEntry(skipping: bool, skip: UserKey)
      requires iter.Ok() && iter.Valid() && direction.Forward?
      requires Passed(iter.es, sequence, iter.pos.value, skipping, skip)
      modifies this, iter
      ensures Ok() && direction.Forward?
      ensures IsFirstPast(iter.es, sequence, old(iter.pos.value), skipping, skip, current)
    {
      hide Live, Passed, IsFirstPast, Scanned;
      var skipping', skip' := skipping, skip;
      ghost var start := iter.pos.value;
      StartScan(iter.es, sequence, start, skipping, skip);
      while true
        invariant iter.Ok() && iter.Valid() && direction.Forward?
        invariant Scanned(iter.es, sequence, start, skipping, skip, iter.pos.value, skipping', skip')
        decreases |iter.es| - iter.pos.value
      {
        var e := iter.Current();
        ghost var p := iter.pos.value;
        if e.key.sn <= sequence && e.key.kind.Value? && !(skipping' && e.key.user <= skip') {
          Yield(iter.es, sequence, start, skipping, skip, p, skipping', skip');
          valid, current := true, iter.pos;
          savedKey := *;
          return;
        }
        ScanOn(iter.es, sequence, start, skipping, skip, p, skipping', skip');
        if e.key.sn <= sequence && e.key.kind.Deletion? {
          // Skip the entries this deletion hides.
          skip', skipping' := e.key.user, true;
        }
        iter.Next();
        if !iter.Valid() {
          break;
        }
      }
      ScanEnd(iter.es, sequence, start, skipping, skip, skipping', skip');
      savedKey := *;
      valid, current := false, None;
    }
  }

  // Everything from `start` up to p was looked at and is not to be shown.
  ghost predicate Scanned(es: seq<Entry>, s: nat, start: nat, skipping: bool, skip: UserKey,
                          p: nat, skipping': bool, skip': UserKey) {
    && start <= p && Passed(es, s, p, skipping', skip')
    && (skipping ==> skipping' && skip' >= skip)
    && (forall i: nat :: start <= i < p && Live(es, s, i) ==> skipping && es[i].key.user <= skip)
    && (forall i: nat :: p <= i && Live(es, s, i) && (skipping ==> es[i].key.user > skip) ==>
          (skipping' ==> es[i].key.user > skip'))
  }

  lemma StartScan(es: seq<Entry>, s: nat, p: nat, skipping: bool, skip: UserKey)
    requires Passed(es, s, p, skipping, skip)
    ensures Scanned(es, s, p, skipping, skip, p, skipping, skip)
  {
  }

  lemma Yield(es: seq<Entry>, s: nat, start: nat, skipping: bool, skip: UserKey, p: nat, skipping': bool, skip': UserKey)
    requires Scanned(es, s, start, skipping, skip, p, skipping', skip') && p < |es|
    requires es[p].key.sn <= s && es[p].key.kind.Value? && !(skipping' && es[p].key.user <= skip')
    ensures Live(es, s, p) && IsFirstPast(es, s, start, skipping, skip, Some(p))
  {
  }

  lemma ScanOn(es: seq<Entry>, s: nat, start: nat, skipping: bool, skip: UserKey, p: nat, skipping': bool, skip': UserKey)
    requires Sorted(es) && Scanned(es, s, start, skipping, skip, p, skipping', skip') && p < |es|
    requires es[p].key.sn <= s ==> es[p].key.kind.Deletion? || (skipping' && es[p].key.user <= skip')
    ensures if es[p].key.sn <= s && es[p].key.kind.Deletion?
            then Scanned(es, s, start, skipping, skip, p + 1, true, es[p].key.user)
            else Scanned(es, s, start, skipping, skip, p + 1, skipping', skip')
  {
    forall i | p < i < |es| ensures es[p].key.user <= es[i].key.user {
      assert Less(es[p].key, es[i].key);
    }
  }

  lemma ScanEnd(es: seq<Entry>, s: nat, start: nat, skipping: bool, skip: UserKey, skipping': bool, skip': UserKey)
    requires Scanned(es, s, start, skipping, skip, |es|, skipping', skip')
    ensures IsFirstPast(es, s, start, skipping, skip, None)
  {
  }

  lemma UsersInOrder(es: seq<Entry>)
    requires Sorted(es)
    ensures forall i, j :: 0 <= i <= j < |es| ==> es[i].key.user <= es[j].key.user
  {
    forall i, j | 0 <= i <= j < |es| ensures es[i].key.user <= es[j].key.user {
      assert i < j ==> Less(es[i].key, es[j].key);
    }
  }

  lemma NoneInBlock(es: seq<Entry>, s: nat, p: nat, c: nat)
    requires Sorted(es) && Live(es, s, c) && p <= c && es[p].key.user == es[c].key.user
    ensures forall i: nat :: p <= i < c ==> !Live(es, s, i)
  {
    UsersInOrder(es);
  }

  // ---- Seeking ----

  lemma SeekStart(es: seq<Entry>, s: nat, k: UserKey)
    requires Sorted(es)
    ensures var p := SeekIndex(es, SeekKey(k, s)); Passed(es, s, p, false, 0.0)
    ensures forall skip :: Passed(es, s, SeekIndex(es, SeekKey(k, s)), false, skip)
  {
    var p := SeekIndex(es, SeekKey(k, s));
    UsersInOrder(es);
    forall i, j | 0 <= j < p <= i < |es| && es[j].key.user == es[i].key.user ensures es[j].key.sn > s {
      SeekSplits(es[j].key, k, s);
      assert Less(es[j].key, SeekKey(k, s));
      assert !Less(es[p].key, SeekKey(k, s));
    }
  }

  lemma SeekDone(es: seq<Entry>, s: nat, k: UserKey, start: nat, skip: UserKey, r: Position)
    requires Sorted(es) && start == SeekIndex(es, SeekKey(k, s))
    requires if start == |es| then r == None else IsFirstPast(es, s, start, false, skip, r)
    ensures IsSeekLive(es, s, k, r)
  {
    UsersInOrder(es);
    forall i: nat | i < start && es[i].key.user >= k ensures !Live(es, s, i) {
      assert Less(es[i].key, SeekKey(k, s));
    }
    assert start < |es| ==> !Less(es[start].key, SeekKey(k, s));
  }

  // ---- Moving on ----

  // Coming from the reverse direction, the entry shown lies ahead, and nothing visible before it.
  lemma ForwardAgain(es: seq<Entry>, s: nat, pos: Position, c: nat, start: nat)
    requires Sorted(es) && Live(es, s, c) && JustBefore(es, s, es[c].key.user, pos)
    requires start == if pos.Some? then pos.value + 1 else 0
    ensures start <= c < |es| && Passed(es, s, start, true, es[c].key.user)
  {
    UsersInOrder(es);
  }

  lemma OnCurrent(es: seq<Entry>, s: nat, c: nat)
    requires Sorted(es) && Live(es, s, c)
    ensures Passed(es, s, c, true, es[c].key.user)
  {
    UsersInOrder(es);
  }

  lemma NextDone(es: seq<Entry>, s: nat, c: nat, start: nat, r: Position)
    requires Sorted(es) && Live(es, s, c) && start <= c && IsFirstPast(es, s, start, true, es[c].key.user, r)
    ensures IsFirstLive(es, s, c + 1, r)
  {
    UsersInOrder(es);
    forall i: nat | c < i && Live(es, s, i) ensures es[i].key.user > es[c].key.user {
      LiveOrder(es, s, c, i);
    }
  }

  // ---- Moving back ----

  lemma NothingBefore(es: seq<Entry>, s: nat, c: nat)
    requires forall i: nat :: 0 <= i < c ==> !Live(es, s, i)
    ensures IsLastLive(es, s, c, None)
  {
  }

  lemma BlockBefore(es: seq<Entry>, s: nat, c: nat, pos: Position)
    requires Sorted(es) && Live(es, s, c) && JustBefore(es, s, es[c].key.user, pos)
    ensures var from := if pos.Some? then pos.value + 1 else 0;
            from <= c && forall i: nat :: from <= i < c ==> !Live(es, s, i)
  {
    UsersInOrder(es);
  }

  lemma PrevDone(es: seq<Entry>, s: nat, c: nat, from: nat, r: Position)
    requires from <= c && (forall i: nat :: from <= i < c ==> !Live(es, s, i)) && IsLastLive(es, s, from, r)
    ensures IsLastLive(es, s, c, r)
  {
  }

  // Looking back from `from` to just behind q: the only entry that can be live is c, if the last
  // visible entry was a value, and then nothing visible lies between q and c.
  ghost predicate Gathered(es: seq<Entry>, s: nat, from: nat, q: int, valueType: ValueType, c: nat) {
    && -1 <= q && from <= |es|
    && (forall i: nat :: q < i < from && Live(es, s, i) ==> valueType.Value? && i == c)
    && (valueType.Value? ==>
          && q < c < from && es[c].key.sn <= s && es[c].key.kind.Value?
          && forall j :: q < j < c ==> es[j].key.sn > s)
  }

  lemma StartGather(es: seq<Entry>, s: nat, from: nat)
    requires from <= |es|
    ensures Gathered(es, s, from, from - 1, Deletion, 0)
    ensures from == 0 ==> IsLastLive(es, s, from, None)
  {
  }

  lemma GatherOn(es: seq<Entry>, s: nat, from: nat, p: nat, valueType: ValueType, c: nat)
    requires Sorted(es) && p < from && Gathered(es, s, from, p, valueType, c)
    requires !(es[p].key.sn <= s && valueType.Value? && es[p].key.user < es[c].key.user)
    ensures Gathered(es, s, from, p - 1, if es[p].key.sn <= s then es[p].key.kind else valueType,
                     if es[p].key.sn <= s && es[p].key.kind.Value? then p else c)
  {
    UsersInOrder(es);
  }

  // A visible entry of an earlier key was met.
  lemma GatherEnd(es: seq<Entry>, s: nat, from: nat, p: nat, c: nat)
    requires Sorted(es) && p < from && Gathered(es, s, from, p, Value, c) && es[p].key.user < es[c].key.user
    ensures Live(es, s, c) && IsLastLive(es, s, from, Some(c)) && JustBefore(es, s, es[c].key.user, Some(p))
  {
    UsersInOrder(es);
  }

  lemma GatherFront(es: seq<Entry>, s: nat, from: nat, valueType: ValueType, c: nat)
    requires Sorted(es) && Gathered(es, s, from, -1, valueType, c)
    ensures valueType.Deletion? ==> IsLastLive(es, s, from, None)
    ensures valueType.Value? ==> Live(es, s, c) && IsLastLive(es, s, from, Some(c)) && JustBefore(es, s, es[c].key.user, None)
  {
    UsersInOrder(es);
  }

  // iter stands before every entry of user key k, and after the last visible entry before them.
  ghost predicate JustBefore(es: seq<Entry>, s: nat, k: UserKey, pos: Position) {
    && (pos.Some? ==> pos.value < |es| && es[pos.value].key.user < k)
    && forall i :: (if pos.Some? then pos.value else -1) < i < |es| && es[i].key.user < k ==> es[i].key.sn > s
  }

  // What lies before position p does not show from p on, and from p on nothing visible lies
  // before the key to skip.
  ghost predicate Passed(es: seq<Entry>, s: nat, p: nat, skipping: bool, skip: UserKey) {
    && (forall i, j :: 0 <= j < p <= i < |es| && es[j].key.user == es[i].key.user && (skipping ==> es[i].key.user > skip) ==>
          es[j].key.sn > s)
    && (skipping ==> forall i :: p <= i < |es| && es[i].key.sn <= s ==> es[i].key.user >= skip)
  }

  ghost predicate IsFirstPast(es: seq<Entry>, s: nat, p: nat, skipping: bool, skip: UserKey, r: Position) {
    match r
    case None => forall i: nat :: p <= i && Live(es, s, i) ==> skipping && es[i].key.user <= skip
    case Some(c) => p <= c && Live(es, s, c) && (skipping ==> es[c].key.user > skip) &&
                    forall i: nat :: p <= i < c && Live(es, s, i) ==> skipping && es[i].key.user <= skip
  }
}
