/**
  The reference the LSM engine is measured against: a map that remembers every operation.
  Operation i (counting from 0) carries sequence number i + 1.
 */
module VersionedMap {
  import opened Wrappers
  import opened Keys

  datatype Op = Put(key: UserKey, value: string) | Delete(key: UserKey)

  // The plain map after the first n operations.
  function MapAfter(ops: seq<Op>, n: nat): map<UserKey, string>
    requires n <= |ops|
  {
    if n == 0 then map[]
    else match ops[n - 1]
      case Put(k, v) => MapAfter(ops, n - 1)[k := v]
      case Delete(k) => MapAfter(ops, n - 1) - {k}
  }

  function Lookup(m: map<UserKey, string>, k: UserKey): Option<string> {
    if k in m then Some(m[k]) else None
  }

  // The entry MemTableInserter adds for an operation.
  function EntryOf(op: Op, sn: nat): Entry {
    match op
    case Put(k, v) => Entry(InternalKey(k, sn, Value), v)
    case Delete(k) => Entry(InternalKey(k, sn, Deletion), "")
  }

  ghost predicate InHistory(ops: seq<Op>, e: Entry) {
    1 <= e.key.sn <= |ops| && e == EntryOf(ops[e.key.sn - 1], e.key.sn)
  }

  ghost function History(ops: seq<Op>): iset<Entry> {
    iset e | InHistory(ops, e)
  }

  ghost predicate Visible(e: Entry, k: UserKey, s: nat) {
    e.key.user == k && e.key.sn <= s
  }

  ghost predicate IsNewest(E: iset<Entry>, k: UserKey, s: nat, e: Entry) {
    && e in E
    && Visible(e, k, s)
    && forall x :: x in E && Visible(x, k, s) ==> x.key.sn <= e.key.sn
  }

  // What a reader of key k at sequence number s sees in a set of entries.
  ghost function View(E: iset<Entry>, k: UserKey, s: nat): Option<string> {
    if e :| IsNewest(E, k, s, e) && e.key.kind.Value? then Some(e.value) else None
  }

  // A (user key, sequence number) pair names at most one entry.
  ghost predicate Distinct(E: iset<Entry>) {
    forall x, y :: x in E && y in E && x.key.user == y.key.user && x.key.sn == y.key.sn ==> x == y
  }

  lemma ViewOfNewest(E: iset<Entry>, k: UserKey, s: nat, e: Entry)
    requires Distinct(E) && IsNewest(E, k, s, e)
    ensures View(E, k, s) == if e.key.kind.Value? then Some(e.value) else None
  {
    forall x | IsNewest(E, k, s, x) ensures x == e {
      assert x in E && e in E;
    }
  }

  lemma HistoryDistinct(ops: seq<Op>)
    ensures Distinct(History(ops))
    ensures forall e :: e in History(ops) ==> 1 <= e.key.sn <= |ops|
  {
  }

  // The outcome of probing one or more places (SaverState, MemTable::Get).
  datatype Outcome = Missing | Deleted | Found(value: string)

  function Answer(o: Outcome): Option<string> {
    match o
    case Found(v) => Some(v)
    case _ => None
  }

  ghost predicate Resolves(E: iset<Entry>, k: UserKey, s: nat, o: Outcome) {
    match o
    case Missing => forall e :: e in E ==> !Visible(e, k, s)
    case Deleted => exists e :: IsNewest(E, k, s, e) && e.key.kind.Deletion?
    case Found(v) => exists e :: IsNewest(E, k, s, e) && e.key.kind.Value? && e.value == v
  }

  lemma ResolvesView(E: iset<Entry>, k: UserKey, s: nat, o: Outcome)
    requires Distinct(E) && Resolves(E, k, s, o)
    ensures View(E, k, s) == Answer(o)
  {
    match o
    case Missing =>
    case Deleted =>
      var e :| IsNewest(E, k, s, e) && e.key.kind.Deletion?;
      ViewOfNewest(E, k, s, e);
    case Found(v) =>
      var e :| IsNewest(E, k, s, e) && e.key.kind.Value? && e.value == v;
      ViewOfNewest(E, k, s, e);
  }

  // Reading the full history at sequence number s is reading the plain map after s operations.
  lemma {:induction false} HistoryResolves(ops: seq<Op>, k: UserKey, s: nat) returns (o: Outcome)
    requires s <= |ops|
    ensures Resolves(History(ops), k, s, o)
    ensures Answer(o) == Lookup(MapAfter(ops, s), k)
  {
    if s == 0 {
      o := Missing;
    } else {
      var e := EntryOf(ops[s - 1], s);
      assert InHistory(ops, e);
      if e.key.user == k {
        hide InHistory;
        assert IsNewest(History(ops), k, s, e);
        o := if e.key.kind.Value? then Found(e.value) else Deleted;
      } else {
        o := HistoryResolves(ops, k, s - 1);
        OneMoreOperation(ops, k, s, o);
      }
    }
  }

  // An operation on another key changes nothing for k.
  lemma OneMoreOperation(ops: seq<Op>, k: UserKey, s: nat, o: Outcome)
    requires 0 < s <= |ops| && EntryOf(ops[s - 1], s).key.user != k
    requires Resolves(History(ops), k, s - 1, o)
    ensures Resolves(History(ops), k, s, o)
  {
    forall x | x in History(ops) ensures Visible(x, k, s) <==> Visible(x, k, s - 1) {
    }
    hide InHistory;
    assert forall x :: IsNewest(History(ops), k, s - 1, x) ==> IsNewest(History(ops), k, s, x);
  }

  lemma HistoryIsMap(ops: seq<Op>, k: UserKey, s: nat)
    requires s <= |ops|
    ensures View(History(ops), k, s) == Lookup(MapAfter(ops, s), k)
  {
    hide InHistory, MapAfter;
    var o := HistoryResolves(ops, k, s);
    HistoryDistinct(ops);
    ResolvesView(History(ops), k, s, o);
  }

  ghost predicate NewerThan(A: iset<Entry>, B: iset<Entry>) {
    forall a, b :: a in A && b in B && a.key.user == b.key.user ==> a.key.sn > b.key.sn
  }

  // Searching the newer place first is enough: the older place matters only when it misses.
  lemma SearchNewerFirst(A: iset<Entry>, B: iset<Entry>, k: UserKey, s: nat, a: Outcome, b: Outcome)
    requires NewerThan(A, B)
    requires Resolves(A, k, s, a)
    requires a.Missing? ==> Resolves(B, k, s, b)
    ensures Resolves(A + B, k, s, if a.Missing? then b else a)
  {
    if !a.Missing? {
      var e :| IsNewest(A, k, s, e);
      assert IsNewest(A + B, k, s, e);
      assert forall e :: IsNewest(A, k, s, e) ==> IsNewest(A + B, k, s, e);
    } else {
      assert forall e :: IsNewest(B, k, s, e) ==> IsNewest(A + B, k, s, e);
    }
  }

  lemma NewestExists(E: iset<Entry>, k: UserKey, s: nat, x: Entry) returns (e: Entry)
    requires x in E && Visible(x, k, s)
    ensures IsNewest(E, k, s, e)
    decreases s - x.key.sn
  {
    if y :| y in E && Visible(y, k, s) && y.key.sn > x.key.sn {
      e := NewestExists(E, k, s, y);
    } else {
      e := x;
    }
  }

  lemma NothingVisibleView(E: iset<Entry>, k: UserKey, s: nat)
    requires forall x :: x in E ==> !Visible(x, k, s)
    ensures View(E, k, s) == None
  {
  }

  // Two sets with the same newest entry read the same.
  lemma SameNewestSameView(E: iset<Entry>, F: iset<Entry>, k: UserKey, s: nat)
    requires Distinct(E) && Distinct(F)
    requires forall e :: IsNewest(E, k, s, e) <==> IsNewest(F, k, s, e)
    ensures View(E, k, s) == View(F, k, s)
  {
    if e :| IsNewest(E, k, s, e) {
      ViewOfNewest(E, k, s, e);
      ViewOfNewest(F, k, s, e);
    }
  }

  // Entries newer than everything in either set do not tell the two sets apart.
  lemma NewerEntriesAgree(A: iset<Entry>, H: iset<Entry>, N: iset<Entry>, k: UserKey, s: nat)
    requires View(A, k, s) == View(H, k, s)
    requires Distinct(A + N) && Distinct(H + N)
    requires NewerThan(N, A) && NewerThan(N, H)
    ensures View(A + N, k, s) == View(H + N, k, s)
  {
    if x :| x in N && Visible(x, k, s) {
      var e := NewestExists(N, k, s, x);
      assert IsNewest(A + N, k, s, e) && IsNewest(H + N, k, s, e);
      ViewOfNewest(A + N, k, s, e);
      ViewOfNewest(H + N, k, s, e);
    } else {
      SameNewestSameView(A, A + N, k, s);
      SameNewestSameView(H, H + N, k, s);
    }
  }

  // Taking entries away keeps a view if the newest visible entry stays, or is a deletion
  // marker with nothing visible left behind it.
  lemma DroppedEntriesView(E: iset<Entry>, F: iset<Entry>, k: UserKey, s: nat)
    requires Distinct(E) && F <= E
    requires forall e :: IsNewest(E, k, s, e) && e !in F ==>
               e.key.kind.Deletion? && forall x :: x in F ==> !Visible(x, k, s)
    ensures View(E, k, s) == View(F, k, s)
  {
    if x :| x in E && Visible(x, k, s) {
      var e := NewestExists(E, k, s, x);
      ViewOfNewest(E, k, s, e);
      if e in F {
        assert IsNewest(F, k, s, e);
        ViewOfNewest(F, k, s, e);
      } else {
        NothingVisibleView(F, k, s);
      }
    } else {
      NothingVisibleView(E, k, s);
      NothingVisibleView(F, k, s);
    }
  }
}
