/**
  Internal keys and their order (db/dbformat.h, db/dbformat.cc).

  LevelDB reaches user keys only through a Comparator.  User keys are byte strings, so there
  are countably many of them, and every countable total order embeds in the rationals: `real`
  stands for the keys of an arbitrary comparator.
 */
module Keys {
  // kMaxSequenceNumber: 56 bits of sequence number are packed with 8 bits of value type.
  const MAX_SEQUENCE: nat := 0xff_ffff_ffff_ffff

  type UserKey = real

  datatype ValueType = Deletion | Value

  // `sn` is the sequence number.
  datatype InternalKey = InternalKey(user: UserKey, sn: nat, kind: ValueType)

  // PackSequenceAndType
  function Tag(a: InternalKey): nat {
    a.sn * 256 + if a.kind.Value? then 1 else 0
  }

  datatype Entry = Entry(key: InternalKey, value: string)

  // InternalKeyComparator::Compare(a, b) < 0: increasing user key, then decreasing sequence
  // number, then decreasing type.
  predicate Less(a: InternalKey, b: InternalKey) {
    a.user < b.user ||
    (a.user == b.user && (a.sn > b.sn || (a.sn == b.sn && a.kind.Value? && b.kind.Deletion?)))
  }

  predicate AtMost(a: InternalKey, b: InternalKey) {
    a == b || Less(a, b)
  }

  // The key a lookup of user key k at sequence number s seeks to (LookupKey, kValueTypeForSeek).
  function SeekKey(k: UserKey, s: nat): InternalKey {
    InternalKey(k, s, Value)
  }

  ghost predicate Sorted(es: seq<Entry>) {
    forall i, j :: 0 <= i < j < |es| ==> Less(es[i].key, es[j].key)
  }

  // The code compares the packed 64-bit tags; that is the order above, and no two
  // (sequence number, type) pairs share a tag.
  lemma PackedTagOrder(a: InternalKey, b: InternalKey)
    ensures Less(a, b) <==> a.user < b.user || (a.user == b.user && Tag(a) > Tag(b))
    ensures a.user == b.user && Tag(a) == Tag(b) ==> a == b
  {
  }

  // The internal key order is a strict total order.
  lemma LessIsTotalOrder(a: InternalKey, b: InternalKey, c: InternalKey)
    ensures !Less(a, a)
    ensures Less(a, b) && Less(b, c) ==> Less(a, c)
    ensures Less(a, b) || Less(b, a) || a == b
    ensures !(Less(a, b) && Less(b, a))
  {
  }

  // A seek to (k, s) stops in front of exactly the entries of k visible at s, and no
  // entry of a smaller user key.
  lemma SeekSplits(x: InternalKey, k: UserKey, s: nat)
    ensures !Less(x, SeekKey(k, s)) <==> x.user > k || (x.user == k && x.sn <= s)
  {
  }
}
