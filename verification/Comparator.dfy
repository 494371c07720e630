/**
  The bytewise comparator (util/comparator.cc) and the comparator on encoded internal keys
  (db/dbformat.cc), with the separators they give to index entries.
 */
module Comparator {
  import opened Wrappers
  import opened Bytes
  import opened BlockFormat

  // ---- BytewiseComparator ----

  // Slice::compare < 0
  predicate LexLess(a: Key, b: Key) {
    b != [] && (a == [] || a[0] < b[0] || (a[0] == b[0] && LexLess(a[1..], b[1..])))
  }

  lemma {:induction false} LexIrreflexive(a: Key)
    ensures !LexLess(a, a)
  {
    if a != [] {
      LexIrreflexive(a[1..]);
    }
  }

  lemma {:induction false} LexTransitive(a: Key, b: Key, c: Key)
    requires LexLess(a, b) && LexLess(b, c)
    ensures LexLess(a, c)
  {
    if a != [] && a[0] == b[0] == c[0] {
      LexTransitive(a[1..], b[1..], c[1..]);
    }
  }

  lemma {:induction false} LexTotal(a: Key, b: Key)
    ensures LexLess(a, b) || a == b || LexLess(b, a)
  {
    if a != [] && b != [] && a[0] == b[0] {
      LexTotal(a[1..], b[1..]);
      assert a == [a[0]] + a[1..] && b == [b[0]] + b[1..];
    }
  }

  // The first difference decides.
  lemma {:induction false} LexAt(a: Key, b: Key, n: nat)
    requires n < |a| && n < |b| && a[..n] == b[..n] && a[n] < b[n]
    ensures LexLess(a, b)
  {
    if n > 0 {
      assert a[0] == a[..n][0] == b[..n][0] == b[0];
      assert a[1..][..n - 1] == a[..n][1..] && b[1..][..n - 1] == b[..n][1..];
      LexAt(a[1..], b[1..], n - 1);
    }
  }

  // The keys part at d, and the byte of the lower one can be raised without reaching that of the upper one.
  ghost predicate RaisedBetween(start: Key, limit: Key, d: nat) {
    d < |start| && d < |limit| && start[..d] == limit[..d] && start[d] as nat + 1 < limit[d] as nat
  }

  ghost predicate IsShortestSeparator(start: Key, limit: Key, r: Key) {
    && (forall d: nat :: RaisedBetween(start, limit, d) ==> r == start[..d] + [start[d] + 1])
    && ((forall d: nat :: !RaisedBetween(start, limit, d)) ==> r == start)
  }

  // FindShortestSeparator: cut behind the first difference wherever the byte there can be raised; a changed result
  // lies strictly between.
  method FindShortestSeparator(start: Key, limit: Key) returns (r: Key)
    ensures IsShortestSeparator(start, limit, r)
    ensures r == start || (|r| <= |start| && LexLess(start, r) && LexLess(r, limit))
  {
    var minLength := if |start| < |limit| then |start| else |limit|;
    var diff := 0;
    while diff < minLength && start[diff] == limit[diff]
      invariant diff <= minLength && start[..diff] == limit[..diff]
    {
      diff := diff + 1;
    }
    r := start;
    forall d: nat | RaisedBetween(start, limit, d) ensures d == diff {
      PartsOnce(start, limit, d, diff);
    }
    if diff >= minLength {
      // One is a prefix of the other: do not shorten.
      return;
    }
    var b := start[diff];
    if b < 0xff && b + 1 < limit[diff] {
      r := start[..diff] + [b + 1];
      assert r[..diff] == start[..diff] && RaisedBetween(start, limit, diff);
      LexAt(start, r, diff);
      LexAt(r, limit, diff);
    }
  }

  // There is one first difference.
  lemma PartsOnce(a: Key, b: Key, d: nat, e: nat)
    requires d < |a| && d < |b| && a[..d] == b[..d] && a[d] != b[d]
    requires e <= |a| && e <= |b| && a[..e] == b[..e] && (e < |a| && e < |b| ==> a[e] != b[e])
    ensures d == e
  {
    Agree(a, b, d);
    Agree(a, b, e);
  }

  lemma Agree(a: Key, b: Key, n: nat)
    requires n <= |a| && n <= |b| && a[..n] == b[..n]
    ensures forall i :: 0 <= i < n ==> a[i] == b[i]
  {
    forall i | 0 <= i < n ensures a[i] == b[i] {
      assert a[..n][i] == b[..n][i];
    }
  }

  // The byte at d can be raised, and none before it.
  ghost predicate RaisedFirst(key: Key, d: nat) {
    d < |key| && key[d] != 255 && forall i :: 0 <= i < d ==> key[i] == 255
  }

  ghost predicate IsShortSuccessor(key: Key, r: Key) {
    && (forall d: nat :: RaisedFirst(key, d) ==> r == key[..d] + [key[d] + 1])
    && ((forall d: nat :: !RaisedFirst(key, d)) ==> r == key)
  }

  // FindShortSuccessor: cut behind the first byte that can be raised; a changed result is larger.
  method FindShortSuccessor(key: Key) returns (r: Key)
    ensures IsShortSuccessor(key, r)
    ensures r == key || (|r| <= |key| && LexLess(key, r))
  {
    for i := 0 to |key|
      invariant forall j :: 0 <= j < i ==> key[j] == 255
    {
      if key[i] != 0xff {
        r := key[..i] + [key[i] + 1];
        assert r[..i] == key[..i] && RaisedFirst(key, i);
        LexAt(key, r, i);
        return;
      }
    }
    // A run of 0xff is left alone.
    r := key;
  }

  // ---- InternalKeyComparator ----

  const TAG_SIZE: nat := 8
  // PackSequenceAndType(kMaxSequenceNumber, kValueTypeForSeek)
  const MAX_TAG: nat := 0xffff_ffff_ffff_ff01

  function ExtractUserKey(k: Key): Key
    requires |k| >= TAG_SIZE
  {
    k[..|k| - TAG_SIZE]
  }

  function Tag(k: Key): nat
    requires |k| >= TAG_SIZE
  {
    FromLittleEndian(k[|k| - TAG_SIZE..])
  }

  function InternalKeyBytes(user: Key, tag: nat): (k: Key)
    ensures |k| == |user| + TAG_SIZE
  {
    user + LittleEndian(tag, TAG_SIZE)
  }

  lemma InternalKeyParts(user: Key, tag: nat)
    requires tag < U64
    ensures ExtractUserKey(InternalKeyBytes(user, tag)) == user && Tag(InternalKeyBytes(user, tag)) == tag
  {
    WordSizes();
    LittleEndianRoundTrip(tag, TAG_SIZE);
    assert InternalKeyBytes(user, tag)[|user|..] == LittleEndian(tag, TAG_SIZE);
  }

  lemma SamePartsSameKey(a: Key, b: Key)
    requires |a| >= TAG_SIZE && |b| >= TAG_SIZE && ExtractUserKey(a) == ExtractUserKey(b) && Tag(a) == Tag(b)
    ensures a == b
  {
    hide LittleEndian, FromLittleEndian;
    LittleEndianOfBytes(a[|a| - TAG_SIZE..]);
    LittleEndianOfBytes(b[|b| - TAG_SIZE..]);
    assert a == ExtractUserKey(a) + a[|a| - TAG_SIZE..] && b == ExtractUserKey(b) + b[|b| - TAG_SIZE..];
  }

  // Compare(a, b) < 0.  Strings too short for a tag are no internal keys; they come first.
  predicate InternalLess(a: Key, b: Key) {
    if |a| < TAG_SIZE || |b| < TAG_SIZE then |a| < TAG_SIZE && (|b| >= TAG_SIZE || LexLess(a, b))
    else LexLess(ExtractUserKey(a), ExtractUserKey(b)) || (ExtractUserKey(a) == ExtractUserKey(b) && Tag(a) > Tag(b))
  }

  lemma InternalIsOrder()
    ensures TotalOrder(InternalLess)
  {
    hide LexLess, Tag, ExtractUserKey;
    forall a ensures !InternalLess(a, a) {
      InternalIrreflexive(a);
    }
    forall a, b, c | InternalLess(a, b) && InternalLess(b, c) ensures InternalLess(a, c) {
      InternalTransitive(a, b, c);
    }
    forall a, b ensures InternalLess(a, b) || a == b || InternalLess(b, a) {
      InternalTotal(a, b);
    }
    hide InternalLess;
  }

  lemma InternalIrreflexive(a: Key)
    ensures !InternalLess(a, a)
  {
    LexIrreflexive(a);
    if |a| >= TAG_SIZE {
      LexIrreflexive(ExtractUserKey(a));
    }
  }

  lemma InternalTransitive(a: Key, b: Key, c: Key)
    requires InternalLess(a, b) && InternalLess(b, c)
    ensures InternalLess(a, c)
  {
    hide LexLess;
    if |a| < TAG_SIZE {
      if |b| < TAG_SIZE && |c| < TAG_SIZE {
        LexTransitive(a, b, c);
      }
    } else {
      var x, y, z := ExtractUserKey(a), ExtractUserKey(b), ExtractUserKey(c);
      if LexLess(x, y) && LexLess(y, z) {
        LexTransitive(x, y, z);
      }
    }
  }

  lemma InternalTotal(a: Key, b: Key)
    ensures InternalLess(a, b) || a == b || InternalLess(b, a)
  {
    hide LexLess;
    if |a| < TAG_SIZE && |b| < TAG_SIZE {
      LexTotal(a, b);
    } else if |a| >= TAG_SIZE && |b| >= TAG_SIZE {
      LexTotal(ExtractUserKey(a), ExtractUserKey(b));
      if ExtractUserKey(a) == ExtractUserKey(b) && Tag(a) == Tag(b) {
        SamePartsSameKey(a, b);
      }
    }
  }

  // InternalKeyComparator::FindShortestSeparator: a changed result has a user key strictly
  // between, and the smallest internal key of that user key.
  method FindInternalSeparator(start: Key, limit: Key) returns (r: Key)
    requires |start| >= TAG_SIZE && |limit| >= TAG_SIZE
    ensures |r| >= TAG_SIZE && IsSeparator(start, r) && (r == start || LexLess(ExtractUserKey(r), ExtractUserKey(limit)))
    ensures IsInternalSeparator(start, limit, r)
  {
    var userStart := ExtractUserKey(start);
    var tmp := FindShortestSeparator(userStart, ExtractUserKey(limit));
    r := start;
    if |tmp| < |userStart| && LexLess(userStart, tmp) {
      InternalKeyParts(tmp, MAX_TAG);
      r := InternalKeyBytes(tmp, MAX_TAG);
    }
  }

  // InternalKeyComparator::FindShortSuccessor
  method FindInternalSuccessor(key: Key) returns (r: Key)
    requires |key| >= TAG_SIZE
    ensures |r| >= TAG_SIZE && IsSeparator(key, r)
    ensures IsInternalSuccessor(key, r)
  {
    var userKey := ExtractUserKey(key);
    var tmp := FindShortSuccessor(userKey);
    r := key;
    if |tmp| < |userKey| && LexLess(userKey, tmp) {
      InternalKeyParts(tmp, MAX_TAG);
      r := InternalKeyBytes(tmp, MAX_TAG);
    }
  }

  ghost predicate IsInternalSeparator(start: Key, limit: Key, r: Key)
    requires |start| >= TAG_SIZE && |limit| >= TAG_SIZE
  {
    exists user :: IsShortestSeparator(ExtractUserKey(start), ExtractUserKey(limit), user) && r == Shortened(start, user)
  }

  ghost predicate IsInternalSuccessor(key: Key, r: Key)
    requires |key| >= TAG_SIZE
  {
    exists user :: IsShortSuccessor(ExtractUserKey(key), user) && r == Shortened(key, user)
  }

  // The first internal key of a user key, when that is shorter than the one of k.
  ghost function Shortened(k: Key, user: Key): Key
    requires |k| >= TAG_SIZE
  {
    if |user| < |k| - TAG_SIZE then InternalKeyBytes(user, 0xffff_ffff_ffff_ff01) else k
  }

  // No key of the same user key, whatever its sequence number of 56 bits and its type 0 or 1, is before it.
  lemma SeparatorIsFirst(r: Key, k: Key)
    requires |r| >= TAG_SIZE && |k| >= TAG_SIZE && ExtractUserKey(k) == ExtractUserKey(r)
    requires Tag(r) == MAX_TAG && Tag(k) / 256 <= 0xff_ffff_ffff_ffff && Tag(k) % 256 <= 1
    ensures !InternalLess(k, r)
  {
    hide LexLess, Tag;
    LexIrreflexive(ExtractUserKey(k));
  }

  // r stands for `last` in the index: it is `last`, or the smallest internal key of a larger user key.
  ghost predicate IsSeparator(last: Key, r: Key)
    requires |last| >= TAG_SIZE && |r| >= TAG_SIZE
  {
    r == last || (LexLess(ExtractUserKey(last), ExtractUserKey(r)) && Tag(r) == MAX_TAG)
  }

  // The separator is not before the last key of its block, and before the first key of the next.
  lemma SeparatorIsAfter(last: Key, r: Key)
    requires |last| >= TAG_SIZE && |r| >= TAG_SIZE && IsSeparator(last, r)
    ensures r == last || InternalLess(last, r)
  {
  }

  lemma SeparatorIsBefore(last: Key, r: Key, next: Key)
    requires |last| >= TAG_SIZE && |r| >= TAG_SIZE && |next| >= TAG_SIZE && InternalLess(last, next)
    requires r == last || LexLess(ExtractUserKey(r), ExtractUserKey(next))
    ensures InternalLess(r, next)
  {
  }
}
