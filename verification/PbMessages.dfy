/**
  What the decoder makes of any sequence of records: which messages are refused for a missing field, unknown
  fields, arrays that are not packed, and messages in several parts.
 */
module PbMessages {
  import opened Wrappers
  import opened Bytes
  import opened PbWire
  import opened PbFields
  import opened PbEncode
  import opened PbDecode
  import opened PbFormat
  import opened PbReading
  import opened PbRoundTrip

  // ---- The records a message is decoded from ----

  // The slots at the end, the tags of all records, and whether a zero ended the message.
  datatype Walked = Walked(slots: seq<Slot>, tags: seq<nat>, stopped: bool)

  // The records one after the other, without any account of what is missing.
  ghost function Walk(fields: seq<Field>, slots: seq<Slot>, bs: seq<byte>): (w: Parsed<Walked>)
    requires ValidFields(fields) && Shaped(fields, slots)
    ensures w.Parsed? ==> Shaped(fields, w.value.slots)
    decreases |bs|
  {
    if bs == [] then Parsed(Walked(slots, [], false), [])
    else
      var key := DecodeVarint32(bs);
      if key.Fail? then Fail
      else if key.value == 0 then Parsed(Walked(slots, [], true), key.rest)
      else
        var tag := key.value / 8;
        var p := OneRecord(fields, slots, tag, key.value % 8, key.rest);
        if p.Fail? then Fail else WithTag(tag, Walk(fields, p.value, p.rest))
  }

  ghost function WithTag(tag: nat, w: Parsed<Walked>): Parsed<Walked> {
    if w.Fail? then Fail else Parsed(w.value.(tags := [tag] + w.value.tags), w.rest)
  }

  // A record sets the field with its tag, or is passed over.
  ghost function OneRecord(fields: seq<Field>, slots: seq<Slot>, tag: nat, wireType: nat, bs: seq<byte>): (p: Parsed<seq<Slot>>)
    requires ValidFields(fields) && Shaped(fields, slots)
    ensures p.Parsed? ==> |p.rest| <= |bs| && Shaped(fields, p.value)
  {
    if n :| HasTag(fields, n, tag) then DecodeField(fields, slots, n, wireType, bs)
    else
      var p := SkipField(wireType, bs);
      if p.Fail? then Fail else Parsed(slots, p.rest)
  }

  lemma KnownRecord(fields: seq<Field>, slots: seq<Slot>, n: nat, wireType: nat, bs: seq<byte>)
    requires ValidFields(fields) && Shaped(fields, slots) && n < |fields|
    ensures OneRecord(fields, slots, fields[n].tag, wireType, bs) == DecodeField(fields, slots, n, wireType, bs)
  {
    OnlyField(fields, n);
    hide HasTag, DecodeField, SkipField, ValidFields, Shaped;
    assert HasTag(fields, n, fields[n].tag);
  }

  // ---- Required fields ----

  // The marks the loop sets for these tags.
  ghost function Marks(fields: seq<Field>, seen: set<nat>, tags: seq<nat>): set<nat>
    decreases |tags|
  {
    if tags == [] then seen
    else Marks(fields, if n :| HasTag(fields, n, tags[0]) then Mark(fields, seen, n) else seen, tags[1..])
  }

  lemma {:induction false} WalkIs(fields: seq<Field>, slots: seq<Slot>, seen: set<nat>, bs: seq<byte>)
    requires ValidFields(fields) && Shaped(fields, slots)
    ensures DecodeFrom(fields, slots, seen, bs) ==
              var w := Walk(fields, slots, bs);
              if w.Fail? then Fail else Parsed((w.value.slots, Marks(fields, seen, w.value.tags)), w.rest)
    decreases |bs|
  {
    hide DecodeField, SkipField, DecodeVarint32, Shaped, ValidFields, HasTag, Mark, Marks;
    NoMarks(fields, seen);
    var key := DecodeVarint32(bs);
    if bs != [] && key.Parsed? && key.value != 0 {
      var tag := key.value / 8;
      if n :| HasTag(fields, n, tag) {
        IsField(fields, n, tag);
        KnownRecord(fields, slots, n, key.value % 8, key.rest);
        var p := DecodeField(fields, slots, n, key.value % 8, key.rest);
        if p.Parsed? {
          WalkIs(fields, p.value, Mark(fields, seen, n), p.rest);
          MarksKnown(fields, seen, n, tag, Walk(fields, p.value, p.rest));
        }
      } else {
        var p := SkipField(key.value % 8, key.rest);
        if p.Parsed? {
          WalkIs(fields, slots, seen, p.rest);
          MarksUnknown(fields, seen, tag, Walk(fields, slots, p.rest));
        }
      }
    }
  }

  lemma NoMarks(fields: seq<Field>, seen: set<nat>)
    ensures Marks(fields, seen, []) == seen
  {
  }

  lemma MarksKnown(fields: seq<Field>, seen: set<nat>, n: nat, tag: nat, w: Parsed<Walked>)
    requires n < |fields| && HasTag(fields, n, tag) && forall k :: HasTag(fields, k, tag) <==> k == n
    ensures w.Parsed? ==> Marks(fields, seen, WithTag(tag, w).value.tags) == Marks(fields, Mark(fields, seen, n), w.value.tags)
  {
    hide HasTag, Mark;
    if w.Parsed? {
      var tags := [tag] + w.value.tags;
      assert tags[0] == tag && tags[1..] == w.value.tags;
    }
  }

  lemma MarksUnknown(fields: seq<Field>, seen: set<nat>, tag: nat, w: Parsed<Walked>)
    requires forall k :: !HasTag(fields, k, tag)
    ensures w.Parsed? ==> Marks(fields, seen, WithTag(tag, w).value.tags) == Marks(fields, seen, w.value.tags)
  {
    hide HasTag, Mark;
    if w.Parsed? {
      var tags := [tag] + w.value.tags;
      assert tags[0] == tag && tags[1..] == w.value.tags;
    }
  }

  lemma IsField(fields: seq<Field>, n: nat, tag: nat)
    requires ValidFields(fields) && HasTag(fields, n, tag)
    ensures n < |fields| && fields[n].tag == tag
    ensures forall k :: HasTag(fields, k, tag) <==> k == n
  {
    OnlyField(fields, n);
    hide ValidFields;
  }

  function RequiredBefore(fields: seq<Field>, n: nat): set<nat>
    requires n <= |fields|
  {
    set i: nat | i < n && fields[i].rule == Required
  }

  // Field n is required, and one of the first 64 that are.
  ghost predicate Demanded(fields: seq<Field>, n: nat) {
    n < |fields| && fields[n].rule == Required && |RequiredBefore(fields, n)| < 64
  }

  lemma {:induction false} RankIs(fields: seq<Field>, n: nat)
    requires n <= |fields|
    ensures CountRequired(fields, n) == |RequiredBefore(fields, n)|
  {
    if n == 0 {
      assert RequiredBefore(fields, n) == {};
    } else {
      RankIs(fields, n - 1);
      OneMoreRequired(fields, n - 1);
    }
  }

  lemma OneMoreRequired(fields: seq<Field>, n: nat)
    requires n < |fields|
    ensures |RequiredBefore(fields, n + 1)| ==
              |RequiredBefore(fields, n)| + if fields[n].rule == Required then 1 else 0
  {
    var before, all := RequiredBefore(fields, n), RequiredBefore(fields, n + 1);
    if fields[n].rule == Required {
      assert all == before + {n};
    } else {
      assert all == before;
    }
  }

  // The mark r is that of some field with its tag among these.
  ghost predicate MarkedBy(fields: seq<Field>, tags: seq<nat>, r: nat) {
    exists n :: 0 <= n < |fields| && fields[n].rule == Required && CountRequired(fields, n) == r && r < 64 && fields[n].tag in tags
  }

  lemma {:induction false} MarksIff(fields: seq<Field>, seen: set<nat>, tags: seq<nat>, r: nat)
    requires ValidFields(fields)
    ensures r in Marks(fields, seen, tags) <==> r in seen || MarkedBy(fields, tags, r)
    decreases |tags|
  {
    hide ValidFields, HasTag, CountRequired;
    if tags != [] {
      var tag := tags[0];
      if n :| HasTag(fields, n, tag) {
        IsField(fields, n, tag);
        MarksIff(fields, Mark(fields, seen, n), tags[1..], r);
        MoreTags(fields, tags, r, n);
      } else {
        MarksIff(fields, seen, tags[1..], r);
        UnknownTag(fields, tags, r);
      }
    }
  }

  lemma MoreTags(fields: seq<Field>, tags: seq<nat>, r: nat, n: nat)
    requires tags != [] && n < |fields| && fields[n].tag == tags[0] && forall k :: HasTag(fields, k, tags[0]) <==> k == n
    ensures MarkedBy(fields, tags, r) <==>
              MarkedBy(fields, tags[1..], r) || (fields[n].rule == Required && CountRequired(fields, n) == r && r < 64)
  {
    hide CountRequired;
    forall k | 0 <= k < |fields| ensures fields[k].tag in tags <==> k == n || fields[k].tag in tags[1..] {
      assert HasTag(fields, k, tags[0]) <==> k == n;
      assert tags == [tags[0]] + tags[1..];
    }
  }

  lemma UnknownTag(fields: seq<Field>, tags: seq<nat>, r: nat)
    requires tags != [] && forall k :: !HasTag(fields, k, tags[0])
    ensures MarkedBy(fields, tags, r) <==> MarkedBy(fields, tags[1..], r)
  {
    hide CountRequired;
    forall k | 0 <= k < |fields| ensures fields[k].tag in tags <==> fields[k].tag in tags[1..] {
      assert !HasTag(fields, k, tags[0]);
      assert tags == [tags[0]] + tags[1..];
    }
  }

  lemma {:induction false} RequiredAt(fields: seq<Field>, n: nat, r: nat) returns (k: nat)
    requires n <= |fields| && r < CountRequired(fields, n)
    ensures k < n && fields[k].rule == Required && CountRequired(fields, k) == r
  {
    if r < CountRequired(fields, n - 1) {
      k := RequiredAt(fields, n - 1, r);
    } else {
      k := n - 1;
    }
  }

  lemma {:induction false} CountGrows(fields: seq<Field>, n: nat, m: nat)
    requires n <= m <= |fields|
    ensures CountRequired(fields, n) <= CountRequired(fields, m)
    ensures n < m && fields[n].rule == Required ==> CountRequired(fields, n) < CountRequired(fields, m)
    decreases m - n
  {
    if n < m {
      CountGrows(fields, n + 1, m);
    }
  }

  lemma AllSeenIff(fields: seq<Field>, tags: seq<nat>)
    requires ValidFields(fields)
    ensures AllSeen(fields, Marks(fields, {}, tags)) <==> forall n: nat :: Demanded(fields, n) ==> fields[n].tag in tags
  {
    hide ValidFields, CountRequired, Marks;
    forall r: nat ensures r in Marks(fields, {}, tags) <==> MarkedBy(fields, tags, r) {
      MarksIff(fields, {}, tags, r);
    }
    if forall n: nat :: Demanded(fields, n) ==> fields[n].tag in tags {
      forall r: nat | r < CountRequired(fields, |fields|) && r < MAX_REQUIRED_FIELDS ensures r in Marks(fields, {}, tags) {
        var k := RequiredAt(fields, |fields|, r);
        RankIs(fields, k);
        assert Demanded(fields, k);
      }
    }
    if AllSeen(fields, Marks(fields, {}, tags)) {
      forall n: nat | Demanded(fields, n) ensures fields[n].tag in tags {
        RankIs(fields, n);
        CountGrows(fields, n, |fields|);
        var r := CountRequired(fields, n);
        assert MarkedBy(fields, tags, r);
        var k :| 0 <= k < |fields| && fields[k].rule == Required && CountRequired(fields, k) == r && fields[k].tag in tags;
        SameRank(fields, n, k);
      }
    }
  }

  lemma SameRank(fields: seq<Field>, n: nat, k: nat)
    requires n < |fields| && k < |fields| && fields[n].rule == Required && fields[k].rule == Required
    requires CountRequired(fields, n) == CountRequired(fields, k)
    ensures n == k
  {
    hide CountRequired;
    if n < k {
      CountGrows(fields, n, k);
    } else if k < n {
      CountGrows(fields, k, n);
    }
  }

  // A message is decoded exactly when its records are and the first 64 required fields are all among them.
  lemma RequiredIff(fields: seq<Field>, slots: seq<Slot>, bs: seq<byte>)
    requires ValidFields(fields) && Shaped(fields, slots)
    ensures DecodeMessage(fields, slots, bs) ==
              var w := Walk(fields, slots, bs);
              if w.Parsed? && forall n: nat :: Demanded(fields, n) ==> fields[n].tag in w.value.tags then Parsed(w.value.slots, w.rest) else Fail
  {
    hide DecodeFrom, Walk, Shaped, ValidFields, AllSeen, Marks, Demanded;
    WalkIs(fields, slots, {}, bs);
    var w := Walk(fields, slots, bs);
    if w.Parsed? {
      AllSeenIff(fields, w.value.tags);
    }
  }
}
