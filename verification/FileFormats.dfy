/**
  The byte formats of leveldb by number, each read without looking at what writes it: log files, internal keys,
  blocks, their trailers and filter blocks.  Round trips alone would hold with other numbers too.
 */
module FileFormats {
  import opened Wrappers
  import opened Bytes
  import opened Coding
  import LogFormat
  import LogWriter
  import TableFormat
  import Comparator
  import Keys
  import BlockFormat
  import BlockIter
  import FilterBlock

  // ---- Log files ----

  datatype Fragment = Fragment(kind: nat, data: seq<byte>)

  // crc32c::Mask
  function Masked(c: nat): nat {
    (c / 0x8000 + c % 0x8000 * 0x2_0000 + 0xa282_ead8) % 0x1_0000_0000
  }

  // A log is made of blocks of 32768 bytes, and `at` is where bs stands in it.  The last six bytes of a block
  // hold no header and are zero.  Elsewhere a fragment begins with a checksum of four bytes, a length of two and
  // a type, which is 1 for a whole record, and 2, 3 and 4 for a first, a middle and a last fragment.
  function ReadFragments(crc: LogFormat.Crc, at: nat, bs: seq<byte>): Option<seq<Fragment>>
    decreases |bs|
  {
    var left := LeftInBlock(at);
    if bs == [] then Some([])
    else if left < 7 then
      if |bs| >= left && AllZero(bs[..left]) then ReadFragments(crc, at + left, bs[left..]) else None
    else if |bs| < 7 then None
    else
      var n := bs[4] as nat + 256 * bs[5] as nat;
      if 7 + n > left || 7 + n > |bs| || !(1 <= bs[6] as nat <= 4) then None
      else if WordOf(bs[..4]) != Masked(LogFormat.Extend(crc, 0, bs[6..7 + n])) then None
      else
        var rest := ReadFragments(crc, at + 7 + n, bs[7 + n..]);
        if rest.None? then None else Some([Fragment(bs[6] as nat, bs[7..7 + n])] + rest.value)
  }

  function LeftInBlock(at: nat): (n: nat)
    ensures 1 <= n <= 32768
  {
    32768 - at % 32768
  }

  predicate AllZero(bs: seq<byte>) {
    forall i :: 0 <= i < |bs| ==> bs[i] == 0
  }

  // The records of a sequence of fragments; `begun` is what the fragments before have of the first.
  function Join(begun: Option<seq<byte>>, fs: seq<Fragment>): Option<seq<seq<byte>>>
    decreases |fs|
  {
    if fs == [] then if begun.None? then Some([]) else None
    else
      var f := fs[0];
      if f.kind == 1 && begun.None? then Prepend(f.data, Join(None, fs[1..]))
      else if f.kind == 2 && begun.None? then Join(Some(f.data), fs[1..])
      else if f.kind == 3 && begun.Some? then Join(Some(begun.value + f.data), fs[1..])
      else if f.kind == 4 && begun.Some? then Prepend(begun.value + f.data, Join(None, fs[1..]))
      else None
  }

  function Prepend(record: seq<byte>, rest: Option<seq<seq<byte>>>): Option<seq<seq<byte>>> {
    if rest.None? then None else Some([record] + rest.value)
  }

  // A fragment as it is written.
  lemma FragmentIsRead(crc: LogFormat.Crc, at: nat, t: nat, data: seq<byte>, tail: seq<byte>)
    requires 1 <= t <= 4 && at % 32768 + 7 + |data| <= 32768 && ReadFragments(crc, at + 7 + |data|, tail).Some?
    ensures ReadFragments(crc, at, LogFormat.Physical(crc, t, data) + tail) ==
              Some([Fragment(t, data)] + ReadFragments(crc, at + 7 + |data|, tail).value)
  {
    hide LogFormat.Physical, LogFormat.Extend, WordOf, LittleEndian, LogFormat.Mask, Masked, Pow2;
    var n, c := |data|, LogFormat.Mask(LogFormat.Value(crc, [t as byte] + data));
    var bs := LogFormat.Physical(crc, t, data) + tail;
    Header(crc, t, data, tail);
    WordSizes();
    assert 8 * 4 == 32;
    WordIsRead(c, 4);
  }

  lemma Header(crc: LogFormat.Crc, t: nat, data: seq<byte>, tail: seq<byte>)
    requires t < 256 && |data| < 65536
    ensures var bs := LogFormat.Physical(crc, t, data) + tail;
      && |bs| >= 7 + |data| && bs[..4] == LittleEndian(LogFormat.Mask(LogFormat.Value(crc, [t as byte] + data)), 4)
      && bs[4] as nat + 256 * bs[5] as nat == |data| && bs[6] == t as byte
      && bs[6..7 + |data|] == [t as byte] + data && bs[7..7 + |data|] == data && bs[7 + |data|..] == tail
    ensures LogFormat.Mask(LogFormat.Value(crc, [t as byte] + data)) == Masked(LogFormat.Extend(crc, 0, [t as byte] + data))
  {
    hide LogFormat.Extend, LittleEndian;
  }

  lemma PaddingIsRead(crc: LogFormat.Crc, at: nat, tail: seq<byte>)
    ensures ReadFragments(crc, at, LogFormat.Zeros(LogFormat.Trailer(at)) + tail) == ReadFragments(crc, at + LogFormat.Trailer(at), tail)
  {
    hide LogFormat.Extend, AllZero, LogFormat.Zeros, LogFormat.Trailer, LeftInBlock, WordOf, Masked, Prepend;
    ZerosIn(LogFormat.Trailer(at), tail);
    TrailerIs(at);
  }

  lemma TrailerIs(at: nat)
    ensures LogFormat.Trailer(at) == if LeftInBlock(at) < 7 then LeftInBlock(at) else 0
  {
  }

  lemma ZerosIn(n: nat, tail: seq<byte>)
    ensures var bs := LogFormat.Zeros(n) + tail;
            |bs| == n + |tail| && AllZero(bs[..n]) && bs[n..] == tail && (n == 0 ==> bs == tail)
  {
  }

  // How the fragments of a record, or of the rest of one, are joined with what comes before and behind.
  ghost predicate Joins(begin: bool, data: seq<byte>, fs: seq<Fragment>) {
    forall scratch, more :: (begin ==> scratch == []) ==>
      Join(if begin then None else Some(scratch), fs + more) == Prepend(scratch + data, Join(None, more))
  }

  lemma {:induction false} RecordIsRead(crc: LogFormat.Crc, at: nat, data: seq<byte>, begin: bool, tail: seq<byte>) returns (fs: seq<Fragment>)
    requires ReadFragments(crc, at + |LogFormat.Fragments(crc, at, data, begin)|, tail).Some?
    ensures ReadFragments(crc, at, LogFormat.Fragments(crc, at, data, begin) + tail) ==
              Some(fs + ReadFragments(crc, at + |LogFormat.Fragments(crc, at, data, begin)|, tail).value)
    ensures Joins(begin, data, fs)
    decreases |data|, LogWriter.OffsetInBlock(at)
  {
    hide LogFormat.Fragments, LogFormat.Piece, ReadFragments, LogFormat.Physical, Joins, LogFormat.Trailer, LogFormat.FragmentLength, LogWriter.OffsetInBlock,
      LogFormat.FragmentType, LogFormat.Zeros;
    var n := LogFormat.FragmentLength(at, |data|);
    var t, start := LogFormat.FragmentType(begin, n == |data|), at + LogFormat.Trailer(at);
    LogWriter.FragmentsStep(crc, at, data, begin);
    LogWriter.FragmentsShrink(at, |data|);
    TypeRange(begin, n == |data|);
    var zeros, phys := LogFormat.Zeros(LogFormat.Trailer(at)), LogFormat.Physical(crc, t, data[..n]);
    var next := start + 7 + n;
    if n == |data| {
      fs := [Fragment(t, data[..n])];
      FragmentIsRead(crc, start, t, data[..n], tail);
      PaddingIsRead(crc, at, phys + tail);
      Regroup(zeros, phys, tail);
      assert data[..n] == data && zeros + phys + [] == zeros + phys;
      LastJoins(begin, data);
    } else {
      var rest := LogFormat.Fragments(crc, next, data[n..], false);
      var more := RecordIsRead(crc, next, data[n..], false, tail);
      FragmentIsRead(crc, start, t, data[..n], rest + tail);
      PaddingIsRead(crc, at, phys + (rest + tail));
      Regroup(zeros, phys, rest);
      Regroup(zeros, phys + rest, tail);
      Regroup(phys, rest, tail);
      fs := [Fragment(t, data[..n])] + more;
      OneMoreJoins(begin, data, n, more);
      Behind(Fragment(t, data[..n]), more, ReadFragments(crc, next + |rest|, tail).value);
    }
  }

  lemma Behind(f: Fragment, more: seq<Fragment>, rest: seq<Fragment>)
    ensures [f] + (more + rest) == [f] + more + rest
  {
  }

  lemma TypeRange(begin: bool, end: bool)
    ensures LogFormat.FragmentType(begin, end) == if begin && end then 1 else if begin then 2 else if end then 4 else 3
  {
  }

  lemma LastJoins(begin: bool, data: seq<byte>)
    ensures Joins(begin, data, [Fragment(LogFormat.FragmentType(begin, true), data)])
  {
    TypeRange(begin, true);
    forall scratch: seq<byte>, more: seq<Fragment> | begin ==> scratch == []
      ensures Join(if begin then None else Some(scratch), [Fragment(LogFormat.FragmentType(begin, true), data)] + more) ==
                Prepend(scratch + data, Join(None, more))
    {
      assert ([Fragment(LogFormat.FragmentType(begin, true), data)] + more)[1..] == more;
      assert begin ==> scratch + data == data;
    }
  }

  lemma OneMoreJoins(begin: bool, data: seq<byte>, n: nat, more: seq<Fragment>)
    requires n <= |data| && Joins(false, data[n..], more)
    ensures Joins(begin, data, [Fragment(LogFormat.FragmentType(begin, false), data[..n])] + more)
  {
    TypeRange(begin, false);
    var f := Fragment(LogFormat.FragmentType(begin, false), data[..n]);
    forall scratch: seq<byte>, rest: seq<Fragment> | begin ==> scratch == []
      ensures Join(if begin then None else Some(scratch), [f] + more + rest) == Prepend(scratch + data, Join(None, rest))
    {
      assert ([f] + more + rest)[1..] == more + rest && ([f] + more + rest)[0] == f;
      assert scratch + data[..n] + data[n..] == scratch + data;
      assert begin ==> scratch + data[..n] == data[..n];
      assert Join(Some(scratch + data[..n]), more + rest) == Prepend(scratch + data[..n] + data[n..], Join(None, rest));
    }
  }

  function Before(records: seq<seq<byte>>, rest: Option<seq<seq<byte>>>): Option<seq<seq<byte>>> {
    if rest.None? then None else Some(records + rest.value)
  }

  lemma {:induction false} LogIsRead(crc: LogFormat.Crc, records: seq<seq<byte>>, tail: seq<byte>) returns (fs: seq<Fragment>)
    requires ReadFragments(crc, |LogFormat.LogBytes(crc, records)|, tail).Some?
    ensures ReadFragments(crc, 0, LogFormat.LogBytes(crc, records) + tail) ==
              Some(fs + ReadFragments(crc, |LogFormat.LogBytes(crc, records)|, tail).value)
    ensures forall more :: Join(None, fs + more) == Before(records, Join(None, more))
    decreases |records|
  {
    hide LogFormat.Fragments, ReadFragments, Join, Before, Prepend;
    if records == [] {
      fs := [];
      assert [] + tail == tail;
      assert [] + ReadFragments(crc, 0, tail).value == ReadFragments(crc, 0, tail).value;
      forall more: seq<Fragment> ensures Join(None, fs + more) == Before(records, Join(None, more)) {
        assert fs + more == more;
        NothingBefore(Join(None, more));
      }
    } else {
      var n := |records| - 1;
      var before := LogFormat.LogBytes(crc, records[..n]);
      var bytes := LogFormat.Fragments(crc, |before|, records[n], true);
      var last := RecordIsRead(crc, |before|, records[n], true, tail);
      var first := LogIsRead(crc, records[..n], bytes + tail);
      Regroup(before, bytes, tail);
      fs := first + last;
      assert first + (last + ReadFragments(crc, |before + bytes|, tail).value) == fs + ReadFragments(crc, |before + bytes|, tail).value;
      forall more: seq<Fragment> ensures Join(None, fs + more) == Before(records, Join(None, more)) {
        assert fs + more == first + (last + more);
        assert [] + records[n] == records[n];
        assert Join(None, last + more) == Prepend([] + records[n], Join(None, more));
        LastRecord(records, Join(None, more));
      }
    }
  }

  lemma NothingBefore(rest: Option<seq<seq<byte>>>)
    ensures Before([], rest) == rest
  {
    if rest.Some? {
      assert [] + rest.value == rest.value;
    }
  }

  lemma LastRecord(records: seq<seq<byte>>, rest: Option<seq<seq<byte>>>)
    requires records != []
    ensures var n := |records| - 1; Before(records[..n], Prepend(records[n], rest)) == Before(records, rest)
  {
    var n := |records| - 1;
    if rest.Some? {
      assert records[..n] + ([records[n]] + rest.value) == records + rest.value;
    }
  }

  // A log file is read by its format as exactly the records that were added.
  lemma LogFollowsFormat(crc: LogFormat.Crc, records: seq<seq<byte>>)
    ensures var fs := ReadFragments(crc, 0, LogFormat.LogBytes(crc, records));
            fs.Some? && Join(None, fs.value) == Some(records)
  {
    hide LogFormat.LogBytes, Join;
    var fs := LogIsRead(crc, records, []);
    var all := LogFormat.LogBytes(crc, records);
    assert all + [] == all && fs + [] == fs;
    NoFragments();
    assert records + [] == records;
  }

  lemma NoFragments()
    ensures Join(None, []) == Some([])
  {
  }

  // ---- Block trailers and internal keys ----

  // Behind each block of a table: 0 for no compression, and the checksum of the block and this byte.
  lemma TrailerFollowsFormat(crc: LogFormat.Crc, block: seq<byte>)
    ensures var bs := TableFormat.TrailerBytes(crc, block);
      |bs| == 5 && bs[0] == 0 && WordOf(bs[1..]) == Masked(LogFormat.Extend(crc, 0, block + [0]))
  {
    hide LogFormat.Extend, WordOf, LittleEndian;
    WordSizes();
    assert 8 * 4 == 32;
    WordIsRead(LogFormat.Mask(LogFormat.Value(crc, block + [0])), 4);
    hide Pow2;
    assert TableFormat.TrailerBytes(crc, block)[1..] == LittleEndian(LogFormat.Mask(LogFormat.Value(crc, block + [0])), 4);
  }

  // Behind the user key of an internal key: type 1 for a value and 0 for a deletion, and the sequence number in the
  // seven bytes after it.
  lemma InternalKeyFollowsFormat(user: seq<byte>, k: Keys.InternalKey)
    requires k.sn <= 0xff_ffff_ffff_ffff
    ensures var bs := Comparator.InternalKeyBytes(user, Keys.Tag(k));
      && |bs| == |user| + 8 && bs[..|user|] == user
      && bs[|user|] == (if k.kind.Value? then 1 else 0) && WordOf(bs[|user| + 1..]) == k.sn
  {
    hide LittleEndian, WordOf;
    TagBytes(k);
    SequenceIsRead(k.sn);
    assert Comparator.InternalKeyBytes(user, Keys.Tag(k))[|user| + 1..] == LittleEndian(k.sn, 7);
  }

  lemma TagBytes(k: Keys.InternalKey)
    ensures LittleEndian(Keys.Tag(k), 8) == [if k.kind.Value? then 1 else 0] + LittleEndian(k.sn, 7)
  {
    DivideUnique(Keys.Tag(k), 256, k.sn, if k.kind.Value? then 1 else 0);
  }

  lemma SequenceIsRead(n: nat)
    requires n <= 0xff_ffff_ffff_ffff
    ensures WordOf(LittleEndian(n, 7)) == n
  {
    WordSizes();
    Pow2Add(7 * 8, 8);
    hide Pow2, WordOf, LittleEndian;
    WordIsRead(n, 7);
  }

  // ---- Blocks ----

  // Three numbers, how much of the key before is shared, how much is not, and the length of the value; then the
  // rest of the key, and the value.
  function ReadEntry(before: seq<byte>, bs: seq<byte>): (r: Option<(BlockFormat.Item, seq<byte>)>)
    ensures r.Some? ==> |r.value.1| < |bs|
  {
    var shared := ReadNumber(bs);
    if shared.None? then None
    else
      var rest := ReadNumber(shared.value.1);
      if rest.None? then None
      else
        var length := ReadNumber(rest.value.1);
        if length.None? then None
        else
          var body, n, m := length.value.1, rest.value.0, length.value.0;
          if shared.value.0 > |before| || |body| < n + m then None
          else Some((BlockFormat.Item(before[..shared.value.0] + body[..n], body[n..n + m]), body[n + m..]))
  }

  function ReadItems(before: seq<byte>, bs: seq<byte>): Option<seq<BlockFormat.Item>>
    decreases |bs|
  {
    if bs == [] then Some([])
    else
      var e := ReadEntry(before, bs);
      if e.None? then None
      else
        var rest := ReadItems(e.value.0.key, e.value.1);
        if rest.None? then None else Some([e.value.0] + rest.value)
  }

  lemma EntryIsRead(before: seq<byte>, shared: nat, e: BlockFormat.Item, tail: seq<byte>)
    requires shared <= |e.key| && shared <= |before| && before[..shared] == e.key[..shared]
    ensures ReadEntry(before, BlockFormat.EncodeEntry(shared, e) + tail) == Some((e, tail))
  {
    hide ReadNumber, Varint;
    var a, b, c := Varint(shared), Varint(|e.key| - shared), Varint(|e.value|);
    var body := e.key[shared..] + e.value;
    EntryParts(a, b, c, body, tail);
    NumberIsRead(shared, b + (c + (body + tail)));
    NumberIsRead(|e.key| - shared, c + (body + tail));
    NumberIsRead(|e.value|, body + tail);
    BodyParts(shared, e, tail);
  }

  lemma EntryParts(a: seq<byte>, b: seq<byte>, c: seq<byte>, body: seq<byte>, tail: seq<byte>)
    ensures a + b + c + body + tail == a + (b + (c + (body + tail)))
  {
  }

  lemma BodyParts(shared: nat, e: BlockFormat.Item, tail: seq<byte>)
    requires shared <= |e.key|
    ensures var bs, n, m := e.key[shared..] + e.value + tail, |e.key| - shared, |e.value|;
      n + m <= |bs| && e.key[..shared] + bs[..n] == e.key && bs[n..n + m] == e.value && bs[n + m..] == tail
  {
  }

  lemma {:induction false} ItemsAreRead(items: seq<BlockFormat.Item>, interval: nat, i: nat, before: seq<byte>)
    requires interval >= 1 && i <= |items| && (i % interval != 0 && i < |items| ==> before == items[i - 1].key)
    ensures ReadItems(before, BlockIter.Rest(items, interval, i)) == Some(items[i..])
    decreases |items| - i
  {
    hide ReadEntry, BlockIter.Rest, BlockFormat.EncodeEntry;
    if i == |items| {
      NothingLeft(items, interval);
    } else {
      var rest := BlockIter.Rest(items, interval, i + 1);
      BlockIter.RestStep(items, interval, i);
      EntryIsRead(before, BlockFormat.Shared(items, interval, i), items[i], rest);
      ItemsAreRead(items, interval, i + 1, items[i].key);
      assert [items[i]] + items[i + 1..] == items[i..];
    }
  }

  lemma NothingLeft(items: seq<BlockFormat.Item>, interval: nat)
    requires interval >= 1
    ensures BlockIter.Rest(items, interval, |items|) == []
  {
  }

  // A block is read by its format: the items, a word for the place of every interval-th, and how many such words
  // there are.  From each of these places the items can be read without those before.
  lemma BlockFollowsFormat(items: seq<BlockFormat.Item>, interval: nat)
    requires interval >= 1 && BlockIter.Sizes(items, interval)
    ensures var bs := BlockFormat.BlockBytes(items, interval);
      && |bs| >= 4
      && var num := WordOf(bs[|bs| - 4..]);
         && num == (if items == [] then 1 else (|items| - 1) / interval + 1) && 4 * num + 4 <= |bs|
         && ReadItems([], bs[..|bs| - 4 - 4 * num]) == Some(items)
  {
    hide BlockFormat.Data, BlockFormat.BlockBytes, BlockFormat.RestartArray, BlockFormat.Offset, BlockFormat.NumRestarts, BlockIter.Sizes,
      BlockIter.Rest, ReadItems, DecodeFixed32, WordOf;
    var bs := BlockFormat.BlockBytes(items, interval);
    BlockIter.BlockParts(items, interval);
    LastWord(bs);
    HowMany(items, interval);
    AllOfIt(items, interval);
    ItemsAreRead(items, interval, 0, []);
    assert items[0..] == items;
  }

  lemma HowMany(items: seq<BlockFormat.Item>, interval: nat)
    requires interval >= 1
    ensures BlockFormat.NumRestarts(|items|, interval) == if items == [] then 1 else (|items| - 1) / interval + 1
  {
  }

  lemma LastWord(bs: seq<byte>)
    requires |bs| >= 4
    ensures WordOf(bs[|bs| - 4..]) == DecodeFixed32(bs[|bs| - 4..])
  {
    hide WordOf, FromLittleEndian;
    WordIs(bs[|bs| - 4..]);
    assert bs[|bs| - 4..][..4] == bs[|bs| - 4..];
  }

  lemma AllOfIt(items: seq<BlockFormat.Item>, interval: nat)
    requires interval >= 1
    ensures BlockIter.Rest(items, interval, 0) == BlockFormat.Data(items, interval, |items|)
  {
  }

  // The items from the k-th such place on.
  function ReadFrom(bs: seq<byte>, k: nat): Option<seq<BlockFormat.Item>> {
    if |bs| < 4 then None
    else
      var num := WordOf(bs[|bs| - 4..]);
      if k >= num || |bs| < 4 * num + 4 then None
      else
        var end := |bs| - 4 - 4 * num;
        var at := WordOf(bs[end + 4 * k..end + 4 * k + 4]);
        if at > end then None else ReadItems([], bs[at..end])
  }

  lemma RestartFollowsFormat(items: seq<BlockFormat.Item>, interval: nat, i: nat)
    requires interval >= 1 && BlockIter.Sizes(items, interval) && (i == 0 || i < |items|) && i % interval == 0
    ensures ReadFrom(BlockFormat.BlockBytes(items, interval), i / interval) == Some(items[i..])
  {
    hide BlockFormat.Data, BlockFormat.BlockBytes, BlockFormat.RestartArray, BlockFormat.Offset, BlockFormat.NumRestarts, BlockIter.Sizes,
      BlockIter.Rest, ReadItems, DecodeFixed32, WordOf;
    var k, bs := i / interval, BlockFormat.BlockBytes(items, interval);
    PlaceOf(|items|, interval, i);
    BlockIter.BlockParts(items, interval);
    BlockIter.RestartPoint(items, interval, k);
    BlockFormat.OffsetsGrow(items, interval, i, |items|);
    LastWord(bs);
    var n, at := BlockFormat.Offset(items, interval, |items|), BlockFormat.Offset(items, interval, i);
    LastWord(bs[n + 4 * k..n + 4 * k + 4]);
    ItemsAreRead(items, interval, i, []);
    assert BlockIter.Rest(items, interval, i) == bs[..n][at..] by {
      RestIs(items, interval, i);
    }
    assert bs[at..n] == bs[..n][at..];
  }

  lemma RestIs(items: seq<BlockFormat.Item>, interval: nat, i: nat)
    requires interval >= 1 && i <= |items|
    ensures var at := BlockFormat.Offset(items, interval, i); var all := BlockFormat.Data(items, interval, |items|);
            at <= |all| && BlockIter.Rest(items, interval, i) == all[at..]
  {
    BlockFormat.OffsetsGrow(items, interval, i, |items|);
  }

  lemma PlaceOf(n: nat, interval: nat, i: nat)
    requires interval > 0 && i % interval == 0 && (i == 0 || i < n)
    ensures i / interval < BlockFormat.NumRestarts(n, interval) && i / interval * interval == i
  {
    if i != 0 {
      NoMoreThan(i / interval, n - 1, interval);
    }
  }

  lemma NoMoreThan(q: nat, n: nat, d: nat)
    requires d > 0 && q * d <= n
    ensures q <= n / d
  {
    var e := n - q * d;
    assert (q + e / d) * d == q * d + e / d * d;
    DivideUnique(n, d, q + e / d, e % d);
  }

  // Nothing is spelled out that the key before has: the shared part is the longest there is.
  lemma SharesMost(items: seq<BlockFormat.Item>, interval: nat, i: nat, n: nat)
    requires interval > 0 && 0 < i < |items| && i % interval != 0
    requires n <= |items[i - 1].key| && n <= |items[i].key| && items[i - 1].key[..n] == items[i].key[..n]
    ensures n <= BlockFormat.Shared(items, interval, i)
  {
    var a, b := items[i - 1].key, items[i].key;
    forall m | 0 <= m < n ensures a[m] == b[m] {
      assert a[..n][m] == b[..n][m];
    }
  }

  // ---- Filter blocks ----

  function ReadFilter(bs: seq<byte>, i: nat): Option<seq<byte>> {
    if |bs| < 5 then None
    else
      var words := WordOf(bs[|bs| - 5..|bs| - 1]);
      if words + 4 * i + 4 > |bs| - 5 then None
      else
        var start, limit := WordOf(bs[words + 4 * i..words + 4 * i + 4]), WordOf(bs[words + 4 * i + 4..words + 4 * i + 8]);
        if start <= limit <= words then Some(bs[start..limit]) else None
  }

  // The filters, a word for the place of each, a word for where these words begin, and 11, for 2^11 bytes of the
  // table to a filter.
  lemma FilterFollowsFormat(filters: seq<seq<byte>>, i: nat)
    requires |FilterBlock.BlockBytes(filters)| < U32 && i < |filters|
    ensures var bs := FilterBlock.BlockBytes(filters);
      && |bs| >= 5 && bs[|bs| - 1] == 11
      && WordOf(bs[|bs| - 5..|bs| - 1]) + 4 * |filters| + 5 == |bs| && ReadFilter(bs, i) == Some(filters[i])
  {
    hide FilterBlock.Concat, FilterBlock.Words, FilterBlock.Offset, FilterBlock.Ends, FromLittleEndian, WordOf;
    var bs, all, n := FilterBlock.BlockBytes(filters), FilterBlock.Concat(filters), |filters|;
    FilterBlock.OffsetBound(filters, n);
    FilterBlock.EndAt(filters, n);
    FilterBlock.EndAt(filters, i);
    FilterBlock.EndAt(filters, i + 1);
    FilterBlock.FilterAt(filters, i);
    WordAt(bs, |all| + 4 * n);
    WordAt(bs, |all| + 4 * i);
    WordAt(bs, |all| + 4 * i + 4);
    FrontOf(filters, i);
  }

  lemma WordAt(bs: seq<byte>, at: nat)
    requires at + 4 <= |bs|
    ensures WordOf(bs[at..at + 4]) == DecodeFixed32(bs[at..])
  {
    hide WordOf, FromLittleEndian;
    WordIs(bs[at..at + 4]);
    assert bs[at..][..4] == bs[at..at + 4];
  }

  lemma FrontOf(filters: seq<seq<byte>>, i: nat)
    requires i < |filters|
    ensures var a, b, all := FilterBlock.Offset(filters, i), FilterBlock.Offset(filters, i + 1), FilterBlock.Concat(filters);
            a <= b <= |all| && FilterBlock.BlockBytes(filters)[a..b] == all[a..b]
  {
    hide FilterBlock.Concat, FilterBlock.Words, FilterBlock.Offset;
    FilterBlock.FilterAt(filters, i);
    var all := FilterBlock.Concat(filters);
    assert FilterBlock.BlockBytes(filters)[..|all|] == all;
  }
}
