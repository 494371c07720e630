/**
  Filter blocks (table/filter_block.cc): one filter for every 2 KB of the table file.
 */
module FilterBlock {
  import opened Bytes
  import opened Coding
  import opened Bloom

  // kFilterBaseLg and kFilterBase
  const FILTER_BASE_LG: byte := 11
  const FILTER_BASE: nat := 2048

  function Concat(filters: seq<seq<byte>>): seq<byte> {
    if filters == [] then [] else Concat(filters[..|filters| - 1]) + filters[|filters| - 1]
  }

  // Where filter i starts, and where the last one ends.
  function Offset(filters: seq<seq<byte>>, i: nat): nat
    requires i <= |filters|
  {
    |Concat(filters[..i])|
  }

  function Words(ws: seq<nat>): (bs: seq<byte>)
    ensures |bs| == 4 * |ws|
  {
    if ws == [] then [] else Words(ws[..|ws| - 1]) + Fixed32(ws[|ws| - 1])
  }

  lemma {:induction false} WordAt(ws: seq<nat>, i: nat, tail: seq<byte>)
    requires i < |ws| && ws[i] < U32
    ensures DecodeFixed32((Words(ws) + tail)[4 * i..]) == ws[i]
  {
    hide Fixed32, DecodeFixed32;
    var n := |ws| - 1;
    Regroup(Words(ws[..n]), Fixed32(ws[n]), tail);
    if i == n {
      assert (Words(ws) + tail)[4 * i..] == Fixed32(ws[n]) + tail;
      Fixed32RoundTrip(ws[n], tail);
    } else {
      WordAt(ws[..n], i, Fixed32(ws[n]) + tail);
    }
  }

  lemma {:induction false} FilterAt(filters: seq<seq<byte>>, i: nat)
    requires i < |filters|
    ensures Offset(filters, i) <= Offset(filters, i + 1) <= |Concat(filters)|
    ensures Concat(filters)[Offset(filters, i)..Offset(filters, i + 1)] == filters[i]
  {
    var n := |filters| - 1;
    var init := filters[..n];
    assert filters[..i + 1][..i] == filters[..i] && filters[..i + 1][i] == filters[i];
    if i == n {
      assert filters[..i + 1] == filters;
    } else {
      FilterAt(init, i);
      assert init[..i] == filters[..i] && init[..i + 1] == filters[..i + 1];
    }
  }

  // The offset array, with the word after it: where the filters start, and where they all end.
  function Ends(filters: seq<seq<byte>>): (ws: seq<nat>)
    ensures |ws| == |filters| + 1
  {
    seq(|filters| + 1, i requires 0 <= i <= |filters| => Offset(filters, i))
  }

  // The finished block.
  function BlockBytes(filters: seq<seq<byte>>): (bs: seq<byte>)
    ensures |bs| == |Concat(filters)| + 4 * |filters| + 5
  {
    Concat(filters) + Words(Ends(filters)) + [FILTER_BASE_LG]
  }

  // FilterBlockReader::KeyMayMatch on any contents; errors are treated as potential matches.
  predicate MatchAt(hash: KeyHash, contents: seq<byte>, blockOffset: nat, key: Key)
    requires HashFits(hash)
  {
    var n := |contents|;
    if n < 5 then true
    else
      var lastWord := DecodeFixed32(contents[n - 5..]);
      if lastWord > n - 5 then true
      else
        var num := (n - 5 - lastWord) / 4;
        var index := blockOffset / Pow2(contents[n - 1] as nat);
        if index >= num then true
        else
          var start := DecodeFixed32(contents[lastWord + 4 * index..]);
          var limit := DecodeFixed32(contents[lastWord + 4 * index + 4..]);
          if start <= limit <= lastWord then MayMatch(hash, key, contents[start..limit]) else start != limit
  }

  lemma TailOf(a: seq<byte>, b: seq<byte>, tail: seq<byte>, k: nat)
    requires k <= |b|
    ensures (a + b + tail)[|a| + k..] == (b + tail)[k..]
  {
  }

  lemma SliceOf(a: seq<byte>, b: seq<byte>, i: nat, j: nat)
    requires i <= j <= |a|
    ensures (a + b)[i..j] == a[i..j]
  {
  }

  // Word i of the offset array of a finished block.
  lemma EndAt(filters: seq<seq<byte>>, i: nat)
    requires i <= |filters| && |BlockBytes(filters)| < U32
    ensures DecodeFixed32(BlockBytes(filters)[|Concat(filters)| + 4 * i..]) == Offset(filters, i)
  {
    hide DecodeFixed32, Concat, Words;
    OffsetBound(filters, i);
    TailOf(Concat(filters), Words(Ends(filters)), [FILTER_BASE_LG], 4 * i);
    WordAt(Ends(filters), i, [FILTER_BASE_LG]);
  }

  lemma OffsetBound(filters: seq<seq<byte>>, i: nat)
    requires i <= |filters|
    ensures Offset(filters, i) <= |Concat(filters)| && (i == |filters| ==> Offset(filters, i) == |Concat(filters)|)
  {
    if i < |filters| {
      FilterAt(filters, i);
    } else {
      assert filters[..i] == filters;
    }
  }

  // Reading a finished block at an offset asks the filter of that offset.
  lemma ReadsFilter(hash: KeyHash, filters: seq<seq<byte>>, blockOffset: nat, key: Key)
    requires HashFits(hash) && |BlockBytes(filters)| < U32 && blockOffset / FILTER_BASE < |filters|
    ensures MatchAt(hash, BlockBytes(filters), blockOffset, key) == MayMatch(hash, key, filters[blockOffset / FILTER_BASE])
  {
    hide DecodeFixed32, Concat, Words, MayMatch, Offset, Ends;
    var contents, total, i := BlockBytes(filters), |Concat(filters)|, blockOffset / FILTER_BASE;
    OffsetBound(filters, |filters|);
    EndAt(filters, |filters|);
    EndAt(filters, i);
    EndAt(filters, i + 1);
    assert Pow2(11) == FILTER_BASE;
    FilterAt(filters, i);
    Regroup(Concat(filters), Words(Ends(filters)), [FILTER_BASE_LG]);
    SliceOf(Concat(filters), Words(Ends(filters)) + [FILTER_BASE_LG], Offset(filters, i), Offset(filters, i + 1));
  }

  // Without keys there is no filter, not even an empty one.
  ghost predicate FilterOf(hash: KeyHash, keys: seq<Key>, bitsPerKey: nat, k: nat, filter: seq<byte>)
    requires HashFits(hash)
  {
    if keys == [] then filter == [] else IsFilter(hash, keys, bitsPerKey, k, filter)
  }

  // What a filter of these keys lets pass: keys all of whose probes are probes of some key of it.
  ghost predicate Passes(hash: KeyHash, keys: seq<Key>, bitsPerKey: nat, k: nat, key: Key)
    requires HashFits(hash)
  {
    var bits := 8 * FilterBytes(|keys|, bitsPerKey);
    keys != [] && forall j :: 0 <= j < k ==> Wanted(hash, keys, k, bits, ProbePosition(hash(key), j, bits))
  }

  lemma FilterPasses(hash: KeyHash, keys: seq<Key>, bitsPerKey: nat, k: nat, filter: seq<byte>, key: Key)
    requires HashFits(hash) && 1 <= k <= 30 && FilterOf(hash, keys, bitsPerKey, k, filter)
    ensures MayMatch(hash, key, filter) <==> Passes(hash, keys, bitsPerKey, k, key)
    ensures key in keys ==> MayMatch(hash, key, filter)
  {
    if keys != [] {
      MatchesIff(hash, keys, bitsPerKey, k, filter, key);
      if key in keys {
        NoKeyIsMissed(hash, keys, bitsPerKey, k, filter, key);
      }
    }
    hide IsFilter, ProbePosition, FilterBytes, Wanted;
  }

  // The keys of the filters, and of the next one, once n filters are made: all pending keys go to the
  // first new one, and the others are of no keys.
  ghost function Started(keysOf: seq<seq<Key>>, pending: seq<Key>, n: nat): (seq<seq<Key>>, seq<Key>) {
    if n <= |keysOf| then (keysOf, pending) else (keysOf + [pending] + seq(n - |keysOf| - 1, _ => []), [])
  }

  lemma AsTheyAre(keysOf: seq<seq<Key>>, pending: seq<Key>)
    ensures Started(keysOf, pending, |keysOf|) == (keysOf, pending)
  {
  }

  lemma OneMoreFilter(keysOf: seq<seq<Key>>, pending: seq<Key>, n: nat)
    requires |keysOf| <= n
    ensures var s := Started(keysOf, pending, n); Started(keysOf, pending, n + 1) == (s.0 + [s.1], [])
  {
    var s := Started(keysOf, pending, n);
    assert Started(keysOf, pending, n + 1).0 == s.0 + [s.1];
  }

  class FilterBlockBuilder {
    const hash: KeyHash
    const bitsPerKey: nat
    const probes: nat
    // The keys of the next filter, flattened, and where each starts.
    var keys: seq<byte>
    var start: seq<nat>
    var result: seq<byte>
    var filterOffsets: seq<nat>
    ghost var filters: seq<seq<byte>>
    // The keys given to each finished filter, and those of the next one.
    ghost var keysOf: seq<seq<Key>>
    ghost var pending: seq<Key>

    ghost predicate Valid()
      reads this
    {
      && HashFits(hash) && 1 <= probes <= 30
      && result == Concat(filters) && IsOffsets(filterOffsets, filters)
      && keys == Concat(pending) && IsOffsets(start, pending)
      && |keysOf| == |filters|
      && forall i :: 0 <= i < |filters| ==> FilterOf(hash, keysOf[i], bitsPerKey, probes, filters[i])
    }

    constructor (hash: KeyHash, bitsPerKey: nat)
      requires HashFits(hash)
      ensures Valid() && filters == [] && keysOf == [] && pending == []
      ensures this.hash == hash && this.bitsPerKey == bitsPerKey && probes == Probes(bitsPerKey)
    {
      this.hash, this.bitsPerKey, this.probes := hash, bitsPerKey, Probes(bitsPerKey);
      keys, start, result, filterOffsets := [], [], [], [];
      filters, keysOf, pending := [], [], [];
    }

    method AddKey(key: Key)
      requires Valid()
      modifies this
      ensures Valid() && filters == old(filters) && keysOf == old(keysOf) && pending == old(pending) + [key]
    {
      hide Concat;
      OneMorePart(pending, start, key);
      start := start + [|keys|];
      keys := keys + key;
      pending := pending + [key];
    }

    method GenerateFilter()
      requires Valid()
      modifies this
      ensures Valid() && |filters| == |old(filters)| + 1 && pending == [] && keysOf == old(keysOf) + [old(pending)]
    {
      hide Concat, MayMatch, IsFilter;
      var numKeys := |start|;
      if numKeys == 0 {
        OneMorePart(filters, filterOffsets, []);
        assert result + [] == result;
        filterOffsets := filterOffsets + [|result|];
        filters, keysOf := filters + [[]], keysOf + [[]];
        return;
      }
      var ends := start + [|keys|];
      var tmpKeys: seq<Key> := [];
      for i := 0 to numKeys
        invariant unchanged(this) && tmpKeys == pending[..i]
      {
        PartAt(pending, start, i);
        tmpKeys := tmpKeys + [keys[ends[i]..ends[i + 1]]];
        assert pending[..i + 1] == pending[..i] + [pending[i]];
      }
      assert pending[..numKeys] == pending;
      filterOffsets := filterOffsets + [|result|];
      var r := CreateFilter(hash, tmpKeys, bitsPerKey, probes, result);
      ghost var filter := r[|result|..];
      OneMorePart(filters, old(filterOffsets), filter);
      assert r == result + filter;
      result := r;
      filters, keysOf := filters + [filter], keysOf + [pending];
      NothingPending();
      keys, start, pending := [], [], [];
    }

    // StartBlock: the keys that follow belong to the filter of this offset.
    method StartBlock(blockOffset: nat)
      requires Valid() && blockOffset / FILTER_BASE >= |filters|
      modifies this
      ensures Valid() && |filters| == blockOffset / FILTER_BASE
      ensures (keysOf, pending) == Started(old(keysOf), old(pending), blockOffset / FILTER_BASE)
    {
      hide Started, FilterOf;
      AsTheyAre(keysOf, pending);
      var filterIndex := blockOffset / FILTER_BASE;
      while filterIndex > |filterOffsets|
        invariant Valid() && |filters| <= filterIndex
        invariant (keysOf, pending) == Started(old(keysOf), old(pending), |filters|) && |old(keysOf)| <= |filters|
        decreases filterIndex - |filterOffsets|
      {
        OneMoreFilter(old(keysOf), old(pending), |filters|);
        GenerateFilter();
      }
    }

    // Finish: at the offsets of a filter exactly the keys that pass it may match, so no key that was
    // added is missed there.
    method Finish() returns (contents: seq<byte>)
      requires Valid()
      modifies this
      ensures contents == BlockBytes(filters)
      ensures keysOf == if old(pending) == [] then old(keysOf) else old(keysOf) + [old(pending)]
      ensures |contents| < U32 ==> forall blockOffset: nat, key :: blockOffset / FILTER_BASE < |keysOf| ==>
                (MatchAt(hash, contents, blockOffset, key) <==> Passes(hash, keysOf[blockOffset / FILTER_BASE], bitsPerKey, probes, key))
      ensures |contents| < U32 ==> forall blockOffset: nat, key :: blockOffset / FILTER_BASE < |keysOf| && key in keysOf[blockOffset / FILTER_BASE] ==>
                MatchAt(hash, contents, blockOffset, key)
    {
      hide Concat, MayMatch, MatchAt, Words, Fixed32, FilterOf, Passes;
      if start != [] {
        GenerateFilter();
      }
      OneMoreWord(filters, filterOffsets);
      contents := result + Words(filterOffsets) + Fixed32(|result|) + [FILTER_BASE_LG];
      Regroup(result, Words(filterOffsets), Fixed32(|result|));
      if |contents| < U32 {
        forall blockOffset: nat, key | blockOffset / FILTER_BASE < |filters|
          ensures MatchAt(hash, contents, blockOffset, key) <==> Passes(hash, keysOf[blockOffset / FILTER_BASE], bitsPerKey, probes, key)
          ensures key in keysOf[blockOffset / FILTER_BASE] ==> MatchAt(hash, contents, blockOffset, key)
        {
          var i := blockOffset / FILTER_BASE;
          ReadsFilter(hash, filters, blockOffset, key);
          FilterPasses(hash, keysOf[i], bitsPerKey, probes, filters[i], key);
        }
      }
    }
  }

  // where[i] is where part i starts in the concatenation.
  ghost predicate IsOffsets(where: seq<nat>, parts: seq<seq<byte>>) {
    |where| == |parts| && forall i :: 0 <= i < |parts| ==> where[i] == Offset(parts, i)
  }

  lemma OneMorePart(parts: seq<seq<byte>>, where: seq<nat>, part: seq<byte>)
    requires IsOffsets(where, parts)
    ensures Concat(parts + [part]) == Concat(parts) + part && IsOffsets(where + [|Concat(parts)|], parts + [part])
  {
    var all := parts + [part];
    assert all[..|all| - 1] == parts;
    forall i | 0 <= i < |parts| ensures Offset(all, i) == Offset(parts, i) {
      assert all[..i] == parts[..i];
    }
  }

  lemma PartAt(parts: seq<seq<byte>>, where: seq<nat>, i: nat)
    requires IsOffsets(where, parts) && i < |parts|
    ensures var ends := where + [|Concat(parts)|];
      ends[i] <= ends[i + 1] <= |Concat(parts)| && Concat(parts)[ends[i]..ends[i + 1]] == parts[i]
  {
    FilterAt(parts, i);
    OffsetBound(parts, i + 1);
  }

  lemma NothingPending()
    ensures Concat([]) == [] && IsOffsets([], [])
  {
  }

  lemma OneMoreWord(filters: seq<seq<byte>>, where: seq<nat>)
    requires IsOffsets(where, filters)
    ensures Words(Ends(filters)) == Words(where) + Fixed32(|Concat(filters)|)
  {
    OffsetBound(filters, |filters|);
    assert Ends(filters)[..|filters|] == where;
  }
}
