/**
  The compaction loop (DoCompactionWork in db/db_impl.cc) and its base-level test
  (Compaction::IsBaseLevelForKey in db/version_set.cc).
 */
module CompactionLoop {
  import opened Wrappers
  import opened Keys
  import opened VersionedMap
  import opened Versions

  // No file at level + 2 or deeper has the key in its range.
  ghost predicate IsBase(v: Version, level: nat, k: UserKey) {
    forall i, f :: level + 2 <= i < |v| && f in v[i] ==> !(f.smallest.user <= k <= f.largest.user)
  }

  // Rule (A): a newer entry of the same key is already visible to every live snapshot.
  ghost predicate Hidden(input: seq<Entry>, ss: nat, e: Entry) {
    exists x :: x in input && x.key.user == e.key.user && x.key.sn <= ss && Less(x.key, e.key)
  }

  ghost predicate ObsoleteTombstone(v: Version, level: nat, ss: nat, e: Entry) {
    e.key.kind.Deletion? && e.key.sn <= ss && IsBase(v, level, e.key.user)
  }

  ghost predicate Kept(v: Version, level: nat, input: seq<Entry>, ss: nat, e: Entry) {
    e in input && !Hidden(input, ss, e) && !ObsoleteTombstone(v, level, ss, e)
  }

  class Compaction {
    const version: Version
    const level: nat
    // level_ptrs_: how far the search of each deeper level has advanced.
    var levelPtrs: seq<nat>

    // Files left of a pointer end before every key from `key` on.
    ghost predicate Ready(key: UserKey)
      reads this
    {
      && Wf(version) && level + 1 < NUM_LEVELS && |levelPtrs| == NUM_LEVELS
      && forall i :: level + 2 <= i < NUM_LEVELS ==>
           levelPtrs[i] <= |version[i]| &&
           forall j :: 0 <= j < levelPtrs[i] ==> version[i][j].largest.user < key
    }

    constructor (version: Version, level: nat)
      requires Wf(version) && level + 1 < NUM_LEVELS
      ensures this.version == version && this.level == level
      ensures forall key :: Ready(key)
    {
      this.version, this.level := version, level;
      levelPtrs := seq(NUM_LEVELS, _ => 0);
    }

    lemma ReadyLater(key: UserKey, later: UserKey)
      requires Ready(key) && key <= later
      ensures Ready(later)
    {
    }

    // The monotone cursors answer as a full scan would, for keys asked about in ascending order.
    method IsBaseLevelForKey(key: UserKey) returns (base: bool)
      requires Ready(key)
      modifies this
      ensures Ready(key)
      ensures base <==> IsBase(version, level, key)
    {
      for lvl := level + 2 to NUM_LEVELS
        invariant Ready(key)
        invariant forall i, f :: level + 2 <= i < lvl && f in version[i] ==> !(f.smallest.user <= key <= f.largest.user)
      {
        var files := version[lvl];
        while levelPtrs[lvl] < |files|
          invariant Ready(key)
          decreases |files| - levelPtrs[lvl]
        {
          var f := files[levelPtrs[lvl]];
          assert f in version[lvl];
          if key <= f.largest.user {
            if key >= f.smallest.user {
              return false;
            }
            LaterFilesPast(files, levelPtrs[lvl], key);
            break;
          }
          levelPtrs := levelPtrs[lvl := levelPtrs[lvl] + 1];
        }
      }
      base := true;
    }
  }

  lemma LaterFilesPast(files: seq<File>, i: nat, key: UserKey)
    requires SortedDisjoint(files) && (forall f :: f in files ==> WfFile(f))
    requires i < |files| && key < files[i].smallest.user
    ensures forall j :: i <= j < |files| ==> key < files[j].smallest.user
  {
    var f := files[i];
    assert f in files;
    EntryInRange(f, f.entries[0]);
  }

  // The outputs hold exactly the surviving entries among the first i.
  ghost predicate Emitted(v: Version, level: nat, input: seq<Entry>, ss: nat, i: nat, outputs: seq<File>, builder: seq<Entry>)
    requires i <= |input|
  {
    forall e :: InLevel(outputs, e) || e in builder <==> exists j :: 0 <= j < i && input[j] == e && Kept(v, level, input, ss, e)
  }

  lemma Emit(v: Version, level: nat, input: seq<Entry>, ss: nat, i: nat, outputs: seq<File>, builder: seq<Entry>)
    requires i < |input| && Emitted(v, level, input, ss, i, outputs, builder)
    ensures Emitted(v, level, input, ss, i + 1, outputs,
                    if Kept(v, level, input, ss, input[i]) then builder + [input[i]] else builder)
  {
  }

  lemma EmitFinished(v: Version, level: nat, input: seq<Entry>, ss: nat, i: nat, outputs: seq<File>, builder: seq<Entry>, r: seq<File>)
    requires i <= |input| && Emitted(v, level, input, ss, i, outputs, builder)
    requires forall e :: InLevel(r, e) <==> InLevel(outputs, e) || e in builder
    ensures Emitted(v, level, input, ss, i, r, [])
  {
  }

  lemma AllEmitted(v: Version, level: nat, input: seq<Entry>, ss: nat, outputs: seq<File>)
    requires Emitted(v, level, input, ss, |input|, outputs, [])
    ensures forall e :: InLevel(outputs, e) <==> Kept(v, level, input, ss, e)
  {
  }

  ghost predicate Numbered(outputs: seq<File>, base: nat) {
    forall i :: 0 <= i < |outputs| ==> outputs[i].number == base + i
  }

  // Rule (A), and the obsolete tombstone rule behind it.
  method ShouldDrop(c: Compaction, ghost input: seq<Entry>, i: nat, smallestSnapshot: nat, lastSequenceForKey: nat, e: Entry)
    returns (drop: bool)
    requires i < |input| && input[i] == e && c.Ready(e.key.user)
    requires lastSequenceForKey <= smallestSnapshot <==> Hidden(input, smallestSnapshot, e)
    modifies c
    ensures c.Ready(e.key.user)
    ensures drop <==> !Kept(c.version, c.level, input, smallestSnapshot, e)
  {
    drop := false;
    if lastSequenceForKey <= smallestSnapshot {
      drop := true;
    } else if e.key.kind.Deletion? && e.key.sn <= smallestSnapshot {
      drop := c.IsBaseLevelForKey(e.key.user);
    }
  }

  // What holds when the first i input entries are behind the loop.
  ghost predicate Progress(v: Version, level: nat, input: seq<Entry>, ss: nat, base: nat,
                           i: nat, outputs: seq<File>, builder: seq<Entry>, next: nat) {
    && i <= |input|
    && next == base + |outputs|
    && Numbered(outputs, base)
    && BuiltSoFar(outputs, builder, input[i..])
    && Emitted(v, level, input, ss, i, outputs, builder)
  }

  lemma Advance(v: Version, level: nat, input: seq<Entry>, ss: nat, base: nat, i: nat, outputs: seq<File>, builder: seq<Entry>, next: nat)
    requires Progress(v, level, input, ss, base, i, outputs, builder, next) && i < |input|
    ensures Progress(v, level, input, ss, base, i + 1, outputs,
                     if Kept(v, level, input, ss, input[i]) then builder + [input[i]] else builder, next)
  {
    Emit(v, level, input, ss, i, outputs, builder);
    TakeOrSkip(outputs, builder, input[i], input[i..], input[i + 1..]);
  }

  // DoCompactionWork.  `input` is what the merging iterator over the input files yields.  Where
  // an output file ends depends on sizes; any choice is allowed here.
  method DoCompactionWork(c: Compaction, input: seq<Entry>, smallestSnapshot: nat, nextFile: nat)
    returns (outputs: seq<File>, next: nat)
    requires forall key :: c.Ready(key)
    requires Sorted(input) && forall e :: e in input ==> e.key.sn < MAX_SEQUENCE
    requires smallestSnapshot < MAX_SEQUENCE
    modifies c
    ensures forall e :: InLevel(outputs, e) <==> Kept(c.version, c.level, input, smallestSnapshot, e)
    ensures SortedDisjoint(outputs) && forall f :: f in outputs ==> WfFile(f)
    ensures next == nextFile + |outputs| && Numbered(outputs, nextFile)
  {
    hide Progress, Kept, Hidden, Compaction.Ready, SortedDisjoint, WfFile, Numbered, InLevel;
    outputs, next := [], nextFile;
    NothingDone(c.version, c.level, input, smallestSnapshot, nextFile);
    var builder: seq<Entry> := [];
    var currentUserKey: Option<UserKey> := None;
    var lastSequenceForKey := MAX_SEQUENCE;
    for i := 0 to |input|
      invariant i < |input| ==> c.Ready(input[i].key.user)
      invariant if i == 0 then currentUserKey.None?
                else currentUserKey == Some(input[i - 1].key.user) && lastSequenceForKey == input[i - 1].key.sn
      invariant Progress(c.version, c.level, input, smallestSnapshot, nextFile, i, outputs, builder, next)
    {
      var e := input[i];
      var stopBefore: bool := *;
      if stopBefore && builder != [] {
        outputs, next := FinishOutputFile(outputs, builder, next, c.version, c.level, input, smallestSnapshot, nextFile, i);
        builder := [];
      }
      if currentUserKey != Some(e.key.user) {
        currentUserKey := Some(e.key.user);
        lastSequenceForKey := MAX_SEQUENCE;
      }
      HiddenByPrevious(input, smallestSnapshot, i);
      var drop := ShouldDrop(c, input, i, smallestSnapshot, lastSequenceForKey, e);
      lastSequenceForKey := e.key.sn;
      if i + 1 < |input| {
        c.ReadyLater(e.key.user, input[i + 1].key.user);
      }
      Advance(c.version, c.level, input, smallestSnapshot, nextFile, i, outputs, builder, next);
      if !drop {
        builder := builder + [e];
        var bigEnough: bool := *;
        if bigEnough {
          outputs, next := FinishOutputFile(outputs, builder, next, c.version, c.level, input, smallestSnapshot, nextFile, i + 1);
          builder := [];
        }
      }
    }
    if builder != [] {
      outputs, next := FinishOutputFile(outputs, builder, next, c.version, c.level, input, smallestSnapshot, nextFile, |input|);
    }
    AllDone(c.version, c.level, input, smallestSnapshot, nextFile, outputs, next);
  }

  lemma NothingDone(v: Version, level: nat, input: seq<Entry>, ss: nat, base: nat)
    requires Sorted(input) && forall e :: e in input ==> e.key.sn < MAX_SEQUENCE
    ensures Progress(v, level, input, ss, base, 0, [], [], base)
  {
    assert input[0..] == input;
  }

  lemma AllDone(v: Version, level: nat, input: seq<Entry>, ss: nat, base: nat, outputs: seq<File>, next: nat)
    requires Progress(v, level, input, ss, base, |input|, outputs, [], next)
    ensures forall e :: InLevel(outputs, e) <==> Kept(v, level, input, ss, e)
    ensures SortedDisjoint(outputs) && forall f :: f in outputs ==> WfFile(f)
    ensures next == base + |outputs| && Numbered(outputs, base)
  {
    AllEmitted(v, level, input, ss, outputs);
  }

  // Finished files and the open one are sorted, and end before what is still to come.
  ghost predicate BuiltSoFar(outputs: seq<File>, builder: seq<Entry>, rest: seq<Entry>) {
    && SortedDisjoint(outputs)
    && (forall f :: f in outputs ==> WfFile(f))
    && (forall f, x :: f in outputs && (x in builder || x in rest) ==> Less(f.largest, x.key))
    && Sorted(builder + rest)
    && (forall x :: x in builder || x in rest ==> x.key.sn < MAX_SEQUENCE)
  }

  lemma TakeOrSkip(outputs: seq<File>, builder: seq<Entry>, e: Entry, rest: seq<Entry>, rest': seq<Entry>)
    requires BuiltSoFar(outputs, builder, rest) && rest == [e] + rest'
    ensures BuiltSoFar(outputs, builder + [e], rest')
    ensures BuiltSoFar(outputs, builder, rest')
  {
    assert builder + [e] + rest' == builder + rest;
    assert e in rest && forall x :: x in rest' ==> x in rest;
    var all := builder + rest;
    forall i, j | 0 <= i < j < |builder + rest'| ensures Less((builder + rest')[i].key, (builder + rest')[j].key) {
      var i' := if i < |builder| then i else i + 1;
      var j' := if j < |builder| then j else j + 1;
      assert Less(all[i'].key, all[j'].key);
    }
  }

  // FinishCompactionOutputFile: the open table becomes an output file.
  method FinishOutputFile(outputs: seq<File>, builder: seq<Entry>, next: nat,
                          ghost v: Version, ghost level: nat, ghost input: seq<Entry>, ghost ss: nat, ghost base: nat, ghost i: nat)
    returns (r: seq<File>, next': nat)
    requires builder != [] && Progress(v, level, input, ss, base, i, outputs, builder, next)
    ensures Progress(v, level, input, ss, base, i, r, [], next')
    ensures |r| == |outputs| + 1 && r[..|outputs|] == outputs && r[|outputs|].entries == builder
  {
    var size: nat := *;
    var f := File(next, size, builder[0].key, builder[|builder| - 1].key, builder);
    r, next' := outputs + [f], next + 1;
    TableFinished(outputs, builder, f, input[i..]);
    InLevelAppend(outputs, f);
    EmitFinished(v, level, input, ss, i, outputs, builder, r);
  }

  lemma TableFinished(outputs: seq<File>, builder: seq<Entry>, f: File, rest: seq<Entry>)
    requires builder != [] && BuiltSoFar(outputs, builder, rest)
    requires f.entries == builder && f.smallest == builder[0].key && f.largest == builder[|builder| - 1].key
    ensures BuiltSoFar(outputs + [f], [], rest)
  {
    SortedSplit(builder, rest);
    assert [] + rest == rest;
    assert builder[0] in builder && builder[|builder| - 1] in builder;
    assert WfFile(f);
    forall g | g in outputs ensures Less(g.largest, f.smallest) {}
    assert forall g, x :: g in outputs + [f] && x in rest ==> Less(g.largest, x.key);
  }

  lemma SortedSplit(a: seq<Entry>, b: seq<Entry>)
    requires Sorted(a + b)
    ensures Sorted(a) && Sorted(b)
    ensures forall x, y :: x in a && y in b ==> Less(x.key, y.key)
  {
    var all := a + b;
    assert forall i :: 0 <= i < |a| ==> all[i] == a[i];
    assert forall i :: 0 <= i < |b| ==> all[|a| + i] == b[i];
  }

  lemma InLevelAppend(files: seq<File>, f: File)
    ensures forall e :: InLevel(files + [f], e) <==> InLevel(files, e) || e in f.entries
  {
    forall e ensures InLevel(files + [f], e) <==> InLevel(files, e) || e in f.entries {
      if InLevel(files, e) {
        var g :| g in files && e in g.entries;
        assert g in files + [f];
      }
      assert f in files + [f];
    }
  }

  // In a sorted run, rule (A) needs to look at the previous entry only.
  lemma HiddenByPrevious(input: seq<Entry>, ss: nat, i: nat)
    requires Sorted(input) && i < |input|
    ensures Hidden(input, ss, input[i]) <==>
              i > 0 && input[i - 1].key.user == input[i].key.user && input[i - 1].key.sn <= ss
  {
    if x :| x in input && x.key.user == input[i].key.user && x.key.sn <= ss && Less(x.key, input[i].key) {
      var j :| 0 <= j < |input| && input[j] == x;
      assert j < i;
      assert j < i - 1 ==> Less(input[j].key, input[i - 1].key);
      assert Less(input[i - 1].key, input[i].key);
    }
  }
}
