// db/db_impl.cpp DoCompactionWork and db/version_set.cpp Compaction::IsBaseLevelForKey:
// which entries a compaction may drop, and why no read can notice.
module Compaction {
  import opened Options
  import opened Ordering
  import opened Entries

  // The user-key range of a table file (FileMetaData).
  datatype FileRange<+K> = FileRange(smallest: K, largest: K)

  predicate InFile<K>(c: Comparator<K>, f: FileRange<K>, k: K) {
    Le(c, f.smallest, k) && Le(c, k, f.largest)
  }

  // A level above 0: files in key order. Two neighbours may share a boundary user key,
  // because an output file may be closed between two versions of it.
  ghost predicate SortedLevel<K>(c: Comparator<K>, files: seq<FileRange<K>>) {
    && (forall i :: 0 <= i < |files| ==> Le(c, files[i].smallest, files[i].largest))
    && (forall i, j :: 0 <= i < j < |files| ==> Le(c, files[i].largest, files[j].smallest))
  }

  // Some file of a level strictly deeper than the compaction output may hold k.
  ghost predicate Covered<K>(c: Comparator<K>, levels: seq<seq<FileRange<K>>>, k: K) {
    exists l, i :: 0 <= l < |levels| && 0 <= i < |levels[l]| && InFile(c, levels[l][i], k)
  }

  // Rule (A): a newer entry of the same user key is itself old enough for every snapshot.
  ghost predicate Hidden<K, V>(input: seq<Entry<K, V>>, i: nat, smallest: nat)
    requires i < |input|
  {
    exists j :: 0 <= j < i && input[j].key == input[i].key && input[j].seqno <= smallest
  }

  ghost predicate Dropped<K, V>(c: Comparator<K>, input: seq<Entry<K, V>>, i: nat, smallest: nat,
                                levels: seq<seq<FileRange<K>>>)
    requires i < |input|
  {
    || Hidden(input, i, smallest)
    || (input[i].kind == Deletion && input[i].seqno <= smallest && !Covered(c, levels, input[i].key))
  }

  ghost function Kept<K, V>(c: Comparator<K>, input: seq<Entry<K, V>>, n: nat, smallest: nat,
                            levels: seq<seq<FileRange<K>>>): seq<Entry<K, V>>
    requires n <= |input|
  {
    if n == 0 then [] else
    var rest := Kept(c, input, n - 1, smallest, levels);
    if Dropped(c, input, n - 1, smallest, levels) then rest else rest + [input[n - 1]]
  }

  lemma {:induction false} KeptMembers<K, V>(c: Comparator<K>, input: seq<Entry<K, V>>, n: nat, smallest: nat,
                           levels: seq<seq<FileRange<K>>>, e: Entry<K, V>)
    requires n <= |input|
    ensures e in Kept(c, input, n, smallest, levels)
       <==> exists i :: 0 <= i < n && input[i] == e && !Dropped(c, input, i, smallest, levels)
  {
    if n > 0 {
      KeptMembers(c, input, n - 1, smallest, levels, e);
      if input[n - 1] == e && !Dropped(c, input, n - 1, smallest, levels) {
      }
    }
  }

  // The newest candidate in the input is never hidden; if it is dropped, it is a deletion
  // below which nothing of the key survives.
  lemma DroppedNewest<K(!new), V(!new)>(
      c: Comparator<K>, input: seq<Entry<K, V>>, smallest: nat, levels: seq<seq<FileRange<K>>>,
      deeper: set<Entry<K, V>>, k: K, snap: nat, m: Entry<K, V>)
    requires TotalOrder(c) && SortedEntries(c, input)
    requires forall e :: e in deeper ==> Covered(c, levels, e.key)
    requires snap >= smallest
    requires IsNewest(SetOf(input) + deeper, k, snap, m)
    requires m !in SetOf(Kept(c, input, |input|, smallest, levels)) + deeper
    ensures m.kind == Deletion
    ensures forall e :: e in SetOf(Kept(c, input, |input|, smallest, levels)) + deeper ==> !Candidate(e, k, snap)
    ensures forall e :: IsNewest(SetOf(input) + deeper, k, snap, e) ==> e == m
  {
    var i :| 0 <= i < |input| && input[i] == m;
    KeptMembers(c, input, |input|, smallest, levels, m);
    assert Dropped(c, input, i, smallest, levels);
    forall j | 0 <= j < |input| && Candidate(input[j], k, snap)
      ensures j >= i
    {
      assert input[j] in SetOf(input) + deeper;
      VersionOrder(c, input, i, j);
    }
    assert !Hidden(input, i, smallest);
    assert forall e :: e in deeper ==> !Candidate(e, k, snap);
    forall j | 0 <= j < |input| && Candidate(input[j], k, snap)
      ensures Dropped(c, input, j, smallest, levels)
    {
      assert j > i ==> Hidden(input, j, smallest);
    }
    forall e | e in SetOf(Kept(c, input, |input|, smallest, levels))
      ensures !Candidate(e, k, snap)
    {
      KeptMembers(c, input, |input|, smallest, levels, e);
    }
    forall e | IsNewest(SetOf(input) + deeper, k, snap, e)
      ensures e == m
    {
      assert e !in deeper;
      var j :| 0 <= j < |input| && input[j] == e;
      VersionOrder(c, input, i, j);
    }
  }

  lemma KeptSubset<K, V>(c: Comparator<K>, input: seq<Entry<K, V>>, smallest: nat, levels: seq<seq<FileRange<K>>>)
    ensures SetOf(Kept(c, input, |input|, smallest, levels)) <= SetOf(input)
  {
    forall e | e in SetOf(Kept(c, input, |input|, smallest, levels)) ensures e in SetOf(input) {
      KeptMembers(c, input, |input|, smallest, levels, e);
    }
  }

  // The kept entries with the deeper levels read like all entries with the deeper levels,
  // at every snapshot the compaction must respect.
  lemma CompactionPreservesReads<K(!new), V(!new)>(
      c: Comparator<K>, input: seq<Entry<K, V>>, smallest: nat, levels: seq<seq<FileRange<K>>>,
      deeper: set<Entry<K, V>>, k: K, snap: nat, v: V)
    requires TotalOrder(c) && SortedEntries(c, input)
    requires forall e :: e in deeper ==> Covered(c, levels, e.key)
    requires snap >= smallest
    ensures Reads(SetOf(input) + deeper, k, snap, v)
       <==> Reads(SetOf(Kept(c, input, |input|, smallest, levels)) + deeper, k, snap, v)
  {
    var all := SetOf(input) + deeper;
    var kept := SetOf(Kept(c, input, |input|, smallest, levels)) + deeper;
    KeptSubset(c, input, smallest, levels);
    assert kept <= all;
    if o :| o in all && Candidate(o, k, snap) {
      var m := NewestExists(all, k, snap, o);
      if m in kept {
        assert IsNewest(kept, k, snap, m);
        assert forall e :: e in kept && IsNewest(kept, k, snap, e) ==> IsNewest(all, k, snap, e);
        assert forall e :: e in kept && IsNewest(all, k, snap, e) ==> IsNewest(kept, k, snap, e);
        if Reads(all, k, snap, v) {
          var e :| e in all && IsNewest(all, k, snap, e) && e.kind == Value && e.value == v;
          if e !in kept {
            DroppedNewest(c, input, smallest, levels, deeper, k, snap, e);
          }
        }
      } else {
        DroppedNewest(c, input, smallest, levels, deeper, k, snap, m);
      }
    }
  }

  lemma {:induction false} KeptSorted<K(!new), V(!new)>(
      c: Comparator<K>, input: seq<Entry<K, V>>, n: nat, smallest: nat, levels: seq<seq<FileRange<K>>>)
    requires TotalOrder(c) && SortedEntries(c, input) && n <= |input|
    ensures SortedEntries(c, Kept(c, input, n, smallest, levels))
    ensures n < |input| ==> forall e :: e in Kept(c, input, n, smallest, levels) ==> EntryLt(c, e, input[n])
  {
    if n > 0 {
      KeptSorted(c, input, n - 1, smallest, levels);
      if n < |input| {
        forall e | e in Kept(c, input, n, smallest, levels) ensures EntryLt(c, e, input[n]) {
          KeptMembers(c, input, n, smallest, levels, e);
        }
      }
    }
  }

  ghost predicate CoveredIn<K>(c: Comparator<K>, files: seq<FileRange<K>>, k: K) {
    exists i :: 0 <= i < |files| && InFile(c, files[i], k)
  }

  // A level's cursor: all files before it end before the last key asked for.
  ghost predicate PtrOk<K>(c: Comparator<K>, files: seq<FileRange<K>>, ptr: nat, last: Option<K>) {
    ptr <= |files| && forall i :: 0 <= i < ptr ==> last.Some? && Lt(c, files[i].largest, last.value)
  }

  lemma PtrKept<K(!new)>(c: Comparator<K>, files: seq<FileRange<K>>, ptr: nat, last: Option<K>, k: K)
    requires TotalOrder(c) && PtrOk(c, files, ptr, last) && (last.Some? ==> Le(c, last.value, k))
    ensures PtrOk(c, files, ptr, Some(k))
  {
    assert last.Some? && Compare(c, last.value, k) == 0 ==> last.value == k;
  }

  lemma PtrMoves<K(!new)>(c: Comparator<K>, files: seq<FileRange<K>>, ptr: nat, k: K)
    requires TotalOrder(c) && PtrOk(c, files, ptr, Some(k)) && ptr < |files| && !Le(c, k, files[ptr].largest)
    ensures PtrOk(c, files, ptr + 1, Some(k))
  {
  }

  // Where the cursor stops decides.
  lemma PtrDecides<K(!new)>(c: Comparator<K>, files: seq<FileRange<K>>, ptr: nat, k: K)
    requires TotalOrder(c) && SortedLevel(c, files) && PtrOk(c, files, ptr, Some(k))
    requires ptr < |files| ==> Le(c, k, files[ptr].largest)
    ensures CoveredIn(c, files, k) <==> ptr < |files| && Le(c, files[ptr].smallest, k)
  {
    if ptr < |files| && Le(c, files[ptr].smallest, k) {
      assert InFile(c, files[ptr], k);
    }
    forall i | 0 <= i < |files| && InFile(c, files[i], k) ensures ptr <= i && Le(c, files[ptr].smallest, k) {
      assert Compare(c, files[i].largest, k) < 0 <==> Compare(c, k, files[i].largest) > 0;
      if ptr < i {
        LeChain(c, files[ptr].smallest, files[ptr].largest, files[i].smallest);
        LeChain(c, files[ptr].smallest, files[i].smallest, k);
      }
    }
  }

  lemma LeChain<K(!new)>(c: Comparator<K>, x: K, y: K, z: K)
    requires TotalOrder(c) && Le(c, x, y) && Le(c, y, z)
    ensures Le(c, x, z)
  {
    assert Compare(c, x, y) == 0 ==> x == y;
    assert Compare(c, y, z) == 0 ==> y == z;
  }

  // Compaction: the deeper levels (level_ + 2 and below) with one monotone cursor per level.
  class Compaction<K(!new, ==)> {
    const c: Comparator<K>
    const levels: seq<seq<FileRange<K>>>
    const levelPtrs: array<nat>
    ghost var lastKey: Option<K>

    ghost predicate Valid()
      reads this, levelPtrs
    {
      && TotalOrder(c)
      && (forall l :: 0 <= l < |levels| ==> SortedLevel(c, levels[l]))
      && levelPtrs.Length == |levels|
      && (forall l :: 0 <= l < |levels| ==> PtrOk(c, levels[l], levelPtrs[l], lastKey))
    }

    ghost predicate MayAsk(k: K)
      reads this
    {
      lastKey.None? || Le(c, lastKey.value, k)
    }

    constructor (c: Comparator<K>, levels: seq<seq<FileRange<K>>>)
      requires TotalOrder(c)
      requires forall l :: 0 <= l < |levels| ==> SortedLevel(c, levels[l])
      ensures Valid() && fresh(levelPtrs) && this.c == c && this.levels == levels && lastKey == None
    {
      this.c := c;
      this.levels := levels;
      this.levelPtrs := new nat[|levels|](_ => 0);
      this.lastKey := None;
    }

    // Asked with non-decreasing keys, the cursors answer exactly "no deeper file covers k".
    method IsBaseLevelForKey(k: K) returns (base: bool)
      requires Valid() && MayAsk(k)
      modifies this, levelPtrs
      ensures Valid() && lastKey == Some(k)
      ensures base <==> !Covered(c, levels, k)
    {
      hide TotalOrder, SortedLevel, PtrOk, CoveredIn, Le;
      forall l | 0 <= l < |levels| ensures PtrOk(c, levels[l], levelPtrs[l], Some(k)) {
        PtrKept(c, levels[l], levelPtrs[l], lastKey, k);
      }
      lastKey := Some(k);
      var lvl := 0;
      while lvl < |levels|
        invariant 0 <= lvl <= |levels|
        invariant Valid() && lastKey == Some(k)
        invariant forall l :: 0 <= l < lvl ==> !CoveredIn(c, levels[l], k)
      {
        var covers := SearchLevel(lvl, k);
        if covers {
          CoveredSomewhere(k, lvl);
          return false;
        }
        lvl := lvl + 1;
      }
      CoveredNowhere(k);
      return true;
    }

    // One level's turn: its cursor moves past the files that end before k.
    method SearchLevel(lvl: nat, k: K) returns (covers: bool)
      requires Valid() && lastKey == Some(k) && lvl < |levels|
      modifies levelPtrs
      ensures Valid() && covers == CoveredIn(c, levels[lvl], k)
    {
      hide TotalOrder, SortedLevel, PtrOk, CoveredIn, Le;
      var files := levels[lvl];
      while levelPtrs[lvl] < |files|
        invariant Valid()
        decreases |files| - levelPtrs[lvl]
      {
        var f := files[levelPtrs[lvl]];
        if Le(c, k, f.largest) {
          PtrDecides(c, files, levelPtrs[lvl], k);
          return Le(c, f.smallest, k);
        }
        PtrMoves(c, files, levelPtrs[lvl], k);
        levelPtrs[lvl] := levelPtrs[lvl] + 1;
      }
      PtrDecides(c, files, levelPtrs[lvl], k);
      return false;
    }

    lemma CoveredSomewhere(k: K, l: nat)
      requires l < |levels| && CoveredIn(c, levels[l], k)
      ensures Covered(c, levels, k)
    {
    }

    lemma CoveredNowhere(k: K)
      requires forall l :: 0 <= l < |levels| ==> !CoveredIn(c, levels[l], k)
      ensures !Covered(c, levels, k)
    {
    }
  }

  // CompactionState::Output, with the entries its table was given.
  datatype Output<+K, +V> = Output(smallest: Option<Entry<K, V>>, largest: Option<Entry<K, V>>,
                                   entries: seq<Entry<K, V>>)

  ghost function Contents<K, V>(outputs: seq<Output<K, V>>): seq<Entry<K, V>> {
    if |outputs| == 0 then [] else Contents(outputs[..|outputs| - 1]) + outputs[|outputs| - 1].entries
  }

  // A finished output file: not empty, and its metadata bounds are its end entries.
  ghost predicate WellBounded<K, V>(o: Output<K, V>)
  {
    && |o.entries| > 0
    && o.smallest == Some(o.entries[0])
    && o.largest == Some(o.entries[|o.entries| - 1])
  }

  // What has been written for the first i entries; the last output is open while building.
  ghost predicate Written<K(!new), V>(c: Comparator<K>, input: seq<Entry<K, V>>, i: nat, smallest: nat, levels: seq<seq<FileRange<K>>>,
                                      outputs: seq<Output<K, V>>, building: bool)
    requires i <= |input|
  {
    && (building ==> |outputs| > 0)
    && (forall j :: 0 <= j < |outputs| ==> WellBounded(outputs[j]))
    && Contents(outputs) == KeptAt(c, input, i, smallest, levels)
  }

  // The sentinel for a key not met yet is not above a bound of the greatest number: then the loop
  // drops everything.
  ghost function KeptAt<K, V>(c: Comparator<K>, input: seq<Entry<K, V>>, i: nat, smallest: nat, levels: seq<seq<FileRange<K>>>): seq<Entry<K, V>>
    requires i <= |input|
  {
    if smallest < MAX_SEQUENCE then Kept(c, input, i, smallest, levels) else []
  }

  ghost predicate NumbersOk<K, V>(input: seq<Entry<K, V>>) {
    forall i :: 0 <= i < |input| ==> input[i].seqno <= MAX_SEQUENCE
  }

  // The loop's memory of the entry before i.
  ghost predicate Remembers<K(!new), V>(input: seq<Entry<K, V>>, i: nat, currentUserKey: Option<K>, lastSequenceForKey: nat)
    requires i <= |input|
  {
    if i == 0 then currentUserKey == None
    else currentUserKey == Some(input[i - 1].key) && lastSequenceForKey == input[i - 1].seqno
  }

  // The deeper levels may still be asked about every key from entry i on.
  ghost predicate MayAskFrom<K(!new), V>(c: Comparator<K>, last: Option<K>, input: seq<Entry<K, V>>, i: nat) {
    last.Some? ==> forall j :: i <= j < |input| ==> Le(c, last.value, input[j].key)
  }

  // The loop's decision about entry i.
  method Drops<K(!new, ==), V(!new, ==)>(compaction: Compaction<K>, input: seq<Entry<K, V>>, i: nat, smallestSnapshot: nat,
                                         currentUserKey: Option<K>, lastSequenceForKey: nat)
    returns (drop: bool)
    requires compaction.Valid() && i < |input| && SortedEntries(compaction.c, input) && NumbersOk(input)
    requires MayAskFrom(compaction.c, compaction.lastKey, input, i) && Remembers(input, i, currentUserKey, lastSequenceForKey)
    modifies compaction, compaction.levelPtrs
    ensures compaction.Valid() && MayAskFrom(compaction.c, compaction.lastKey, input, i + 1)
    ensures drop <==> smallestSnapshot >= MAX_SEQUENCE || Dropped(compaction.c, input, i, smallestSnapshot, compaction.levels)
  {
    var c := compaction.c;
    assert TotalOrder(c);
    var ikey := input[i];
    var lastSequence := lastSequenceForKey;
    if currentUserKey == None || Compare(c, ikey.key, currentUserKey.value) != 0 {
      lastSequence := MAX_SEQUENCE;
    }
    HiddenByPredecessor(c, input, i, smallestSnapshot);
    KeysAscend(c, input, i);
    hide TotalOrder, SortedEntries, Compaction.Valid, Covered, Hidden;
    if lastSequence <= smallestSnapshot {
      return true;
    }
    if ikey.kind == Deletion && ikey.seqno <= smallestSnapshot {
      var base := compaction.IsBaseLevelForKey(ikey.key);
      return base;
    }
    return false;
  }

  // The entry goes to the open output, or to a new one.
  method AddToOutput<K(!new, ==), V(!new, ==)>(outputs: seq<Output<K, V>>, building: bool, ikey: Entry<K, V>) returns (more: seq<Output<K, V>>)
    requires (building ==> |outputs| > 0) && forall j :: 0 <= j < |outputs| ==> WellBounded(outputs[j])
    ensures |more| > 0 && (forall j :: 0 <= j < |more| ==> WellBounded(more[j]))
    ensures Contents(more) == Contents(outputs) + [ikey]
  {
    hide WellBounded, Contents;
    if !building {
      more := outputs + [Output(Some(ikey), Some(ikey), [ikey])];
      Opened(outputs, ikey);
    } else {
      var out := outputs[|outputs| - 1];
      more := outputs[|outputs| - 1 := out.(largest := Some(ikey), entries := out.entries + [ikey])];
      Grown(outputs, ikey);
    }
  }

  // The compaction loop. Where an output is cut (grandparent overlap, file size) and where
  // file operations fail or shutdown is seen is left open; only a run with ok is installed.
  method DoCompactionWork<K(!new, ==), V(!new, ==)>(
      compaction: Compaction<K>, input: seq<Entry<K, V>>, smallestSnapshot: nat)
    returns (ok: bool, outputs: seq<Output<K, V>>)
    requires compaction.Valid() && compaction.lastKey == None
    requires SortedEntries(compaction.c, input) && NumbersOk(input)
    modifies compaction, compaction.levelPtrs
    ensures ok ==> forall o :: o in outputs ==> WellBounded(o)
    ensures ok && smallestSnapshot < MAX_SEQUENCE ==>
              Contents(outputs) == Kept(compaction.c, input, |input|, smallestSnapshot, compaction.levels)
    ensures ok && smallestSnapshot >= MAX_SEQUENCE ==> outputs == []
  {
    var c, levels := compaction.c, compaction.levels;
    NothingWritten(c, input, smallestSnapshot, levels);
    hide SortedEntries, Compaction.Valid, Dropped, Written, Remembers, MayAskFrom;
    outputs := [];
    var building := false;
    var currentUserKey: Option<K> := None;
    var lastSequenceForKey := MAX_SEQUENCE;
    var i := 0;
    assert MayAskFrom(c, compaction.lastKey, input, 0) && Remembers(input, 0, currentUserKey, lastSequenceForKey) by {
      NothingAsked(c, input, lastSequenceForKey);
    }
    while i < |input|
      invariant 0 <= i <= |input| && compaction.Valid()
      invariant MayAskFrom(c, compaction.lastKey, input, i) && Remembers(input, i, currentUserKey, lastSequenceForKey)
      invariant Written(c, input, i, smallestSnapshot, levels, outputs, building)
    {
      var shuttingDown: bool := *;
      if shuttingDown {
        return false, outputs;
      }
      var ikey := input[i];
      var stopBefore: bool := *;
      if stopBefore && building {
        var finished: bool := *;
        if !finished {
          return false, outputs;
        }
        Closed(c, input, i, smallestSnapshot, levels, outputs);
        building := false;
      }

      var drop := Drops(compaction, input, i, smallestSnapshot, currentUserKey, lastSequenceForKey);
      currentUserKey := Some(ikey.key);
      lastSequenceForKey := ikey.seqno;
      Remembered(input, i);

      if drop {
        WrittenDropped(c, input, i, smallestSnapshot, levels, outputs, building);
      } else {
        if !building {
          var openedOk: bool := *;
          if !openedOk {
            return false, outputs;
          }
        }
        ghost var before := outputs;
        assert (building ==> |outputs| > 0) && forall j :: 0 <= j < |outputs| ==> WellBounded(outputs[j]) by {
          WrittenParts(c, input, i, smallestSnapshot, levels, outputs, building);
        }
        outputs := AddToOutput(outputs, building, ikey);
        WrittenKept(c, input, i, smallestSnapshot, levels, before, outputs, building);
        building := true;
        var big: bool := *;
        if big {
          var finished: bool := *;
          if !finished {
            return false, outputs;
          }
          Closed(c, input, i + 1, smallestSnapshot, levels, outputs);
          building := false;
        }
      }
      i := i + 1;
    }
    WrittenParts(c, input, i, smallestSnapshot, levels, outputs, building);
    NoOutputs(outputs);
    ok := *;
  }

  // Every output has entries.
  lemma NoOutputs<K, V>(outputs: seq<Output<K, V>>)
    requires forall o :: o in outputs ==> WellBounded(o)
    ensures Contents(outputs) == [] ==> outputs == []
  {
    if outputs != [] {
      assert outputs[|outputs| - 1] in outputs;
    }
  }

  lemma NothingWritten<K(!new), V>(c: Comparator<K>, input: seq<Entry<K, V>>, smallest: nat, levels: seq<seq<FileRange<K>>>)
    ensures Written(c, input, 0, smallest, levels, [], false)
  {
  }

  lemma NothingAsked<K(!new), V>(c: Comparator<K>, input: seq<Entry<K, V>>, lastSequence: nat)
    ensures MayAskFrom(c, None, input, 0) && Remembers(input, 0, None, lastSequence)
  {
  }

  lemma Remembered<K(!new), V>(input: seq<Entry<K, V>>, i: nat)
    requires i < |input|
    ensures Remembers(input, i + 1, Some(input[i].key), input[i].seqno)
  {
  }

  lemma Closed<K(!new), V>(c: Comparator<K>, input: seq<Entry<K, V>>, i: nat, smallest: nat, levels: seq<seq<FileRange<K>>>,
                           outputs: seq<Output<K, V>>)
    requires i <= |input| && Written(c, input, i, smallest, levels, outputs, true)
    ensures Written(c, input, i, smallest, levels, outputs, false)
  {
  }

  lemma WrittenParts<K(!new), V>(c: Comparator<K>, input: seq<Entry<K, V>>, i: nat, smallest: nat, levels: seq<seq<FileRange<K>>>,
                                 outputs: seq<Output<K, V>>, building: bool)
    requires i <= |input| && Written(c, input, i, smallest, levels, outputs, building)
    ensures (building ==> |outputs| > 0) && forall o :: o in outputs ==> WellBounded(o)
    ensures Contents(outputs) == KeptAt(c, input, i, smallest, levels)
  {
  }

  lemma WrittenDropped<K(!new), V>(c: Comparator<K>, input: seq<Entry<K, V>>, i: nat, smallest: nat, levels: seq<seq<FileRange<K>>>,
                                   outputs: seq<Output<K, V>>, building: bool)
    requires i < |input| && Written(c, input, i, smallest, levels, outputs, building)
    requires smallest >= MAX_SEQUENCE || Dropped(c, input, i, smallest, levels)
    ensures Written(c, input, i + 1, smallest, levels, outputs, building)
  {
    hide Dropped, WellBounded, Contents;
  }

  lemma WrittenKept<K(!new), V>(c: Comparator<K>, input: seq<Entry<K, V>>, i: nat, smallest: nat, levels: seq<seq<FileRange<K>>>,
                                outputs: seq<Output<K, V>>, more: seq<Output<K, V>>, building: bool)
    requires i < |input| && Written(c, input, i, smallest, levels, outputs, building)
    requires smallest < MAX_SEQUENCE && !Dropped(c, input, i, smallest, levels)
    requires |more| > 0 && (forall j :: 0 <= j < |more| ==> WellBounded(more[j])) && Contents(more) == Contents(outputs) + [input[i]]
    ensures Written(c, input, i + 1, smallest, levels, more, true)
  {
    hide Dropped, WellBounded, Contents;
  }

  lemma Opened<K, V>(outputs: seq<Output<K, V>>, e: Entry<K, V>)
    ensures var o := Output(Some(e), Some(e), [e]);
      WellBounded(o) && Contents(outputs + [o]) == Contents(outputs) + [e]
  {
    assert (outputs + [Output(Some(e), Some(e), [e])])[..|outputs|] == outputs;
  }

  lemma Grown<K, V>(outputs: seq<Output<K, V>>, e: Entry<K, V>)
    requires |outputs| > 0 && WellBounded(outputs[|outputs| - 1])
    ensures var last := outputs[|outputs| - 1]; var o := last.(largest := Some(e), entries := last.entries + [e]);
      WellBounded(o) && Contents(outputs[|outputs| - 1 := o]) == Contents(outputs) + [e]
  {
    var n := |outputs| - 1;
    var o := outputs[n].(largest := Some(e), entries := outputs[n].entries + [e]);
    assert outputs[n := o][..n] == outputs[..n];
  }

  lemma HiddenByPredecessor<K(!new), V(!new)>(c: Comparator<K>, input: seq<Entry<K, V>>, i: nat, smallest: nat)
    requires TotalOrder(c) && SortedEntries(c, input) && i < |input|
    ensures Hidden(input, i, smallest)
       <==> i > 0 && input[i - 1].key == input[i].key && input[i - 1].seqno <= smallest
  {
  }

  lemma KeysAscend<K(!new), V(!new)>(c: Comparator<K>, input: seq<Entry<K, V>>, i: nat)
    requires TotalOrder(c) && SortedEntries(c, input) && i < |input|
    ensures forall j :: i <= j < |input| ==> Le(c, input[i].key, input[j].key)
  {
  }

  // ---- Just what is needed is kept ----

  // A snapshot at which entry i is the newest one, if no snapshot from smallest on sees it hidden.
  lemma NewestSomewhere<K(!new), V(!new)>(c: Comparator<K>, input: seq<Entry<K, V>>, i: nat, smallest: nat)
    requires TotalOrder(c) && SortedEntries(c, input) && i < |input| && !Hidden(input, i, smallest)
    ensures IsNewest(SetOf(input), input[i].key, if smallest < input[i].seqno then input[i].seqno else smallest, input[i])
  {
    var e := input[i];
    var snap := if smallest < e.seqno then e.seqno else smallest;
    forall o | o in SetOf(input) && Candidate(o, e.key, snap) ensures o.seqno <= e.seqno {
      var j :| 0 <= j < |input| && input[j] == o;
      VersionOrder(c, input, j, i);
    }
  }

  lemma HiddenFromAll<K(!new), V(!new)>(c: Comparator<K>, input: seq<Entry<K, V>>, i: nat, smallest: nat, snap: nat)
    requires TotalOrder(c) && SortedEntries(c, input) && i < |input| && Hidden(input, i, smallest) && snap >= smallest
    ensures !IsNewest(SetOf(input), input[i].key, snap, input[i])
  {
    var j :| 0 <= j < i && input[j].key == input[i].key && input[j].seqno <= smallest;
    VersionOrder(c, input, j, i);
    assert input[j] in SetOf(input) && Candidate(input[j], input[i].key, snap);
  }

  lemma SameEntry<K(!new), V(!new)>(c: Comparator<K>, input: seq<Entry<K, V>>, i: nat, j: nat)
    requires TotalOrder(c) && SortedEntries(c, input) && i < |input| && j < |input| && input[i] == input[j]
    ensures i == j
  {
    VersionOrder(c, input, i, j);
  }

  // An entry is kept if and only if some snapshot from the smallest live one on has it as the
  // newest of its key, and it is not a deletion that all of them see and that has nothing deeper
  // to hide.
  lemma KeptExactly<K(!new), V(!new)>(c: Comparator<K>, input: seq<Entry<K, V>>, smallest: nat, levels: seq<seq<FileRange<K>>>, i: nat)
    requires TotalOrder(c) && SortedEntries(c, input) && i < |input|
    ensures input[i] in Kept(c, input, |input|, smallest, levels)
       <==> && (exists snap :: snap >= smallest && IsNewest(SetOf(input), input[i].key, snap, input[i]))
            && (input[i].kind == Deletion && input[i].seqno <= smallest ==>
                  exists l, j :: 0 <= l < |levels| && 0 <= j < |levels[l]|
                    && Compare(c, levels[l][j].smallest, input[i].key) <= 0 && Compare(c, input[i].key, levels[l][j].largest) <= 0)
  {
    hide IsNewest, TotalOrder, SortedEntries, Kept;
    KeptMembers(c, input, |input|, smallest, levels, input[i]);
    forall j | 0 <= j < |input| && input[j] == input[i] ensures j == i {
      SameEntry(c, input, i, j);
    }
    if Hidden(input, i, smallest) {
      forall snap | snap >= smallest ensures !IsNewest(SetOf(input), input[i].key, snap, input[i]) {
        HiddenFromAll(c, input, i, smallest, snap);
      }
    } else {
      NewestSomewhere(c, input, i, smallest);
    }
    CoveredMeans(c, levels, input[i].key);
  }

  lemma CoveredMeans<K>(c: Comparator<K>, levels: seq<seq<FileRange<K>>>, k: K)
    ensures Covered(c, levels, k)
       <==> exists l, j :: 0 <= l < |levels| && 0 <= j < |levels[l]|
              && Compare(c, levels[l][j].smallest, k) <= 0 && Compare(c, k, levels[l][j].largest) <= 0
  {
    forall l, j | 0 <= l < |levels| && 0 <= j < |levels[l]|
      ensures InFile(c, levels[l][j], k) <==> Compare(c, levels[l][j].smallest, k) <= 0 && Compare(c, k, levels[l][j].largest) <= 0
    {
    }
  }
}
