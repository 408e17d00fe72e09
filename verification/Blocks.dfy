// table/block_builder.cpp and table/block.cpp: prefix-compressed blocks with restart points.
module Blocks {
  import opened Options
  import opened Coding
  import opened ByteStrings

  datatype Pair = Pair(key: Bytes, value: Bytes)

  // starts lists the entries that are restart points, in a block of n entries.
  ghost predicate StartsOk(starts: seq<nat>, n: nat) {
    && |starts| > 0 && starts[0] == 0
    && (forall i, j :: 0 <= i < j < |starts| ==> starts[i] < starts[j])
    && (forall k :: 0 < k < |starts| ==> starts[k] < n)
  }

  // The bytes of its key an entry does not store: none at a restart point, else as many as
  // it has in common with the key before it.
  function Share(pairs: seq<Pair>, starts: seq<nat>, i: nat): (s: nat)
    requires i < |pairs|
    ensures s <= |pairs[i].key|
    ensures i > 0 ==> s <= |pairs[i - 1].key| && pairs[i - 1].key[..s] == pairs[i].key[..s]
    ensures i == 0 || i in starts ==> s == 0
  {
    if i == 0 || i in starts then 0 else CommonPrefix(pairs[i - 1].key, pairs[i].key, 0)
  }

  function EntryHeader(shared: nat, nonShared: nat, valueLength: nat): (s: Bytes)
    ensures |s| >= 3
  {
    Varint(shared) + Varint(nonShared) + Varint(valueLength)
  }

  function EntryBytes(shared: nat, p: Pair): (s: Bytes)
    requires shared <= |p.key|
    ensures |s| >= 3
  {
    EntryHeader(shared, |p.key| - shared, |p.value|) + p.key[shared..] + p.value
  }

  // The first n entries.
  function Data(pairs: seq<Pair>, starts: seq<nat>, n: nat): Bytes
    requires n <= |pairs|
  {
    if n == 0 then []
    else Data(pairs, starts, n - 1) + EntryBytes(Share(pairs, starts, n - 1), pairs[n - 1])
  }

  // Where entry i begins.
  function Offset(pairs: seq<Pair>, starts: seq<nat>, i: nat): nat
    requires i <= |pairs|
  {
    |Data(pairs, starts, i)|
  }

  function RestartArray(restarts: seq<nat>): Bytes {
    if |restarts| == 0 then [] else RestartArray(restarts[..|restarts| - 1]) + Fixed(restarts[|restarts| - 1], 4)
  }

  function RestartOffsets(pairs: seq<Pair>, starts: seq<nat>): (r: seq<nat>)
    requires forall k :: 0 <= k < |starts| ==> starts[k] <= |pairs|
    ensures |r| == |starts|
  {
    seq(|starts|, k requires 0 <= k < |starts| => Offset(pairs, starts, starts[k]))
  }

  // A finished block of these pairs with these restart points.
  ghost predicate LaidOut(contents: Bytes, pairs: seq<Pair>, starts: seq<nat>) {
    && StartsOk(starts, |pairs|)
    && contents == Data(pairs, starts, |pairs|) + RestartArray(RestartOffsets(pairs, starts)) + Fixed(|starts|, 4)
  }

  // One whose 32-bit offsets and sizes did not overflow.
  ghost predicate IsBlock(contents: Bytes, pairs: seq<Pair>, starts: seq<nat>) {
    LaidOut(contents, pairs, starts) && |contents| < TWO_32
  }

  lemma {:induction false} DataKept(pairs: seq<Pair>, starts: seq<nat>, more: seq<Pair>, starts': seq<nat>, n: nat)
    requires n <= |pairs| && pairs <= more
    requires forall i :: 0 <= i < n ==> (i in starts <==> i in starts')
    ensures Data(pairs, starts, n) == Data(more, starts', n)
  {
    if n > 0 {
      DataKept(pairs, starts, more, starts', n - 1);
    }
  }

  // Entry n joins the block, as a restart point or not; what was there stays.
  lemma AddedEntry(pairs: seq<Pair>, starts: seq<nat>, added: Pair, starts': seq<nat>)
    requires StartsOk(starts, |pairs|)
    requires starts' == starts || (|pairs| > 0 && starts' == starts + [|pairs|])
    ensures StartsOk(starts', |pairs| + 1)
    ensures var all := pairs + [added];
      && Data(all, starts', |all|) == Data(pairs, starts, |pairs|) + EntryBytes(Share(all, starts', |pairs|), added)
      && RestartOffsets(all, starts') == RestartOffsets(pairs, starts)
                                         + if starts' == starts then [] else [|Data(pairs, starts, |pairs|)|]
  {
    hide EntryBytes, Share;
    var all := pairs + [added];
    forall i: nat | i <= |pairs| ensures Data(all, starts', i) == Data(pairs, starts, i) {
      DataKept(pairs, starts, all, starts', i);
    }
    hide Data;
    assert |starts'| > |starts| ==> starts'[|starts|] == |pairs|;
    assert forall k :: 0 <= k < |starts| ==> starts'[k] == starts[k] <= |pairs|;
    assert forall k :: 0 <= k < |starts| ==> RestartOffsets(all, starts')[k] == RestartOffsets(pairs, starts)[k];
  }

  lemma Regroup(a: Bytes, b: Bytes, c: Bytes, d: Bytes)
    ensures a + b + c + d == a + (b + c + d)
  {
  }

  lemma ShareOfAdded(pairs: seq<Pair>, starts: seq<nat>, added: Pair, starts': seq<nat>)
    requires StartsOk(starts, |pairs|)
    requires starts' == starts || (|pairs| > 0 && starts' == starts + [|pairs|])
    ensures Share(pairs + [added], starts', |pairs|)
         == if |pairs| > 0 && starts' == starts then CommonPrefix(pairs[|pairs| - 1].key, added.key, 0) else 0
  {
  }

  lemma {:induction false} RestartArrayLength(restarts: seq<nat>)
    ensures |RestartArray(restarts)| == 4 * |restarts|
  {
    if |restarts| > 0 {
      RestartArrayLength(restarts[..|restarts| - 1]);
    }
  }

  ghost predicate Spaced(starts: seq<nat>, interval: nat) {
    forall k :: 0 < k < |starts| ==> starts[k] == starts[k - 1] + interval
  }

  class BlockBuilder {
    const interval: nat
    var buffer: Bytes
    var restarts: seq<nat>
    var counter: nat
    var lastKey: Bytes
    var finished: bool
    // What was added, and which of it became restart points.
    ghost var pairs: seq<Pair>
    ghost var starts: seq<nat>

    constructor (interval: nat)
      requires interval >= 1
      ensures Valid() && pairs == [] && !finished && this.interval == interval
    {
      this.interval := interval;
      this.buffer := [];
      this.restarts := [0];
      this.counter := 0;
      this.lastKey := [];
      this.finished := false;
      this.pairs := [];
      this.starts := [0];
    }

    ghost predicate Valid()
      reads this
    {
      && interval >= 1 && StartsOk(starts, |pairs|)
      && (!finished ==> Building())
    }

    // Every interval-th entry starts anew.
    ghost predicate Building()
      requires StartsOk(starts, |pairs|)
      reads this
    {
      && buffer == Data(pairs, starts, |pairs|)
      && restarts == RestartOffsets(pairs, starts)
      && Spaced(starts, interval)
      && counter == |pairs| - starts[|starts| - 1] <= interval
      && lastKey == if |pairs| == 0 then [] else pairs[|pairs| - 1].key
    }

    method Reset()
      requires Valid()
      modifies this
      ensures Valid() && pairs == [] && !finished
    {
      buffer := [];
      restarts := [0];
      counter := 0;
      finished := false;
      lastKey := [];
      pairs := [];
      starts := [0];
    }

    method Add(key: Bytes, value: Bytes)
      requires Valid() && !finished
      modifies this
      ensures Valid() && !finished && pairs == old(pairs) + [Pair(key, value)]
    {
      hide Data, RestartOffsets, Share, CommonPrefix, EntryBytes;
      assert |pairs| > 0 ==> lastKey == pairs[|pairs| - 1].key;
      ghost var added := Pair(key, value);
      ghost var grown := if counter < interval then starts else starts + [|pairs|];
      assert Spaced(grown, interval);
      assert grown[|grown| - 1] == if counter < interval then starts[|starts| - 1] else |pairs|;
      hide Spaced, StartsOk;
      AddedEntry(pairs, starts, added, grown);
      ShareOfAdded(pairs, starts, added, grown);
      var shared := 0;
      if counter < interval {
        shared := SharedPrefix(key);
      } else {
        restarts := restarts + [|buffer|];
        counter := 0;
      }
      AppendEntry(key, value, shared);
      pairs, starts := pairs + [added], grown;
    }

    // How much the key shares with the one before it.
    method SharedPrefix(key: Bytes) returns (shared: nat)
      ensures shared == CommonPrefix(lastKey, key, 0)
    {
      shared := 0;
      while shared < |lastKey| && shared < |key| && lastKey[shared] == key[shared]
        invariant shared <= |lastKey| && shared <= |key| && lastKey[..shared] == key[..shared]
        invariant CommonPrefix(lastKey, key, 0) == CommonPrefix(lastKey, key, shared)
      {
        shared := shared + 1;
      }
    }

    method AppendEntry(key: Bytes, value: Bytes, shared: nat)
      requires shared <= |key| && shared <= |lastKey| && lastKey[..shared] == key[..shared]
      modifies this`buffer, this`lastKey, this`counter
      ensures buffer == old(buffer) + EntryBytes(shared, Pair(key, value))
      ensures lastKey == key && counter == old(counter) + 1
    {
      hide EntryHeader;
      var nonShared := |key| - shared;
      Regroup(buffer, EntryHeader(shared, nonShared, |value|), key[shared..], value);
      buffer := buffer + EntryHeader(shared, nonShared, |value|);
      buffer := buffer + key[shared..];
      buffer := buffer + value;
      lastKey := lastKey[..shared] + key[shared..];
      counter := counter + 1;
    }

    method Finish() returns (contents: Bytes)
      requires Valid() && !finished
      modifies this
      ensures Valid() && finished && pairs == old(pairs) && starts == old(starts)
      ensures LaidOut(contents, pairs, starts) && |contents| == old(CurrentSizeEstimate())
      ensures starts[0] == 0 && forall k {:trigger starts[k]} :: 0 < k < |starts| ==> starts[k] - starts[k - 1] == interval
      ensures |pairs| - starts[|starts| - 1] <= interval
    {
      hide Data, RestartOffsets, Fixed;
      ghost var data := buffer;
      for i := 0 to |restarts|
        invariant restarts == old(restarts) && starts == old(starts) && pairs == old(pairs)
        invariant buffer == data + RestartArray(restarts[..i])
      {
        assert restarts[..i + 1][..i] == restarts[..i];
        buffer := buffer + Fixed(restarts[i], 4);
      }
      assert restarts[..|restarts|] == restarts;
      buffer := buffer + Fixed(|restarts|, 4);
      finished := true;
      RestartArrayLength(restarts);
      contents := buffer;
    }

    predicate Empty()
      requires Valid() && !finished
      reads this
      ensures Empty() <==> pairs == []
    {
      buffer == []
    }

    function CurrentSizeEstimate(): nat
      reads this
    {
      |buffer| + |restarts| * 4 + 4
    }
  }

  // ---- Reading a block ----

  datatype Decoded = Decoded(shared: nat, nonShared: nat, valueLength: nat, rest: Bytes)

  // The three lengths at the front of s, and what follows them. Sizes are compared in 32 bits.
  function DecodeEntry(s: Bytes): Option<Decoded> {
    if |s| < 3 then None
    else
      var d := if s[0] < 128 && s[1] < 128 && s[2] < 128 then Some(Decoded(s[0], s[1], s[2], s[3..])) else DecodeSlow(s);
      if d.Some? && |d.value.rest| % TWO_32 >= (d.value.nonShared + d.value.valueLength) % TWO_32 then d else None
  }

  function DecodeSlow(s: Bytes): Option<Decoded> {
    match GetVarint32(s)
    case None => None
    case Some((shared, rest)) =>
      match GetVarint32(rest)
      case None => None
      case Some((nonShared, rest')) =>
        match GetVarint32(rest')
        case None => None
        case Some((valueLength, rest'')) => Some(Decoded(shared, nonShared, valueLength, rest''))
  }

  lemma DecodeInverts(shared: nat, nonShared: nat, valueLength: nat, rest: Bytes)
    requires shared < TWO_32 && nonShared + valueLength <= |rest| < TWO_32
    ensures DecodeEntry(EntryHeader(shared, nonShared, valueLength) + rest)
         == Some(Decoded(shared, nonShared, valueLength, rest))
  {
    hide GetVarint32;
    var s := EntryHeader(shared, nonShared, valueLength) + rest;
    if shared < 128 && nonShared < 128 && valueLength < 128 {
      assert EntryHeader(shared, nonShared, valueLength) == [shared, nonShared, valueLength];
      assert s[3..] == rest;
    } else {
      FirstBytes(shared, nonShared, valueLength, rest);
      SlowInverts(shared, nonShared, valueLength, rest);
    }
  }

  lemma FirstBytes(shared: nat, nonShared: nat, valueLength: nat, rest: Bytes)
    requires shared >= 128 || nonShared >= 128 || valueLength >= 128
    ensures var s := EntryHeader(shared, nonShared, valueLength) + rest;
            s[0] >= 128 || s[1] >= 128 || s[2] >= 128
  {
    var a, b, c := Varint(shared), Varint(nonShared), Varint(valueLength);
    var s := EntryHeader(shared, nonShared, valueLength) + rest;
    assert s == a + (b + (c + rest));
    assert s[0] == a[0];
    if shared < 128 {
      assert s[1] == b[0];
      if nonShared < 128 {
        assert s[2] == c[0];
      }
    }
  }

  lemma SlowInverts(shared: nat, nonShared: nat, valueLength: nat, rest: Bytes)
    requires shared < TWO_32 && nonShared < TWO_32 && valueLength < TWO_32
    ensures DecodeSlow(EntryHeader(shared, nonShared, valueLength) + rest)
         == Some(Decoded(shared, nonShared, valueLength, rest))
  {
    hide GetVarint32, Varint;
    var a, b, c := Varint(shared), Varint(nonShared), Varint(valueLength);
    assert EntryHeader(shared, nonShared, valueLength) + rest == a + (b + (c + rest));
    Varint32RoundTrip(shared, b + (c + rest));
    Varint32RoundTrip(nonShared, c + rest);
    Varint32RoundTrip(valueLength, rest);
  }

  // Entry i lies between its offset and the next one's.
  lemma {:induction false} EntryAt(pairs: seq<Pair>, starts: seq<nat>, i: nat, n: nat)
    requires i < n <= |pairs|
    ensures Offset(pairs, starts, i) < Offset(pairs, starts, i + 1) <= Offset(pairs, starts, n)
    ensures Data(pairs, starts, n)[Offset(pairs, starts, i)..]
         == EntryBytes(Share(pairs, starts, i), pairs[i]) + Data(pairs, starts, n)[Offset(pairs, starts, i + 1)..]
    decreases n
  {
    hide EntryBytes, Share;
    if i < n - 1 {
      EntryAt(pairs, starts, i, n - 1);
      var d := Data(pairs, starts, n - 1);
      var last := EntryBytes(Share(pairs, starts, n - 1), pairs[n - 1]);
      var at, next := Offset(pairs, starts, i), Offset(pairs, starts, i + 1);
      assert (d + last)[at..] == d[at..] + last && (d + last)[next..] == d[next..] + last;
    }
  }

  lemma OffsetsAscend(pairs: seq<Pair>, starts: seq<nat>, i: nat, j: nat)
    requires i <= |pairs| && j <= |pairs|
    ensures i < j <==> Offset(pairs, starts, i) < Offset(pairs, starts, j)
  {
    if i < j {
      EntryAt(pairs, starts, i, j);
    } else if j < i {
      EntryAt(pairs, starts, j, i);
    }
  }

  lemma {:induction false} RestartAt(restarts: seq<nat>, k: nat)
    requires k < |restarts|
    ensures 4 * k + 4 <= |RestartArray(restarts)| == 4 * |restarts|
    ensures RestartArray(restarts)[4 * k..4 * k + 4] == Fixed(restarts[k], 4)
  {
    RestartArrayLength(restarts);
    var shorter := restarts[..|restarts| - 1];
    RestartArrayLength(shorter);
    if k < |shorter| {
      RestartAt(shorter, k);
      assert RestartArray(restarts)[4 * k..4 * k + 4] == RestartArray(shorter)[4 * k..4 * k + 4];
    }
  }

  // What the Block constructor finds: the offset and length of the restart array; None is its
  // error marker.
  function OpenBlock(contents: Bytes): (r: Option<(nat, nat)>)
    ensures r.Some? ==> r.value.0 + 4 * r.value.1 + 4 == |contents|
  {
    if |contents| < 4 then None
    else
      var n := DecodeFixed(contents[|contents| - 4..]);
      if n > (|contents| - 4) / 4 then None else Some((|contents| - (1 + n) * 4, n))
  }

  lemma BlockOpens(contents: Bytes, pairs: seq<Pair>, starts: seq<nat>)
    requires IsBlock(contents, pairs, starts)
    ensures OpenBlock(contents) == Some((Offset(pairs, starts, |pairs|), |starts|))
  {
    RestartArrayLength(RestartOffsets(pairs, starts));
    assert contents[|contents| - 4..] == Fixed(|starts|, 4);
    Fixed32RoundTrip(|starts|);
  }

  lemma RestartReads(contents: Bytes, pairs: seq<Pair>, starts: seq<nat>, k: nat)
    requires IsBlock(contents, pairs, starts) && k < |starts|
    ensures var at := Offset(pairs, starts, |pairs|) + 4 * k;
      && at + 4 <= |contents| && starts[k] <= |pairs|
      && DecodeFixed(contents[at..at + 4]) == Offset(pairs, starts, starts[k])
  {
    hide Data, Fixed, RestartArray;
    var restarts := RestartOffsets(pairs, starts);
    RestartAt(restarts, k);
    var at := Offset(pairs, starts, |pairs|);
    assert contents[at + 4 * k..at + 4 * k + 4] == RestartArray(restarts)[4 * k..4 * k + 4];
    OffsetsAscend(pairs, starts, |pairs|, starts[k]);
    Fixed32RoundTrip(restarts[k]);
  }

  lemma EntrySize(shared: nat, p: Pair)
    requires shared <= |p.key|
    ensures |EntryBytes(shared, p)| >= |p.key| - shared
  {
  }

  // A key's bytes were all stored at some entry up to its own.
  lemma {:induction false} KeyInBlock(pairs: seq<Pair>, starts: seq<nat>, i: nat)
    requires i < |pairs|
    ensures |pairs[i].key| <= Offset(pairs, starts, i + 1)
  {
    hide EntryBytes, CommonPrefix;
    EntrySize(Share(pairs, starts, i), pairs[i]);
    if i > 0 {
      KeyInBlock(pairs, starts, i - 1);
    }
  }

  lemma KeyDelta(shared: nat, p: Pair, more: Bytes)
    requires shared <= |p.key|
    ensures var rest := p.key[shared..] + p.value + more;
      && rest[..|p.key| - shared] == p.key[shared..]
      && rest[|p.key| - shared..][..|p.value|] == p.value
      && EntryBytes(shared, p) + more == EntryHeader(shared, |p.key| - shared, |p.value|) + rest
  {
    hide EntryHeader;
  }

  // Entry i of a block decodes to its lengths, its key delta and its value.
  lemma EntryReads(contents: Bytes, pairs: seq<Pair>, starts: seq<nat>, i: nat)
    requires IsBlock(contents, pairs, starts) && i < |pairs|
    ensures var at, limit := Offset(pairs, starts, i), Offset(pairs, starts, |pairs|);
      && at < limit <= |contents|
      && var shared := Share(pairs, starts, i);
         var d := DecodeEntry(contents[at..limit]);
         && d.Some? && d.value.shared == shared && d.value.nonShared == |pairs[i].key| - shared
         && d.value.valueLength == |pairs[i].value|
         && d.value.nonShared + d.value.valueLength <= |d.value.rest| <= limit
         && d.value.rest[..d.value.nonShared] == pairs[i].key[shared..]
         && d.value.rest[d.value.nonShared..][..d.value.valueLength] == pairs[i].value
         && limit - |d.value.rest| + d.value.nonShared + d.value.valueLength == Offset(pairs, starts, i + 1)
  {
    hide Share, RestartArray, RestartOffsets, DecodeEntry, EntryHeader, EntryBytes, Data;
    var at, next, limit := Offset(pairs, starts, i), Offset(pairs, starts, i + 1), Offset(pairs, starts, |pairs|);
    var shared := Share(pairs, starts, i);
    EntryAt(pairs, starts, i, |pairs|);
    KeyInBlock(pairs, starts, i);
    var more := Data(pairs, starts, |pairs|)[next..];
    var p := pairs[i];
    assert contents[at..limit] == Data(pairs, starts, |pairs|)[at..];
    KeyDelta(shared, p, more);
    DecodeInverts(shared, |p.key| - shared, |p.value|, p.key[shared..] + p.value + more);
  }

  // An entry is the lengths of the shared prefix, of the rest of the key and of the value, a byte
  // each when they are small, then that rest and the value.
  lemma EntryLayout(shared: nat, p: Pair)
    requires shared <= |p.key| && shared < 128 && |p.key| - shared < 128 && |p.value| < 128
    ensures EntryBytes(shared, p) == [shared, |p.key| - shared, |p.value|] + p.key[shared..] + p.value
  {
  }

  // An entry that is no restart shares all the bytes that its key has in common with the one
  // before it.
  lemma ShareIsLongest(pairs: seq<Pair>, starts: seq<nat>, i: nat)
    requires 0 < i < |pairs| && i !in starts
    ensures var s, a, b := Share(pairs, starts, i), pairs[i - 1].key, pairs[i].key;
            s <= |a| && s <= |b| && a[..s] == b[..s] && (s == |a| || s == |b| || a[s] != b[s])
  {
  }
}
