// table/filter_block.cpp: one filter for each 2 KB of file, and the reader that picks one by a
// block's offset.
module Filters {
  import opened Coding
  import opened ByteStrings
  import opened InternalKeys

  const BASE_LG: nat := 11
  const BASE: nat := 2048

  // leveldb::FilterPolicy. create is given at least one key.
  datatype FilterPolicy = FilterPolicy(name: Bytes, create: seq<Bytes> -> Bytes, mayMatch: (Bytes, Bytes) -> bool)

  // Some filter that the key `added` went into denies k.
  ghost predicate Denies(policy: FilterPolicy, added: Bytes, k: Bytes) {
    exists keys :: added in keys && !policy.mayMatch(k, policy.create(keys))
  }

  // What FilterPolicy::KeyMayMatch must promise.
  ghost predicate Sound(policy: FilterPolicy) {
    forall keys, k :: k in keys ==> policy.mayMatch(k, policy.create(keys))
  }

  function UserKeys(keys: seq<Bytes>): (r: seq<Bytes>)
    ensures |r| == |keys|
  {
    seq(|keys|, i requires 0 <= i < |keys| => UserKey(keys[i]))
  }

  // InternalFilterPolicy in db/dbformat.cpp.
  function InternalPolicy(user: FilterPolicy): FilterPolicy {
    FilterPolicy(user.name, keys => user.create(UserKeys(keys)), (k, f) => user.mayMatch(UserKey(k), f))
  }

  // A key is not denied by a filter that any version of its user key went into.
  lemma VersionsNotDenied(user: FilterPolicy, added: Bytes, k: Bytes)
    requires Sound(user) && UserKey(added) == UserKey(k)
    ensures !Denies(InternalPolicy(user), added, k)
  {
    forall keys | added in keys ensures InternalPolicy(user).mayMatch(k, InternalPolicy(user).create(keys)) {
      var i :| 0 <= i < |keys| && keys[i] == added;
      assert UserKeys(keys)[i] == UserKey(k);
    }
  }

  // ---- The block's bytes ----

  function FilterOf(policy: FilterPolicy, keys: seq<Bytes>): Bytes {
    if keys == [] then [] else policy.create(keys)
  }

  // The filters of these groups of keys, one after the other.
  function Joined(policy: FilterPolicy, groups: seq<seq<Bytes>>): Bytes {
    if groups == [] then []
    else Joined(policy, groups[..|groups| - 1]) + FilterOf(policy, groups[|groups| - 1])
  }

  function OffsetBytes(offsets: seq<nat>): (s: Bytes)
    ensures |s| == 4 * |offsets|
  {
    if offsets == [] then [] else OffsetBytes(offsets[..|offsets| - 1]) + Fixed(offsets[|offsets| - 1], 4)
  }

  function FilterBlock(filters: Bytes, offsets: seq<nat>): Bytes {
    filters + OffsetBytes(offsets) + Fixed(|filters|, 4) + [BASE_LG]
  }

  ghost predicate StartsOf(policy: FilterPolicy, groups: seq<seq<Bytes>>, offsets: seq<nat>) {
    && |offsets| == |groups|
    && forall i :: 0 <= i < |groups| ==> offsets[i] == |Joined(policy, groups[..i])|
  }

  lemma {:induction false} JoinedAt(policy: FilterPolicy, groups: seq<seq<Bytes>>, i: nat)
    requires i < |groups|
    ensures var a, b := |Joined(policy, groups[..i])|, |Joined(policy, groups[..i + 1])|;
      a <= b <= |Joined(policy, groups)| && Joined(policy, groups)[a..b] == FilterOf(policy, groups[i])
  {
    var n := |groups| - 1;
    if i == n {
      assert groups[..n + 1] == groups;
    } else {
      JoinedAt(policy, groups[..n], i);
      assert groups[..n][..i] == groups[..i] && groups[..n][..i + 1] == groups[..i + 1];
    }
  }

  lemma {:induction false} OffsetAt(offsets: seq<nat>, i: nat)
    requires i < |offsets|
    ensures OffsetBytes(offsets)[4 * i..4 * i + 4] == Fixed(offsets[i], 4)
  {
    var n := |offsets| - 1;
    if i < n {
      OffsetAt(offsets[..n], i);
      assert OffsetBytes(offsets)[4 * i..4 * i + 4] == OffsetBytes(offsets[..n])[4 * i..4 * i + 4];
    }
  }

  // start says where in the flattened keys each pending one begins.
  ghost predicate Flattened(keys: Bytes, start: seq<nat>, pending: seq<Bytes>) {
    && |start| == |pending|
    && forall i :: 0 <= i < |start| ==> KeyAt(keys, start, i, pending[i])
  }

  ghost predicate KeyAt(keys: Bytes, start: seq<nat>, i: nat, key: Bytes)
    requires i < |start|
  {
    var end := if i + 1 < |start| then start[i + 1] else |keys|;
    start[i] <= end <= |keys| && keys[start[i]..end] == key
  }

  lemma FlattenedAdd(keys: Bytes, start: seq<nat>, pending: seq<Bytes>, key: Bytes)
    requires Flattened(keys, start, pending)
    ensures Flattened(keys + key, start + [|keys|], pending + [key])
  {
    var more, starts := keys + key, start + [|keys|];
    forall i: nat | i < |start| ensures KeyAt(more, starts, i, pending[i]) {
      assert KeyAt(keys, start, i, pending[i]);
      var end := if i + 1 < |start| then start[i + 1] else |keys|;
      assert starts[i + 1] == end && more[start[i]..end] == keys[start[i]..end];
    }
    assert more[|keys|..|more|] == key;
  }

  // Every key added, with its block's offset, is in the filter the offset leads to, made or to
  // be made.
  ghost predicate Covered(added: set<(nat, Bytes)>, groups: seq<seq<Bytes>>, pending: seq<Bytes>) {
    forall a :: a in added ==> a.0 / BASE <= |groups| && a.1 in (groups + [pending])[a.0 / BASE]
  }

  lemma CoveredMade(added: set<(nat, Bytes)>, groups: seq<seq<Bytes>>, pending: seq<Bytes>)
    requires Covered(added, groups, pending)
    ensures Covered(added, groups + [pending], [])
  {
    var more := groups + [pending];
    forall a | a in added ensures a.0 / BASE <= |more| && a.1 in (more + [[]])[a.0 / BASE] {
      assert (more + [[]])[a.0 / BASE] == more[a.0 / BASE];
    }
  }

  lemma StartsMade(policy: FilterPolicy, groups: seq<seq<Bytes>>, offsets: seq<nat>, pending: seq<Bytes>)
    requires StartsOf(policy, groups, offsets)
    ensures StartsOf(policy, groups + [pending], offsets + [|Joined(policy, groups)|])
    ensures Joined(policy, groups + [pending]) == Joined(policy, groups) + FilterOf(policy, pending)
  {
    var more := groups + [pending];
    assert more[..|groups|] == groups;
    forall i | 0 <= i < |groups| ensures offsets[i] == |Joined(policy, more[..i])| {
      assert more[..i] == groups[..i];
    }
  }

  class FilterBlockBuilder {
    const policy: FilterPolicy
    var keys: Bytes               // flattened
    var start: seq<nat>           // where each key starts
    var result: Bytes
    var filterOffsets: seq<nat>
    ghost var pending: seq<Bytes>          // the keys in the flattened form
    ghost var groups: seq<seq<Bytes>>      // the keys of each filter made
    ghost var current: nat                 // offset of the block being filled
    ghost var added: set<(nat, Bytes)>     // each key added, with its block's offset

    constructor (policy: FilterPolicy)
      ensures Valid() && this.policy == policy && current == 0 && added == {}
    {
      this.policy := policy;
      this.keys, this.start, this.result, this.filterOffsets := [], [], [], [];
      this.pending, this.groups, this.current, this.added := [], [], 0, {};
    }

    ghost predicate Made()
      reads this
    {
      && Flattened(keys, start, pending) && Covered(added, groups, pending)
      && result == Joined(policy, groups) && StartsOf(policy, groups, filterOffsets)
    }

    ghost predicate Valid()
      reads this
    {
      Made() && current / BASE == |filterOffsets|
    }

    method AddKey(key: Bytes)
      requires Valid()
      modifies this`start, this`keys, this`pending, this`added
      ensures Valid() && added == old(added) + {(current, key)}
    {
      FlattenedAdd(keys, start, pending, key);
      hide Flattened, StartsOf, Joined;
      start := start + [|keys|];
      keys := keys + key;
      pending := pending + [key];
      added := added + {(current, key)};
    }

    method GenerateFilter()
      requires Made()
      modifies this`start, this`keys, this`result, this`filterOffsets, this`pending, this`groups
      ensures Made() && groups == old(groups) + [old(pending)] && pending == []
    {
      hide Covered, StartsOf, Joined;
      StartsMade(policy, groups, filterOffsets, pending);
      CoveredMade(added, groups, pending);
      groups := groups + [pending];
      var numKeys := |start|;
      if numKeys == 0 {
        filterOffsets := filterOffsets + [|result|];
        return;
      }
      var tmpKeys := Unflatten();
      filterOffsets := filterOffsets + [|result|];
      result := result + policy.create(tmpKeys);
      start, keys := [], [];
      pending := [];
    }

    method Unflatten() returns (tmpKeys: seq<Bytes>)
      requires Flattened(keys, start, pending)
      ensures tmpKeys == pending
    {
      var starts := start + [|keys|];
      tmpKeys := [];
      var i := 0;
      while i < |start|
        invariant 0 <= i <= |start| && tmpKeys == pending[..i]
      {
        assert KeyAt(keys, start, i, pending[i]);
        tmpKeys := tmpKeys + [keys[starts[i]..starts[i + 1]]];
        i := i + 1;
      }
    }

    // Blocks start at ever larger offsets.
    method StartBlock(blockOffset: nat)
      requires Valid() && blockOffset / BASE >= |filterOffsets|
      modifies this
      ensures Valid() && current == blockOffset && added == old(added)
    {
      var filterIndex := blockOffset / BASE;
      while filterIndex > |filterOffsets|
        modifies this`start, this`keys, this`result, this`filterOffsets, this`pending, this`groups
        invariant filterIndex >= |filterOffsets|
        invariant Made() && |groups| == |filterOffsets|
      {
        GenerateFilter();
      }
      current := blockOffset;
    }

    method Finish() returns (r: Bytes)
      requires Valid()
      modifies this
      ensures added == old(added) && Covered(added, groups, []) && StartsOf(policy, groups, filterOffsets)
      ensures r == FilterBlock(Joined(policy, groups), filterOffsets)
    {
      hide Covered, Joined;
      if start != [] {
        GenerateFilter();
      }
      ghost var filters := result;
      var arrayOffset := |result|;
      var i := 0;
      while i < |filterOffsets|
        modifies this`result
        invariant 0 <= i <= |filterOffsets| && result == filters + OffsetBytes(filterOffsets[..i])
      {
        assert filterOffsets[..i + 1][..i] == filterOffsets[..i];
        result := result + Fixed(filterOffsets[i], 4);
        i := i + 1;
      }
      assert filterOffsets[..i] == filterOffsets;
      result := result + Fixed(arrayOffset, 4);
      result := result + [BASE_LG];
      r := result;
    }
  }

  // ---- Reading it ----

  // What the constructor of FilterBlockReader finds; a malformed block has no filters.
  datatype Layout = Layout(offset: nat, num: nat, baseLg: nat)

  function Parse(contents: Bytes): (l: Layout)
    ensures l.num > 0 ==> l.offset + 4 * l.num + 5 <= |contents|
  {
    var n := |contents|;
    if n < 5 then Layout(0, 0, 0)
    else
      var lastWord := DecodeFixed(contents[n - 5..n - 1]);
      if lastWord > n - 5 then Layout(0, 0, contents[n - 1])
      else Layout(lastWord, (n - 5 - lastWord) / 4, contents[n - 1])
  }

  function ShiftRight(x: nat, n: nat): nat {
    if n == 0 then x else ShiftRight(x / 2, n - 1)
  }

  lemma ShiftTwice(x: nat, n: nat)
    requires n >= 2
    ensures ShiftRight(x, n) == ShiftRight(x / 4, n - 2)
  {
    assert ShiftRight(x / 2, n - 1) == ShiftRight(x / 2 / 2, n - 2);
  }

  lemma ShiftByBase(x: nat)
    ensures ShiftRight(x, BASE_LG) == x / BASE
  {
    ShiftTwice(x, 11);
    ShiftTwice(x / 4, 9);
    ShiftTwice(x / 4 / 4, 7);
    ShiftTwice(x / 4 / 4 / 4, 5);
    ShiftTwice(x / 4 / 4 / 4 / 4, 3);
    assert ShiftRight(x / 4 / 4 / 4 / 4 / 4, 1) == ShiftRight(x / 4 / 4 / 4 / 4 / 4 / 2, 0);
  }

  function WordAt(s: Bytes, i: nat): nat
    requires i + 4 <= |s|
  {
    DecodeFixed(s[i..i + 4])
  }

  // FilterBlockReader::KeyMayMatch. The limit of the last filter is the offset array's own offset.
  function KeyMayMatch(policy: FilterPolicy, contents: Bytes, blockOffset: nat, key: Bytes): bool {
    var l := Parse(contents);
    var index := ShiftRight(blockOffset, l.baseLg);
    if index < l.num then
      var start := WordAt(contents, l.offset + index * 4);
      var limit := WordAt(contents, l.offset + index * 4 + 4);
      if start <= limit && limit <= l.offset then policy.mayMatch(key, contents[start..limit])
      else start != limit
    else true
  }

  lemma ParseInverts(filters: Bytes, offsets: seq<nat>)
    requires |filters| < TWO_32
    ensures Parse(FilterBlock(filters, offsets)) == Layout(|filters|, |offsets|, BASE_LG)
  {
    var s := FilterBlock(filters, offsets);
    var n := |s|;
    assert s[n - 5..n - 1] == Fixed(|filters|, 4);
    Fixed32RoundTrip(|filters|);
  }

  // The word after offset i: the next offset, or the end of the filters.
  lemma WordsAt(filters: Bytes, offsets: seq<nat>, i: nat)
    requires i < |offsets|
    ensures var s, at := FilterBlock(filters, offsets), |filters| + 4 * i;
      && at + 8 <= |s| && s[at..at + 4] == Fixed(offsets[i], 4)
      && s[at + 4..at + 8] == Fixed(if i + 1 < |offsets| then offsets[i + 1] else |filters|, 4)
  {
    var s, at := FilterBlock(filters, offsets), |filters| + 4 * i;
    OffsetAt(offsets, i);
    assert s[at..at + 4] == OffsetBytes(offsets)[4 * i..4 * i + 4];
    if i + 1 < |offsets| {
      OffsetAt(offsets, i + 1);
      assert s[at + 4..at + 8] == OffsetBytes(offsets)[4 * (i + 1)..4 * (i + 1) + 4];
    }
  }

  lemma WindowWords(policy: FilterPolicy, groups: seq<seq<Bytes>>, offsets: seq<nat>, i: nat)
    requires StartsOf(policy, groups, offsets) && |Joined(policy, groups)| < TWO_32 && i < |groups|
    ensures var filters := Joined(policy, groups);
      var s, at, a := FilterBlock(filters, offsets), |filters| + i * 4, offsets[i];
      && at + 8 <= |s| && WordAt(s, at) == a
      && var b := WordAt(s, at + 4); a <= b <= |filters| && s[a..b] == FilterOf(policy, groups[i])
  {
    hide Joined, FilterBlock, DecodeFixed, Fixed;
    var filters := Joined(policy, groups);
    var s := FilterBlock(filters, offsets);
    WordsAt(filters, offsets, i);
    JoinedAt(policy, groups, i);
    var next := if i + 1 < |offsets| then offsets[i + 1] else |filters|;
    assert groups[..|groups|] == groups;
    assert next == |Joined(policy, groups[..i + 1])|;
    Fixed32RoundTrip(offsets[i]);
    Fixed32RoundTrip(next);
    FiltersFirst(filters, offsets, offsets[i], next);
  }

  lemma FiltersFirst(filters: Bytes, offsets: seq<nat>, a: nat, b: nat)
    requires a <= b <= |filters|
    ensures var s := FilterBlock(filters, offsets); b <= |s| && s[a..b] == filters[a..b]
  {
  }

  // A block offset is answered by the filter of its own window; past the last one, always yes.
  lemma WindowAnswers(policy: FilterPolicy, groups: seq<seq<Bytes>>, offsets: seq<nat>, blockOffset: nat, key: Bytes)
    requires StartsOf(policy, groups, offsets) && |Joined(policy, groups)| < TWO_32
    ensures var i := blockOffset / BASE;
      KeyMayMatch(policy, FilterBlock(Joined(policy, groups), offsets), blockOffset, key)
      == if i < |groups| then policy.mayMatch(key, FilterOf(policy, groups[i])) else true
  {
    hide ShiftRight, Parse, FilterBlock, Joined, WordAt, FilterOf;
    assert |offsets| == |groups|;
    hide StartsOf;
    var i := blockOffset / BASE;
    ParseInverts(Joined(policy, groups), offsets);
    ShiftByBase(blockOffset);
    if i < |groups| {
      WindowWords(policy, groups, offsets, i);
    }
  }

  // A finished filter block turns a key away from a block only if a filter that all the block's
  // keys went into does.
  lemma NoFalseNegatives(b: FilterBlockBuilder, contents: Bytes)
    requires Covered(b.added, b.groups, []) && StartsOf(b.policy, b.groups, b.filterOffsets)
    requires contents == FilterBlock(Joined(b.policy, b.groups), b.filterOffsets) && |contents| < TWO_32
    ensures forall a, k :: a in b.added && !KeyMayMatch(b.policy, contents, a.0, k) ==> Denies(b.policy, a.1, k)
    ensures Sound(b.policy) ==> forall a :: a in b.added ==> KeyMayMatch(b.policy, contents, a.0, a.1)
  {
    forall a, k | a in b.added && !KeyMayMatch(b.policy, contents, a.0, k) ensures Denies(b.policy, a.1, k) {
      WindowAnswers(b.policy, b.groups, b.filterOffsets, a.0, k);
      assert a.1 in b.groups[a.0 / BASE];
    }
  }

  class FilterBlockReader {
    const policy: FilterPolicy
    const data: Bytes
    const offset: nat
    const num: nat
    const baseLg: nat

    ghost predicate Valid() {
      Parse(data) == Layout(offset, num, baseLg)
    }

    constructor (policy: FilterPolicy, contents: Bytes)
      ensures Valid() && this.policy == policy && data == contents
    {
      this.policy, this.data := policy, contents;
      var n := |contents|;
      var o, m, lg := 0, 0, 0;
      if n >= 5 {
        lg := contents[n - 1];
        var lastWord := DecodeFixed(contents[n - 5..n - 1]);
        if lastWord <= n - 5 {
          o, m := lastWord, (n - 5 - lastWord) / 4;
        }
      }
      this.offset, this.num, this.baseLg := o, m, lg;
    }

    method MayMatch(blockOffset: nat, key: Bytes) returns (r: bool)
      requires Valid()
      ensures r == KeyMayMatch(policy, data, blockOffset, key)
    {
      var index := ShiftRight(blockOffset, baseLg);
      if index < num {
        var start := WordAt(data, offset + index * 4);
        var limit := WordAt(data, offset + index * 4 + 4);
        if start <= limit && limit <= offset {
          return policy.mayMatch(key, data[start..limit]);
        } else if start == limit {
          return false;
        }
      }
      return true;
    }
  }

  // With no keys a filter block is the offset of an empty array and the base of the windows, 2^11.
  lemma EmptyBlock()
    ensures FilterBlock([], []) == [0, 0, 0, 0, 11] && BASE == 2048
  {
    assert Fixed(0, 4) == [0] + Fixed(0, 3) == [0, 0] + Fixed(0, 2) == [0, 0, 0] + Fixed(0, 1) == [0, 0, 0, 0];
  }

  // Bytes that are no filter block turn nothing away.
  lemma MalformedMatches(policy: FilterPolicy, contents: Bytes, blockOffset: nat, key: Bytes)
    requires |contents| < 5 || DecodeFixed(contents[|contents| - 5..|contents| - 1]) > |contents| - 5
    ensures KeyMayMatch(policy, contents, blockOffset, key)
  {
  }

  // Nor does a filter whose bounds are out of order or outside the data, unless they are equal.
  lemma BadBoundsMatch(policy: FilterPolicy, contents: Bytes, blockOffset: nat, key: Bytes)
    requires var l := Parse(contents); var i := ShiftRight(blockOffset, l.baseLg);
             i < l.num && var a, b := WordAt(contents, l.offset + i * 4), WordAt(contents, l.offset + i * 4 + 4);
                          a > b || (b > l.offset && a != b)
    ensures KeyMayMatch(policy, contents, blockOffset, key)
  {
  }
}
