// util/cache.cpp HandleTable: a hash table of cache entries, chained through the entries.
module HandleTables {

  // LRUHandle: a cache entry. V is what the caller stores.
  class Handle<V> {
    const key: string
    const hash: nat
    const value: V
    const charge: nat
    var refs: nat
    var nextHash: Handle?<V>
    var next: Handle?<V>
    var prev: Handle?<V>

    constructor (key: string, hash: nat, value: V, charge: nat, refs: nat)
      ensures this.key == key && this.hash == hash && this.value == value && this.charge == charge && this.refs == refs
    {
      this.key := key;
      this.hash := hash;
      this.value := value;
      this.charge := charge;
      this.refs := refs;
      this.nextHash := null;
      this.next := null;
      this.prev := null;
    }
  }

  predicate Matches<V>(h: Handle<V>, key: string, hash: nat) {
    h.hash == hash && h.key == key
  }

  // hash & (length - 1), for the lengths that occur: powers of two.
  function Bucket(hash: nat, length: nat): (b: nat)
    requires length > 0
    ensures b < length
  {
    hash % length
  }

  function At<V>(chain: seq<Handle<V>>, i: nat): Handle?<V> {
    if i < |chain| then chain[i] else null
  }

  function Only<V>(h: Handle?<V>): set<Handle<V>> {
    if h == null then {} else {h}
  }

  ghost predicate Distinct<V>(chain: seq<Handle<V>>) {
    forall i, j :: 0 <= i < j < |chain| ==> chain[i] != chain[j]
  }

  // The entries of the chain lead to one another through nextHash.
  ghost predicate Chained<V>(head: Handle?<V>, chain: seq<Handle<V>>)
    reads chain`nextHash
  {
    && head == At(chain, 0)
    && forall i: nat :: i < |chain| ==> chain[i].nextHash == At(chain, i + 1)
  }

  // Buckets: chain b holds the given entries whose hash falls in bucket b.
  ghost predicate Buckets<V>(chains: seq<seq<Handle<V>>>, entries: set<Handle<V>>) {
    && |chains| > 0
    && (forall b: nat :: b < |chains| ==> Distinct(chains[b]))
    && (forall b: nat, i: nat :: b < |chains| && i < |chains[b]| ==>
          chains[b][i] in entries && Bucket(chains[b][i].hash, |chains|) == b)
    && (forall h :: h in entries ==> h in chains[Bucket(h.hash, |chains|)])
  }

  ghost predicate Stored<V>(list: array<Handle?<V>>, chains: seq<seq<Handle<V>>>, entries: set<Handle<V>>)
    reads list, entries`nextHash
  {
    && |chains| == list.Length && Buckets(chains, entries)
    && forall b: nat :: b < |chains| ==> Chained(list[b], chains[b])
  }

  ghost predicate UniqueKeys<V>(entries: set<Handle<V>>) {
    forall m, n :: m in entries && n in entries && Matches(m, n.key, n.hash) ==> m == n
  }

  // The entry for a key, if there is one.
  ghost predicate IsEntry<V>(entries: set<Handle<V>>, key: string, hash: nat, h: Handle?<V>) {
    if h == null then forall e :: e in entries ==> !Matches(e, key, hash)
    else h in entries && Matches(h, key, hash)
  }

  lemma PushedBuckets<V>(chains: seq<seq<Handle<V>>>, entries: set<Handle<V>>, h: Handle<V>)
    requires Buckets(chains, entries) && h !in entries
    ensures var b := Bucket(h.hash, |chains|); Buckets(chains[b := [h] + chains[b]], entries + {h})
  {
    hide Bucket;
    var b := Bucket(h.hash, |chains|);
    var chain := [h] + chains[b];
    var chains' := chains[b := chain];
    assert forall i: nat :: i < |chains[b]| ==> chain[i + 1] == chains[b][i] && chains[b][i] in entries;
    forall e | e in entries + {h} ensures e in chains'[Bucket(e.hash, |chains'|)] {
      assert e in entries ==> e in chains[Bucket(e.hash, |chains|)];
      assert h == chain[0];
    }
  }

  // h goes to the front of its bucket.
  method PushFront<V>(list: array<Handle?<V>>, h: Handle<V>, ghost chains: seq<seq<Handle<V>>>, ghost entries: set<Handle<V>>)
    returns (ghost chains': seq<seq<Handle<V>>>)
    requires Stored(list, chains, entries) && h !in entries
    modifies list, h`nextHash
    ensures Stored(list, chains', entries + {h})
  {
    hide Bucket;
    var b := Bucket(h.hash, list.Length);
    ghost var chain := [h] + chains[b];
    PushedBuckets(chains, entries, h);
    assert Chained(list[b], chains[b]);
    forall c: nat | c < |chains| ensures h !in chains[c] {
      assert forall i: nat :: i < |chains[c]| ==> chains[c][i] in entries;
    }
    hide Bucket, Buckets;
    h.nextHash := list[b];
    list[b] := h;
    chains' := chains[b := chain];
    forall c: nat | c < |chains'| ensures Chained(list[c], chains'[c]) {
      if c == b {
        assert forall i: nat :: i < |chains[b]| ==> chain[i + 1] == chains[b][i];
        forall i: nat | i < |chain| ensures chain[i].nextHash == At(chain, i + 1) {
          assert i > 0 ==> chain[i] == chains[b][i - 1] && chain[i].nextHash == At(chains[b], i);
        }
      } else {
        assert old(Chained(list[c], chains[c]));
      }
    }
  }

  // No entry is in two chains.
  lemma ChainsApart<V>(chains: seq<seq<Handle<V>>>, entries: set<Handle<V>>, b: nat, c: nat, h: Handle<V>)
    requires Buckets(chains, entries) && b < |chains| && c < |chains| && h in chains[b] && h in chains[c]
    ensures b == c
  {
    var i: nat :| i < |chains[b]| && chains[b][i] == h;
    var j: nat :| j < |chains[c]| && chains[c][j] == h;
  }

  // h replaces entry i of its chain.
  lemma ReplacedBuckets<V>(chains: seq<seq<Handle<V>>>, entries: set<Handle<V>>, h: Handle<V>, i: nat)
    requires Buckets(chains, entries) && h !in entries && i < |chains[Bucket(h.hash, |chains|)]|
    ensures var b := Bucket(h.hash, |chains|);
            Buckets(chains[b := chains[b][..i] + ([h] + chains[b][i + 1..])], entries - {chains[b][i]} + {h})
  {
    hide Bucket;
    var b := Bucket(h.hash, |chains|);
    var prior := chains[b][i];
    var chain := chains[b][..i] + ([h] + chains[b][i + 1..]);
    var chains' := chains[b := chain];
    assert forall k: nat :: k < |chain| ==> chain[k] == if k == i then h else chains[b][k];
    forall e | e in entries - {prior} + {h} ensures e in chains'[Bucket(e.hash, |chains'|)] {
      if e == h {
        assert chain[i] == h;
      } else {
        var c := Bucket(e.hash, |chains|);
        var k: nat :| k < |chains[c]| && chains[c][k] == e;
        assert c == b ==> chain[k] == e;
      }
    }
    forall c: nat, k: nat | c < |chains'| && k < |chains'[c]|
      ensures chains'[c][k] in entries - {prior} + {h} && Bucket(chains'[c][k].hash, |chains'|) == c
    {
      if c != b {
        assert chains[c][k] in entries && Bucket(chains[c][k].hash, |chains|) == c;
        assert Bucket(prior.hash, |chains|) == b;
      } else if k != i {
        assert chains[b][k] in entries && chains[b][k] != chains[b][i];
      }
    }
  }

  // h goes to the end of its chain.
  lemma AppendedBuckets<V>(chains: seq<seq<Handle<V>>>, entries: set<Handle<V>>, h: Handle<V>)
    requires Buckets(chains, entries) && h !in entries
    ensures var b := Bucket(h.hash, |chains|); Buckets(chains[b := chains[b] + [h]], entries + {h})
  {
    hide Bucket;
    var b := Bucket(h.hash, |chains|);
    var chain := chains[b] + [h];
    var chains' := chains[b := chain];
    assert forall i: nat :: i < |chains[b]| ==> chain[i] == chains[b][i] && chains[b][i] in entries;
    forall e | e in entries + {h} ensures e in chains'[Bucket(e.hash, |chains'|)] {
      assert e in entries ==> e in chains[Bucket(e.hash, |chains|)];
      assert h == chain[|chains[b]|];
    }
  }

  // h takes the place of entry i of its chain, or of its end.
  lemma SlotBuckets<V>(chains: seq<seq<Handle<V>>>, entries: set<Handle<V>>, h: Handle<V>, i: nat, rest: seq<Handle<V>>)
    requires Buckets(chains, entries) && h !in entries && i <= |chains[Bucket(h.hash, |chains|)]|
    requires var b := Bucket(h.hash, |chains|); rest == After(chains[b], i)
    ensures var b := Bucket(h.hash, |chains|);
            Buckets(chains[b := chains[b][..i] + ([h] + rest)], entries - Only(At(chains[b], i)) + {h})
  {
    hide Bucket;
    var b := Bucket(h.hash, |chains|);
    if i == |chains[b]| {
      AppendedBuckets(chains, entries, h);
      assert chains[b] + [h] == chains[b][..i] + ([h] + rest);
      assert entries - Only(At(chains[b], i)) == entries;
    } else {
      ReplacedBuckets(chains, entries, h, i);
    }
  }

  // Entry i leaves its chain.
  lemma RemovedBuckets<V>(chains: seq<seq<Handle<V>>>, entries: set<Handle<V>>, b: nat, i: nat)
    requires Buckets(chains, entries) && b < |chains| && i < |chains[b]|
    ensures Buckets(chains[b := chains[b][..i] + chains[b][i + 1..]], entries - {chains[b][i]})
  {
    hide Bucket;
    var prior := chains[b][i];
    var chain := chains[b][..i] + chains[b][i + 1..];
    var chains' := chains[b := chain];
    assert forall k: nat :: k < |chain| ==> chain[k] == chains[b][if k < i then k else k + 1];
    forall e | e in entries - {prior} ensures e in chains'[Bucket(e.hash, |chains'|)] {
      var c := Bucket(e.hash, |chains|);
      var k: nat :| k < |chains[c]| && chains[c][k] == e;
      if c == b {
        assert chain[if k < i then k else k - 1] == e;
      }
    }
    forall c: nat, k: nat | c < |chains'| && k < |chains'[c]|
      ensures chains'[c][k] in entries - {prior} && Bucket(chains'[c][k].hash, |chains'|) == c
    {
      if c != b {
        assert chains[c][k] in entries && Bucket(chains[c][k].hash, |chains|) == c;
        assert Bucket(prior.hash, |chains|) == b;
      } else {
        var k' := if k < i then k else k + 1;
        assert chains[b][k'] in entries && chains[b][k'] != chains[b][i];
      }
    }
  }

  lemma Spliced<V>(head: Handle?<V>, chain: seq<Handle<V>>, i: nat, tail: seq<Handle<V>>)
    requires i <= |chain| && head == if i == 0 then At(tail, 0) else chain[0]
    requires forall k: nat :: k + 1 < i ==> chain[k].nextHash == chain[k + 1]
    requires i > 0 ==> chain[i - 1].nextHash == At(tail, 0)
    requires Chained(At(tail, 0), tail)
    ensures Chained(head, chain[..i] + tail)
  {
    var after := chain[..i] + tail;
    forall k: nat | k < |after| ensures after[k].nextHash == At(after, k + 1) {
      if k < i - 1 {
        assert after[k] == chain[k] && after[k + 1] == chain[k + 1];
      } else if k >= i {
        assert after[k] == tail[k - i];
      }
    }
  }

  lemma HeadOf<V>(h: Handle?<V>, chain: seq<Handle<V>>)
    requires Chained(h, chain)
    ensures h == At(chain, 0)
  {
  }

  lemma FrontOf<V>(list: array<Handle?<V>>, chains: seq<seq<Handle<V>>>, entries: set<Handle<V>>, b: nat, i: nat)
    requires Stored(list, chains, entries) && b < |chains| && i <= |chains[b]|
    ensures |chains| == list.Length
    ensures var chain := chains[b];
      && (i > 0 ==> list[b] == chain[0])
      && (forall k: nat :: k + 1 < i ==> chain[k].nextHash == chain[k + 1] && chain[k] != chain[i - 1])
      && (i > 0 ==> chain[i - 1] in entries)
  {
    assert Chained(list[b], chains[b]) && Distinct(chains[b]);
  }

  // No chain but b passes through an entry of chain b.
  lemma OtherChains<V>(list: array<Handle?<V>>, chains: seq<seq<Handle<V>>>, entries: set<Handle<V>>, b: nat, c: nat)
    requires Stored(list, chains, entries) && b < |chains| && c < |chains| && c != b
    ensures Chained(list[c], chains[c])
    ensures forall i: nat :: i < |chains[c]| ==> chains[c][i] in entries && chains[c][i] !in chains[b]
  {
    forall i: nat | i < |chains[c]| ensures chains[c][i] in entries && chains[c][i] !in chains[b] {
      assert chains[c][i] in chains[c];
      if chains[c][i] in chains[b] {
        ChainsApart(chains, entries, b, c, chains[c][i]);
      }
    }
  }

  lemma Assembled<V>(list: array<Handle?<V>>, chains: seq<seq<Handle<V>>>, b: nat, chain: seq<Handle<V>>, entries: set<Handle<V>>)
    requires |chains| == list.Length && b < |chains| && Buckets(chains[b := chain], entries)
    requires Chained(list[b], chain)
    requires forall c: nat :: c < |chains| && c != b ==> Chained(list[c], chains[c])
    ensures Stored(list, chains[b := chain], entries)
  {
    hide Bucket, Buckets, Chained;
  }

  lemma StoredBuckets<V>(list: array<Handle?<V>>, chains: seq<seq<Handle<V>>>, entries: set<Handle<V>>)
    requires Stored(list, chains, entries)
    ensures Buckets(chains, entries) && |chains| == list.Length
  {
  }

  lemma ReplacedUnique<V>(entries: set<Handle<V>>, h: Handle<V>, cur: Handle?<V>)
    requires UniqueKeys(entries) && h !in entries && IsEntry(entries, h.key, h.hash, cur)
    ensures var after := entries - Only(cur) + {h};
            UniqueKeys(after) && |after| == |entries| + if cur == null then 1 else 0
  {
    if cur != null {
      assert |entries - {cur}| == |entries| - 1;
    }
  }

  // The bucket of a hash holds every entry with the hash.
  lemma BucketFacts<V>(list: array<Handle?<V>>, chains: seq<seq<Handle<V>>>, entries: set<Handle<V>>, key: string, hash: nat)
    requires Stored(list, chains, entries)
    ensures |chains| == list.Length > 0
    ensures var b := Bucket(hash, list.Length);
      && Chained(list[b], chains[b])
      && (forall k: nat :: k < |chains[b]| ==> chains[b][k] in entries)
      && (forall e :: e in entries && Matches(e, key, hash) ==> e in chains[b])
  {
    hide Bucket;
  }

  ghost function After<V>(chain: seq<Handle<V>>, i: nat): seq<Handle<V>> {
    if i < |chain| then chain[i + 1..] else []
  }

  // h in the place of entry i of chain b.
  ghost function InPlace<V>(chains: seq<seq<Handle<V>>>, b: nat, i: nat, h: Handle<V>): seq<seq<Handle<V>>>
    requires b < |chains| && i <= |chains[b]|
  {
    chains[b := chains[b][..i] + ([h] + After(chains[b], i))]
  }

  // What follows entry i of a chain.
  lemma RestOf<V>(head: Handle?<V>, chain: seq<Handle<V>>, i: nat) returns (rest: seq<Handle<V>>)
    requires Chained(head, chain) && Distinct(chain) && i <= |chain|
    ensures rest == After(chain, i)
    ensures i < |chain| ==> chain[i].nextHash == At(rest, 0) && chain[i] !in rest
    ensures Chained(At(rest, 0), rest)
    ensures forall x :: x in rest ==> x in chain && x !in chain[..i]
  {
    rest := if i < |chain| then chain[i + 1..] else [];
    assert forall k: nat :: k < |rest| ==> rest[k] == chain[i + 1 + k];
    assert forall k: nat :: k < i ==> chain[..i][k] == chain[k];
  }

  class HandleTable<V> {
    var list: array<Handle?<V>>
    var elems: nat
    ghost var chains: seq<seq<Handle<V>>>
    ghost var entries: set<Handle<V>>

    constructor ()
      ensures Valid() && entries == {} && fresh(list)
    {
      list := new Handle?<V>[4](_ => null);
      elems := 0;
      chains := seq(4, _ => []);
      entries := {};
    }

    ghost predicate Valid()
      reads this, list, entries`nextHash
    {
      Stored(list, chains, entries) && UniqueKeys(entries) && elems == |entries|
    }

    // The slot that points to the entry for the key, or the trailing slot of its chain: bucket b
    // if prev is null, else prev's nextHash.
    static method FindPointer(list: array<Handle?<V>>, key: string, hash: nat,
                              ghost chains: seq<seq<Handle<V>>>, ghost entries: set<Handle<V>>)
      returns (b: nat, prev: Handle?<V>, cur: Handle?<V>, ghost i: nat)
      requires Stored(list, chains, entries)
      ensures b == Bucket(hash, list.Length) && i <= |chains[b]| && cur == At(chains[b], i)
      ensures prev == if i == 0 then null else chains[b][i - 1]
      ensures IsEntry(entries, key, hash, cur)
    {
      BucketFacts(list, chains, entries, key, hash);
      hide Bucket, Stored;
      b := Bucket(hash, list.Length);
      prev, cur, i := null, list[b], 0;
      while cur != null && (cur.hash != hash || key != cur.key)
        invariant i <= |chains[b]| && cur == At(chains[b], i)
        invariant prev == if i == 0 then null else chains[b][i - 1]
        invariant forall k: nat :: k < i ==> !Matches(chains[b][k], key, hash)
        decreases |chains[b]| - i
      {
        prev, cur, i := cur, cur.nextHash, i + 1;
      }
      if cur == null {
        assert forall e :: e in chains[b] ==> !Matches(e, key, hash);
      }
    }

    method Lookup(key: string, hash: nat) returns (h: Handle?<V>)
      requires Valid()
      ensures IsEntry(entries, key, hash, h)
    {
      var _, _, cur, _ := FindPointer(list, key, hash, chains, entries);
      return cur;
    }

    // Points the slot found by FindPointer at h, from which the entries of tail follow.
    static method SetSlot(list: array<Handle?<V>>, b: nat, prev: Handle?<V>, h: Handle?<V>, ghost chains: seq<seq<Handle<V>>>,
                          ghost entries: set<Handle<V>>, ghost i: nat, ghost tail: seq<Handle<V>>)
      requires Stored(list, chains, entries) && b < |chains| && i <= |chains[b]|
      requires prev == if i == 0 then null else chains[b][i - 1]
      requires Chained(h, tail) && forall x :: x in chains[b][..i] ==> x !in tail
      modifies list, entries`nextHash
      ensures Chained(list[b], chains[b][..i] + tail)
      ensures forall c: nat :: c < |chains| && c != b ==> Chained(list[c], chains[c])
    {
      hide Bucket, Stored, Chained;
      ghost var chain := chains[b];
      FrontOf(list, chains, entries, b, i);
      HeadOf(h, tail);
      assert i > 0 ==> prev == chain[..i][i - 1] && prev !in tail;
      assert Chained(h, tail);
      forall c: nat | c < |chains| && c != b
        ensures Chained(list[c], chains[c])
        ensures forall k: nat :: k < |chains[c]| ==> chains[c][k] !in chain
      {
        OtherChains(list, chains, entries, b, c);
      }
      if prev == null {
        list[b] := h;
      } else {
        prev.nextHash := h;
      }
      assert Chained(h, tail);
      Spliced(list[b], chain, i, tail);
    }

    method Insert(h: Handle<V>) returns (prior: Handle?<V>)
      requires Valid() && h !in entries
      modifies this, list, entries`nextHash, h`nextHash
      ensures Valid() && (list == old(list) || fresh(list))
      ensures IsEntry(old(entries), h.key, h.hash, prior)
      ensures entries == old(entries) - Only(prior) + {h}
    {
      hide Stored, UniqueKeys, IsEntry, Only;
      prior := Enter(h);
      if prior == null {
        if elems > list.Length {
          Resize();
        }
      }
    }

    // Insert, before it looks at the table's length.
    method Enter(h: Handle<V>) returns (prior: Handle?<V>)
      requires Valid() && h !in entries
      modifies this`elems, this`chains, this`entries, list, entries`nextHash, h`nextHash
      ensures Valid() && IsEntry(old(entries), h.key, h.hash, prior)
      ensures entries == old(entries) - Only(prior) + {h}
    {
      hide Bucket, Stored, UniqueKeys, IsEntry, InPlace;
      ghost var b, i;
      prior, b, i := Place(list, h, chains, entries);
      ReplacedUnique(entries, h, prior);
      chains := InPlace(chains, b, i, h);
      entries := entries - Only(prior) + {h};
      if prior == null {
        elems := elems + 1;
      }
    }

    static method Place(list: array<Handle?<V>>, h: Handle<V>, ghost chains: seq<seq<Handle<V>>>, ghost entries: set<Handle<V>>)
      returns (prior: Handle?<V>, ghost b: nat, ghost i: nat)
      requires Stored(list, chains, entries) && h !in entries
      modifies list, entries`nextHash, h`nextHash
      ensures IsEntry(entries, h.key, h.hash, prior) && b < |chains| && i <= |chains[b]|
      ensures Stored(list, InPlace(chains, b, i, h), entries - Only(prior) + {h})
    {
      StoredBuckets(list, chains, entries);
      hide Bucket, Stored, IsEntry, Only, Buckets, InPlace;
      var bucket, prev, cur;
      bucket, prev, cur, i := FindPointer(list, h.key, h.hash, chains, entries);
      prior, b := cur, bucket;
      ReplaceSlot(list, h, bucket, prev, cur, chains, entries, i);
    }

    // h takes the slot, in place of the entry there.
    static method ReplaceSlot(list: array<Handle?<V>>, h: Handle<V>, b: nat, prev: Handle?<V>, cur: Handle?<V>,
                              ghost chains: seq<seq<Handle<V>>>, ghost entries: set<Handle<V>>, ghost i: nat)
      requires Stored(list, chains, entries) && h !in entries
      requires b == Bucket(h.hash, list.Length) && i <= |chains[b]| && cur == At(chains[b], i)
      requires prev == if i == 0 then null else chains[b][i - 1]
      modifies list, entries`nextHash, h`nextHash
      ensures Stored(list, InPlace(chains, b, i, h), entries - Only(cur) + {h})
    {
      StoredBuckets(list, chains, entries);
      hide Bucket, Stored, Buckets, Chained, Only, Distinct;
      ghost var rest := SlotFacts(list, chains, entries, b, i);
      ghost var chain := chains[b];
      SlotBuckets(chains, entries, h, i, rest);
      h.nextHash := if cur == null then null else cur.nextHash;
      assert h.nextHash == At(rest, 0);
      Prepended(h, rest);
      SetSlot(list, b, prev, h, chains, entries, i, [h] + rest);
      Assembled(list, chains, b, chain[..i] + ([h] + rest), entries - Only(cur) + {h});
    }

    // The slot's entry, and what follows it.
    static lemma SlotFacts(list: array<Handle?<V>>, chains: seq<seq<Handle<V>>>, entries: set<Handle<V>>, b: nat, i: nat)
      returns (rest: seq<Handle<V>>)
      requires Stored(list, chains, entries) && b < |chains| && i <= |chains[b]|
      ensures |chains| == list.Length
      ensures rest == After(chains[b], i)
      ensures var cur := At(chains[b], i);
              && (cur != null ==> cur in entries && cur.nextHash == At(rest, 0) && cur !in rest)
              && Chained(At(rest, 0), rest)
              && (forall x :: x in rest ==> x in entries)
              && (forall x :: x in chains[b][..i] ==> x in entries && x !in rest)
    {
      assert Chained(list[b], chains[b]) && Distinct(chains[b]);
      assert forall k: nat :: k < |chains[b]| ==> chains[b][k] in entries;
      hide Bucket, Stored, Buckets;
      rest := RestOf(list[b], chains[b], i);
    }

    method Remove(key: string, hash: nat) returns (result: Handle?<V>)
      requires Valid()
      modifies this`elems, this`chains, this`entries, list, entries`nextHash
      ensures Valid() && IsEntry(old(entries), key, hash, result)
      ensures entries == old(entries) - Only(result)
    {
      hide Bucket, Stored, UniqueKeys, IsEntry;
      var b, prev, cur, i := FindPointer(list, key, hash, chains, entries);
      result := cur;
      StoredBuckets(list, chains, entries);
      if cur != null {
        ghost var _ := SlotFacts(list, chains, entries, b, i);
        assert |entries - {cur}| == |entries| - 1;
        FewerUnique(entries, cur);
        elems := elems - 1;
        ghost var chains', entries' := chains, entries;
        entries := entries - {cur};
        chains := chains[b := chains[b][..i] + After(chains[b], i)];
        RemoveSlot(list, b, prev, cur, chains', entries', i);
      }
    }

    // The slot skips its entry.
    static method RemoveSlot(list: array<Handle?<V>>, b: nat, prev: Handle?<V>, cur: Handle<V>,
                             ghost chains: seq<seq<Handle<V>>>, ghost entries: set<Handle<V>>, ghost i: nat)
      requires Stored(list, chains, entries) && b < |chains| && i < |chains[b]| && cur == chains[b][i]
      requires prev == if i == 0 then null else chains[b][i - 1]
      modifies list, entries`nextHash
      ensures Stored(list, chains[b := chains[b][..i] + After(chains[b], i)], entries - {cur})
    {
      StoredBuckets(list, chains, entries);
      hide Bucket, Stored, Buckets, Chained, Distinct;
      ghost var rest := SlotFacts(list, chains, entries, b, i);
      RemovedBuckets(chains, entries, b, i);
      SetSlot(list, b, prev, cur.nextHash, chains, entries, i, rest);
      Assembled(list, chains, b, chains[b][..i] + rest, entries - {cur});
    }

    // Moves every entry to a table at least as long as there are entries. The keys stay mapped.
    method Resize()
      requires Stored(list, chains, entries) && elems == |entries|
      modifies this`list, this`chains, entries`nextHash
      ensures Stored(list, chains, entries) && fresh(list) && list.Length >= elems
    {
      hide Bucket, Stored;
      var newLength := 4;
      while newLength < elems {
        newLength := newLength * 2;
      }
      var newList, count;
      ghost var newChains;
      newList, newChains, count := Rehash(list, newLength, chains, entries);
      assert elems == count;
      chains := newChains;
      list := newList;
    }

    static method Rehash(list: array<Handle?<V>>, newLength: nat, ghost chains: seq<seq<Handle<V>>>, ghost entries: set<Handle<V>>)
      returns (newList: array<Handle?<V>>, ghost newChains: seq<seq<Handle<V>>>, count: nat)
      requires Stored(list, chains, entries) && newLength > 0
      modifies entries`nextHash
      ensures fresh(newList) && newList.Length == newLength
      ensures Stored(newList, newChains, entries) && count == |entries|
    {
      var heads := list[..];
      newList, newChains := EmptyBuckets(newLength);
      count := 0;
      ghost var moved: set<Handle<V>> := {};
      StartHalfway(list, chains, entries, newList, newChains);
      hide Bucket, Halfway, FrontEntries, Stored;
      for i := 0 to |heads|
        invariant Halfway(heads, chains, entries, i, newList, newChains, moved) && count == |moved|
      {
        var n;
        newChains, n := MoveBucket(heads, chains, entries, i, newList, newChains, moved);
        moved := FrontEntries(entries, |heads|, i + 1);
        count := count + n;
      }
      EndHalfway(heads, chains, entries, newList, newChains, moved);
    }

    static method EmptyBuckets(length: nat) returns (list: array<Handle?<V>>, ghost chains: seq<seq<Handle<V>>>)
      requires length > 0
      ensures fresh(list) && list.Length == length && Stored(list, chains, {})
    {
      list := new Handle?<V>[length](_ => null);
      chains := seq(length, _ => []);
    }

    static lemma StartHalfway(list: array<Handle?<V>>, chains: seq<seq<Handle<V>>>, entries: set<Handle<V>>,
                              newList: array<Handle?<V>>, newChains: seq<seq<Handle<V>>>)
      requires Stored(list, chains, entries) && Stored(newList, newChains, {})
      ensures |list[..]| > 0 && Halfway(list[..], chains, entries, 0, newList, newChains, {})
    {
      NoEntries(entries, |chains|);
      forall c: nat | c < |chains| ensures Members(chains[c]) <= entries {
        BucketEntries(chains, entries, c);
      }
      hide Bucket, Buckets, Chained, FrontEntries, Members;
    }

    static lemma EndHalfway(heads: seq<Handle?<V>>, chains: seq<seq<Handle<V>>>, entries: set<Handle<V>>,
                            newList: array<Handle?<V>>, newChains: seq<seq<Handle<V>>>, moved: set<Handle<V>>)
      requires |heads| > 0 && Halfway(heads, chains, entries, |heads|, newList, newChains, moved)
      ensures Stored(newList, newChains, entries) && moved == entries
    {
      hide Bucket, Stored, Buckets;
      AllEntries(entries, |heads|);
    }

    // The entries of the first i buckets are in the new table, the others still where they were.
    static ghost predicate Halfway(heads: seq<Handle?<V>>, chains: seq<seq<Handle<V>>>, entries: set<Handle<V>>, i: nat,
                                   newList: array<Handle?<V>>, newChains: seq<seq<Handle<V>>>, moved: set<Handle<V>>)
      reads newList, entries`nextHash, moved`nextHash
    {
      && |heads| == |chains| && i <= |heads| && Buckets(chains, entries)
      && Stored(newList, newChains, moved) && moved == FrontEntries(entries, |heads|, i)
      && (forall c: nat :: i <= c < |heads| ==> Members(chains[c]) <= entries && Chained(heads[c], chains[c]))
    }

    static method MoveBucket(heads: seq<Handle?<V>>, ghost chains: seq<seq<Handle<V>>>, ghost entries: set<Handle<V>>, i: nat,
                             newList: array<Handle?<V>>, ghost newChains: seq<seq<Handle<V>>>, ghost moved: set<Handle<V>>)
      returns (ghost newChains': seq<seq<Handle<V>>>, n: nat)
      requires i < |heads| && Halfway(heads, chains, entries, i, newList, newChains, moved)
      modifies newList, entries`nextHash
      ensures Halfway(heads, chains, entries, i + 1, newList, newChains', FrontEntries(entries, |heads|, i + 1))
      ensures |moved| + n == |FrontEntries(entries, |heads|, i + 1)|
    {
      hide Bucket, Stored, Chained, Buckets, Distinct, FrontEntries, Members;
      BucketEntries(chains, entries, i);
      newChains', n := MoveChain(newList, heads[i], chains[i], newChains, moved);
      forall c: nat | i < c < |heads| ensures Chained(heads[c], chains[c]) {
        OtherEntries(chains, entries, i, c);
        assert old(Chained(heads[c], chains[c]));
      }
    }

    // Moves the entries of one old chain to the new table.
    static method MoveChain(newList: array<Handle?<V>>, head: Handle?<V>, ghost chain: seq<Handle<V>>,
                            ghost chains: seq<seq<Handle<V>>>, ghost entries: set<Handle<V>>)
      returns (ghost chains': seq<seq<Handle<V>>>, count: nat)
      requires Stored(newList, chains, entries) && Chained(head, chain) && Distinct(chain) && Members(chain) !! entries
      modifies newList, Members(chain)`nextHash
      ensures Stored(newList, chains', entries + Members(chain)) && count == |Members(chain)|
    {
      hide Bucket, Stored, Members;
      var h := head;
      chains', count := chains, 0;
      ghost var rest := chain;
      ghost var moved: set<Handle<V>> := {};
      ghost var all := entries;
      while h != null
        invariant Chained(h, rest) && Distinct(rest)
        invariant Stored(newList, chains', all) && all == entries + moved && count == |moved|
        invariant moved !! Members(rest) && moved + Members(rest) == Members(chain)
        decreases |rest|
      {
        var e: Handle<V> := h;
        var next := e.nextHash;
        assert e == rest[0];
        ghost var tail := RestOf(e, rest, 0);
        MovedStep(moved, rest, tail, e);
        chains' := PushFront(newList, e, chains', all);
        all := all + {e};
        moved := moved + {e};
        rest := tail;
        h := next;
        count := count + 1;
      }
      assert rest == [];
      NoMembers<V>();
    }
  }

  ghost function Members<V>(chain: seq<Handle<V>>): set<Handle<V>> {
    set h | h in chain
  }

  lemma NoMembers<V>()
    ensures Members<V>([]) == {}
  {
  }

  lemma MovedStep<V>(moved: set<Handle<V>>, rest: seq<Handle<V>>, tail: seq<Handle<V>>, e: Handle<V>)
    requires moved !! Members(rest) && rest != [] && e == rest[0] && tail == rest[1..] && e !in tail
    ensures e !in moved && e in Members(rest) && |moved + {e}| == |moved| + 1
    ensures moved + {e} !! Members(tail) && moved + {e} + Members(tail) == moved + Members(rest)
  {
    assert forall h :: h in rest <==> h == e || h in tail;
    assert e in Members(rest);
  }

  // The entries in the first n of so many buckets.
  ghost function FrontEntries<V>(entries: set<Handle<V>>, buckets: nat, n: nat): set<Handle<V>>
    requires buckets > 0
  {
    set h | h in entries && Bucket(h.hash, buckets) < n
  }

  lemma NoEntries<V>(entries: set<Handle<V>>, buckets: nat)
    requires buckets > 0
    ensures FrontEntries(entries, buckets, 0) == {}
  {
  }

  lemma AllEntries<V>(entries: set<Handle<V>>, buckets: nat)
    requires buckets > 0
    ensures FrontEntries(entries, buckets, buckets) == entries
  {
  }

  lemma BucketEntries<V>(chains: seq<seq<Handle<V>>>, entries: set<Handle<V>>, i: nat)
    requires Buckets(chains, entries) && i < |chains|
    ensures Distinct(chains[i]) && Members(chains[i]) <= entries
    ensures FrontEntries(entries, |chains|, i) !! Members(chains[i])
    ensures |FrontEntries(entries, |chains|, i) + Members(chains[i])| == |FrontEntries(entries, |chains|, i)| + |Members(chains[i])|
    ensures FrontEntries(entries, |chains|, i) + Members(chains[i]) == FrontEntries(entries, |chains|, i + 1)
  {
    hide Bucket;
  }

  lemma OtherEntries<V>(chains: seq<seq<Handle<V>>>, entries: set<Handle<V>>, b: nat, c: nat)
    requires Buckets(chains, entries) && b < |chains| && c < |chains| && c != b
    ensures Members(chains[c]) !! Members(chains[b]) && forall h :: h in chains[c] ==> h !in Members(chains[b])
  {
    forall h | h in chains[c] ensures h !in chains[b] {
      if h in chains[b] {
        ChainsApart(chains, entries, b, c, h);
      }
    }
  }

  lemma FewerUnique<V>(entries: set<Handle<V>>, cur: Handle<V>)
    requires UniqueKeys(entries)
    ensures UniqueKeys(entries - {cur})
  {
  }

  lemma Prepended<V>(h: Handle<V>, rest: seq<Handle<V>>)
    requires h !in rest && h.nextHash == At(rest, 0) && Chained(At(rest, 0), rest)
    ensures Chained(h, [h] + rest)
  {
    var tail := [h] + rest;
    assert forall k: nat :: k < |rest| ==> tail[k + 1] == rest[k];
    forall k: nat | k < |tail| ensures tail[k].nextHash == At(tail, k + 1) {
      assert k > 0 ==> tail[k] == rest[k - 1] && rest[k - 1].nextHash == At(rest, k);
    }
  }
}
