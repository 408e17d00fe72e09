// util/cache.cpp LRUCache: one shard of the cache.
module Caches {
  import opened HandleTables

  // The nodes of r link to their neighbours in both directions, and the ends to each other.
  ghost predicate Linked<V>(r: seq<Handle<V>>)
    requires |r| > 0
    reads r`next, r`prev
  {
    && (forall i {:trigger r[i].next} :: 0 <= i < |r| - 1 ==> r[i].next == r[i + 1])
    && (forall i {:trigger r[i].prev} :: 0 < i < |r| ==> r[i].prev == r[i - 1])
    && r[|r| - 1].next == r[0] && r[0].prev == r[|r| - 1]
  }

  // The circular list through the dummy head: the entries of order, oldest first.
  ghost predicate Ring<V>(lru: Handle<V>, order: seq<Handle<V>>)
    reads lru`next, lru`prev, order`next, order`prev
  {
    Distinct([lru] + order) && Linked([lru] + order)
  }

  // order without h.
  function Minus<V>(order: seq<Handle<V>>, h: Handle?<V>): (r: seq<Handle<V>>) {
    if |order| == 0 then []
    else if order[0] == h then order[1..]
    else [order[0]] + Minus(order[1..], h)
  }

  lemma {:induction false} MinusAt<V>(order: seq<Handle<V>>, i: nat)
    requires i < |order| && Distinct(order)
    ensures Minus(order, order[i]) == order[..i] + order[i + 1..]
  {
    if i > 0 {
      MinusAt(order[1..], i - 1);
      assert order[1..][i - 1] == order[i] && order[0] != order[i];
      assert order[..i] == [order[0]] + order[1..][..i - 1];
    }
  }

  lemma {:induction false} MinusNone<V>(order: seq<Handle<V>>, h: Handle?<V>)
    requires h == null || h !in order
    ensures Minus(order, h) == order
  {
    if |order| > 0 {
      MinusNone(order[1..], h);
    }
  }

  // The total charge of a set of entries.
  ghost function Charges<V>(s: set<Handle<V>>): nat {
    if s == {} then 0 else
    var h :| h in s;
    h.charge + Charges(s - {h})
  }

  lemma {:induction false} ChargesOf<V>(s: set<Handle<V>>, h: Handle<V>)
    requires h in s
    ensures Charges(s) == h.charge + Charges(s - {h})
    decreases s
  {
    var g :| g in s && Charges(s) == g.charge + Charges(s - {g});
    if g != h {
      ChargesOf(s - {g}, h);
      ChargesOf(s - {h}, g);
      assert s - {g} - {h} == s - {h} - {g};
    }
  }

  method LinkBefore<V>(lru: Handle<V>, e: Handle<V>, ghost order: seq<Handle<V>>)
    requires Ring(lru, order) && e != lru && e !in order
    modifies lru`prev, lru`next, order`next, e`prev, e`next
    ensures Ring(lru, order + [e])
  {
    ghost var r := [lru] + order;
    assert r[0].prev == r[|r| - 1];
    e.next := lru;
    e.prev := lru.prev;
    e.prev.next := e;
    e.next.prev := e;
    assert [lru] + (order + [e]) == r + [e];
  }

  method Bypass<V>(e: Handle<V>, ghost r: seq<Handle<V>>, ghost i: nat)
    requires 0 < i < |r| && r[i] == e && Distinct(r) && Linked(r)
    modifies r`next, r`prev
    ensures Distinct(r[..i] + r[i + 1..]) && Linked(r[..i] + r[i + 1..])
  {
    ghost var before := r[i - 1];
    ghost var after := if i + 1 < |r| then r[i + 1] else r[0];
    assert e.prev == before && e.next == after;
    e.next.prev := e.prev;
    e.prev.next := e.next;
  }

  method Unlink<V>(lru: Handle<V>, e: Handle<V>, ghost order: seq<Handle<V>>)
    requires Ring(lru, order) && e in order
    modifies lru`prev, lru`next, order`next, order`prev
    ensures Ring(lru, Minus(order, e))
  {
    hide Linked, Distinct, Minus, Members;
    ghost var i := PlaceOf(lru, order, e);
    Bypass(e, [lru] + order, i + 1);
  }

  lemma PlaceOf<V>(lru: Handle<V>, order: seq<Handle<V>>, e: Handle<V>) returns (i: nat)
    requires Ring(lru, order) && e in order
    ensures i < |order| && order[i] == e
    ensures var r := [lru] + order; [lru] + Minus(order, e) == r[..i + 1] + r[i + 2..]
  {
    RingParts(lru, order);
    hide Linked, Distinct, Minus;
    i :| i < |order| && order[i] == e;
    MinusAt(order, i);
  }

  // LRU_Remove, then LRU_Append.
  method MoveToBack<V>(lru: Handle<V>, e: Handle<V>, ghost order: seq<Handle<V>>)
    requires Ring(lru, order) && e in order && e != lru && e !in Minus(order, e)
    modifies lru`prev, lru`next, order`next, order`prev, Minus(order, e)`next, e`prev, e`next
    ensures Ring(lru, Minus(order, e) + [e])
  {
    hide Ring, Minus;
    Unlink(lru, e, order);
    LinkBefore(lru, e, Minus(order, e));
  }

  lemma RingParts<V>(lru: Handle<V>, order: seq<Handle<V>>)
    requires Ring(lru, order)
    ensures Distinct(order) && lru !in order
    ensures forall h :: h in Members(order) ==> h != lru
  {
    var r := [lru] + order;
    assert forall k :: 0 <= k < |order| ==> order[k] == r[k + 1] && r[k + 1] != r[0];
  }

  lemma {:induction false} MinusMembers<V>(order: seq<Handle<V>>, h: Handle<V>)
    requires Distinct(order) && h in order
    ensures Members(Minus(order, h)) == Members(order) - {h}
  {
    hide Minus;
    var i: nat :| i < |order| && order[i] == h;
    MinusAt(order, i);
    var r := Minus(order, h);
    assert forall k: nat :: k < |r| ==> r[k] == order[if k < i then k else k + 1];
    forall e | e in r ensures e in order && e != h {
      var k: nat :| k < |r| && r[k] == e;
    }
    forall e | e in order && e != h ensures e in r {
      var k: nat :| k < |order| && order[k] == e;
      assert r[if k < i then k else k - 1] == e;
    }
  }

  // Every live entry counts one reference for the cache, if it is cached, and one for each
  // handle a caller holds; every entry with references is live.
  ghost predicate Counted<V>(live: set<Handle<V>>, cached: set<Handle<V>>, held: multiset<Handle<V>>)
    reads live`refs
  {
    && cached <= live
    && (forall e :: e in held ==> e in live)
    && (forall e :: e in live ==> e.refs == References(e, cached, held) && e.refs > 0)
  }

  ghost function References<V>(e: Handle<V>, cached: set<Handle<V>>, held: multiset<Handle<V>>): nat {
    (if e in cached then 1 else 0) + held[e]
  }

  // The same, when a reference to e has been given up but not yet taken off its count.
  ghost predicate Owing<V>(live: set<Handle<V>>, cached: set<Handle<V>>, held: multiset<Handle<V>>, e: Handle<V>)
    reads live`refs
  {
    && cached <= live && e in live
    && (forall x :: x in held ==> x in live)
    && (forall x :: x in live ==> x.refs == References(x, cached, held) + (if x == e then 1 else 0) && x.refs > 0)
  }

  lemma HandleGivenUp<V>(live: set<Handle<V>>, cached: set<Handle<V>>, held: multiset<Handle<V>>, e: Handle<V>)
    requires Counted(live, cached, held) && e in held
    ensures Owing(live, cached, held - multiset{e}, e)
  {
  }

  lemma CacheGivesUp<V>(live: set<Handle<V>>, cached: set<Handle<V>>, held: multiset<Handle<V>>, e: Handle<V>)
    requires Counted(live, cached, held) && e in cached
    ensures Owing(live, cached - {e}, held, e)
  {
  }

  // The deleter of an entry runs once, after its last reference is gone.
  ghost predicate FreedOk<V>(freed: seq<Handle<V>>, live: set<Handle<V>>) {
    Distinct(freed) && forall e :: e in freed ==> e !in live
  }

  lemma FreedStays<V>(freed: seq<Handle<V>>, live: set<Handle<V>>, e: Handle<V>)
    requires FreedOk(freed, live) && e !in freed
    ensures FreedOk(freed, live + {e})
  {
  }

  // The entries of order that callers hold, or hold not.
  ghost function Having<V>(order: seq<Handle<V>>, held: multiset<Handle<V>>, want: bool): seq<Handle<V>> {
    if |order| == 0 then []
    else
      var last := order[|order| - 1];
      Having(order[..|order| - 1], held, want) + if (last in held) == want then [last] else []
  }

  // The entry, unless a caller holds it.
  function Unheld<V>(h: Handle?<V>, held: multiset<Handle<V>>): seq<Handle<V>> {
    if h != null && h !in held then [h] else []
  }

  // Those of the list that are held, or those that are not, each where it was among them.
  lemma {:induction false} HavingIs<V>(order: seq<Handle<V>>, held: multiset<Handle<V>>, want: bool, h: Handle<V>)
    ensures h in Having(order, held, want) <==> h in order && (h in held) == want
    ensures |Having(order, held, true)| + |Having(order, held, false)| == |order|
    decreases |order|
  {
    if |order| > 0 {
      HavingIs(order[..|order| - 1], held, want, h);
    }
  }

  lemma HavingNext<V>(order: seq<Handle<V>>, held: multiset<Handle<V>>, want: bool, i: nat)
    requires i < |order|
    ensures Having(order[..i + 1], held, want)
         == Having(order[..i], held, want) + if (order[i] in held) == want then [order[i]] else []
  {
    assert order[..i + 1][..i] == order[..i];
  }

  class LRUCache<V(0)> {
    const table: HandleTable<V>
    const lru: Handle<V>               // dummy head: lru.next is the oldest entry
    var capacity: nat
    var usage: nat
    ghost var order: seq<Handle<V>>    // the cached entries, least recently used first
    ghost var live: set<Handle<V>>     // entries not yet freed
    ghost var held: multiset<Handle<V>> // handles returned and not yet released
    ghost var freed: seq<Handle<V>>    // entries whose deleter has run, in order

    constructor (capacity: nat)
      ensures Valid() && order == [] && live == {} && held == multiset{} && freed == [] && this.capacity == capacity
      ensures fresh(table) && fresh(lru) && fresh(table.list)
    {
      this.capacity := capacity;
      var v: V := *;
      var head := new Handle("", 0, v, 0, 0);
      table := new HandleTable<V>();
      lru := head;
      usage := 0;
      order, live, held, freed := [], {}, multiset{}, [];
      new;
      lru.next := lru;
      lru.prev := lru;
    }

    ghost predicate Valid()
      reads this, table, table.list, table.entries`nextHash, live`refs
      reads lru`next, lru`prev, order`next, order`prev
    {
      && table.Valid() && Ring(lru, order) && Members(order) == table.entries
      && lru !in live && Counted(live, table.entries, held)
      && usage == Charges(live) && FreedOk(freed, live)
    }

    // Drops a reference; the deleter runs when none is left.
    method Unref(e: Handle<V>, ghost cached: set<Handle<V>>, ghost held: multiset<Handle<V>>)
      requires Owing(live, cached, held, e) && usage == Charges(live) && FreedOk(freed, live)
      modifies this`usage, this`live, this`freed, e`refs
      ensures Counted(live, cached, held) && usage == Charges(live) && FreedOk(freed, live)
      ensures var last := References(e, cached, held) == 0;
              && live == old(live) - (if last then {e} else {})
              && freed == old(freed) + if last then [e] else []
    {
      hide Charges;
      e.refs := e.refs - 1;
      if e.refs <= 0 {
        ChargesOf(live, e);
        usage := usage - e.charge;
        freed := freed + [e];
        live := live - {e};
      }
    }

    method Release(handle: Handle<V>)
      requires Valid() && handle in held
      modifies this`usage, this`live, this`freed, this`held, handle`refs
      ensures Valid() && held == old(held) - multiset{handle} && order == old(order)
      ensures freed == old(freed) + if References(handle, Members(order), held) == 0 then [handle] else []
    {
      hide Ring, Charges, Distinct, FreedOk, Owing, Counted, References, Members, Stored, UniqueKeys;
      HandleGivenUp(live, table.entries, held, handle);
      held := held - multiset{handle};
      Unref(handle, table.entries, held);
    }

    // Takes e, which the table has just given up, off the list and drops the cache's reference.
    method Forget(e: Handle<V>)
      requires table.Valid() && Ring(lru, order) && e in order && Members(order) - {e} == table.entries && lru !in live
      requires Counted(live, table.entries + {e}, held) && usage == Charges(live) && FreedOk(freed, live)
      modifies this`usage, this`live, this`freed, this`order, lru`next, lru`prev, live`next, live`prev, e`refs
      ensures Valid() && order == Minus(old(order), e)
      ensures var last := References(e, table.entries, held) == 0;
              && live == old(live) - (if last then {e} else {})
              && freed == old(freed) + if last then [e] else []
    {
      hide Ring, Charges, FreedOk, Owing, Counted, References, Members, Stored, UniqueKeys, Distinct, Minus, HandleTable.Valid;
      ForgetFacts(lru, order, e, table.entries, live, held);
      ghost var was := order;
      order := Minus(was, e);
      Unlink(lru, e, was);
      Unref(e, table.entries, held);
    }

    static lemma ForgetFacts(lru: Handle<V>, order: seq<Handle<V>>, e: Handle<V>, cached: set<Handle<V>>, live: set<Handle<V>>,
                             held: multiset<Handle<V>>)
      requires Ring(lru, order) && e in order && Members(order) - {e} == cached && Counted(live, cached + {e}, held)
      ensures Owing(live, cached, held, e) && Members(Minus(order, e)) == cached && e in live
      ensures forall h :: h in order ==> h in live
    {
      RingParts(lru, order);
      MinusMembers(order, e);
      CacheGivesUp(live, cached + {e}, held, e);
      assert cached + {e} - {e} == cached;
      assert forall h :: h in order ==> h in Members(order);
    }

    method Erase(key: string, hash: nat) returns (ghost e: Handle?<V>)
      requires Valid()
      modifies this`usage, this`live, this`freed, this`order, lru, table, table.list, live
      ensures Valid() && IsEntry(old(table.entries), key, hash, e) && order == Minus(old(order), e)
      ensures held == old(held) && table.list == old(table.list)
      ensures freed == old(freed) + if e != null && e !in held then [e] else []
    {
      hide Ring, Charges, FreedOk, Owing, Stored, UniqueKeys, Distinct, Minus, Counted, Members;
      CachedLive(live, table.entries, held);
      CachedListed(order, table.entries);
      var h := table.Remove(key, hash);
      e := h;
      if h != null {
        assert table.entries + {h} == old(table.entries);
        Forget(h);
      } else {
        MinusNone(order, null);
      }
    }

    method Lookup(key: string, hash: nat) returns (e: Handle?<V>)
      requires Valid()
      modifies this`order, this`held, lru`next, lru`prev, live`next, live`prev, live`refs
      ensures Valid() && IsEntry(table.entries, key, hash, e)
      ensures order == if e == null then old(order) else Minus(old(order), e) + [e]
      ensures held == if e == null then old(held) else old(held) + multiset{e}
    {
      hide Ring, Charges, FreedOk, Stored, UniqueKeys, Distinct, Minus, Members, Counted, HandleTable.Valid, IsEntry;
      e := table.Lookup(key, hash);
      if e != null {
        var h: Handle<V> := e;
        MoveFacts(lru, order, h, table.entries, live, held);
        ghost var was := order;
        held := held + multiset{h};
        order := Minus(was, h) + [h];
        Touch(h, old(held));
        MoveToBack(lru, h, was);
      }
    }

    method Touch(h: Handle<V>, ghost was: multiset<Handle<V>>)
      requires Counted(live, table.entries, was) && h in live && held == was + multiset{h}
      modifies h`refs
      ensures Counted(live, table.entries, held)
    {
      h.refs := h.refs + 1;
    }

    static lemma MoveFacts(lru: Handle<V>, order: seq<Handle<V>>, e: Handle<V>, cached: set<Handle<V>>, live: set<Handle<V>>,
                           held: multiset<Handle<V>>)
      requires Ring(lru, order) && e in cached && Members(order) == cached && Counted(live, cached, held)
      ensures e in order && e in live && e != lru && e !in Minus(order, e)
      ensures Members(Minus(order, e) + [e]) == cached
      ensures forall h :: h in order || h in Minus(order, e) ==> h in live
    {
      RingParts(lru, order);
      MinusMembers(order, e);
      hide Ring, Minus, Distinct;
      var rest := Minus(order, e);
      assert Members(rest + [e]) == Members(rest) + {e};
      assert forall h :: h in rest <==> h in Members(rest);
      assert forall h :: h in order <==> h in Members(order);
    }

    // Takes a cached entry out of the table and off the list.
    method Evict(h: Handle<V>)
      requires Valid() && h in order
      modifies this`usage, this`live, this`freed, this`order, lru, table, table.list, live
      ensures Valid() && order == Minus(old(order), h) && held == old(held) && table.list == old(table.list)
      ensures live <= old(live) == live + {h}
      ensures freed == old(freed) + if h !in held then [h] else []
    {
      hide Ring, Charges, FreedOk, Stored, UniqueKeys, Distinct, Counted, Owing, Minus;
      assert h in Members(order);
      CachedLive(live, table.entries, held);
      var removed := table.Remove(h.key, h.hash);
      UniqueEntry(old(table.entries), h, removed);
      assert table.entries + {h} == old(table.entries);
      Forget(h);
    }

    // One round of Insert's eviction loop.
    method EvictOldest()
      requires Valid() && order != []
      modifies this`usage, this`live, this`freed, this`order, lru, table, table.list, live
      ensures Valid() && order == old(order)[1..] && held == old(held) && table.list == old(table.list)
      ensures live <= old(live) == live + {old(order)[0]}
      ensures freed == old(freed) + if old(order)[0] !in held then [old(order)[0]] else []
    {
      RingFirst(lru, order);
      assert Minus(order, order[0]) == order[1..] by { MinusFirst(order); }
      hide Valid;
      var h: Handle<V> := lru.next;
      Evict(h);
    }

    static lemma CachedLive(live: set<Handle<V>>, cached: set<Handle<V>>, held: multiset<Handle<V>>)
      requires Counted(live, cached, held)
      ensures cached <= live
    {
    }

    static lemma CachedListed(order: seq<Handle<V>>, cached: set<Handle<V>>)
      requires Members(order) == cached
      ensures forall h :: h in cached ==> h in order
    {
    }

    static lemma UniqueEntry(entries: set<Handle<V>>, h: Handle<V>, found: Handle?<V>)
      requires UniqueKeys(entries) && h in entries && IsEntry(entries, h.key, h.hash, found)
      ensures found == h
    {
    }

    static lemma MinusFirst(order: seq<Handle<V>>)
      requires order != []
      ensures Minus(order, order[0]) == order[1..]
    {
    }

    static lemma RingFirst(lru: Handle<V>, order: seq<Handle<V>>)
      requires Ring(lru, order)
      ensures lru.next == if order == [] then lru else order[0]
      ensures order != [] ==> order[0] != lru
    {
      RingParts(lru, order);
      assert ([lru] + order)[0].next == if |order| > 0 then ([lru] + order)[1] else lru;
    }

    // A new entry replaces the one with its key; then the least recently used go until the
    // charges fit or nothing is cached. The first n of base were evicted.
    method Insert(key: string, hash: nat, value: V, charge: nat)
      returns (e: Handle<V>, ghost replaced: Handle?<V>, ghost n: nat)
      requires Valid()
      modifies this`usage, this`live, this`freed, this`order, this`held, lru, table, table.list, live
      ensures Valid() && fresh(e) && e.key == key && e.hash == hash && e.value == value && e.charge == charge
      ensures held == old(held) + multiset{e} && (table.list == old(table.list) || fresh(table.list))
      ensures IsEntry(old(table.entries), key, hash, replaced)
      ensures var base := Minus(old(order), replaced) + [e];
              n <= |base| && order == base[n..] && (n > 0 ==> Charges(live + {base[n - 1]}) > capacity)
              && freed == old(freed) + Unheld(replaced, held) + Having(base[..n], held, false)
      ensures usage <= capacity || order == []
    {
      hide Ring, Charges, FreedOk, Stored, UniqueKeys, Distinct, Counted, Minus, Members, IsEntry, Having, Unheld, HandleTable.Valid;
      CachedLive(live, table.entries, held);
      e := new Handle(key, hash, value, charge, 2);
      replaced := AddEntry(e);
      ghost var base, gone := order, freed;
      n := 0;
      assert base[0..] == base && base[..0] == [];
      HavingNone(held);
      RingFirst(lru, order);
      while usage > capacity && lru.next != lru
        invariant Valid() && held == old(held) + multiset{e} && capacity == old(capacity)
        invariant live <= old(live) + {e}
        invariant table.list == old(table.list) || fresh(table.list)
        invariant n <= |base| && order == base[n..] && (n > 0 ==> Charges(live + {base[n - 1]}) > capacity)
        invariant freed == gone + Having(base[..n], held, false)
        invariant lru.next == if order == [] then lru else order[0]
        decreases |order|
      {
        assert order != [] by { RingFirst(lru, order); }
        assert order[0] == base[n] && order[1..] == base[n + 1..];
        HavingNext(base, held, false, n);
        EvictOldest();
        n := n + 1;
        RingFirst(lru, order);
      }
      assert order == [] || order[0] != lru by { RingFirst(lru, order); }
    }

    // The first half of Insert.
    method AddEntry(e: Handle<V>) returns (ghost replaced: Handle?<V>)
      requires Valid() && e.refs == 2 && e !in live && e !in freed && e != lru
      modifies this`usage, this`live, this`freed, this`order, this`held, lru, table, table.list, live, e
      ensures Valid()
      ensures held == old(held) + multiset{e} && (table.list == old(table.list) || fresh(table.list))
      ensures IsEntry(old(table.entries), e.key, e.hash, replaced) && order == Minus(old(order), replaced) + [e]
      ensures live <= old(live) + {e} && freed == old(freed) + Unheld(replaced, held)
    {
      hide Unheld, HandleTable.Valid, Ring, Charges, FreedOk, Stored, UniqueKeys, Distinct, Counted, Minus, Members, IsEntry, References, Owing;
      ghost var was, listed := table.entries, order;
      CachedLive(live, table.entries, held);
      Enlist(e);
      EnlistedFacts(order, e, was, live, held);
      var h := table.Insert(e);
      replaced := h;
      Displace(h, listed, e, was);
    }

    // The entry the new one replaced in the table leaves the list.
    method Displace(h: Handle?<V>, ghost listed: seq<Handle<V>>, ghost e: Handle<V>, ghost was: set<Handle<V>>)
      requires table.Valid() && Ring(lru, order) && lru !in live && usage == Charges(live) && FreedOk(freed, live)
      requires order == listed + [e] && e !in was && IsEntry(was, e.key, e.hash, h)
      requires Counted(live, was + {e}, held) && Members(order) == was + {e} && table.entries == was - Only(h) + {e}
      modifies this`usage, this`live, this`freed, this`order, lru`next, lru`prev, live`next, live`prev, live`refs
      ensures Valid() && order == Minus(listed, h) + [e] && live <= old(live) && freed == old(freed) + Unheld(h, held)
    {
      hide Ring, Charges, FreedOk, Stored, UniqueKeys, Distinct, Counted, Minus, Members, References, Owing, HandleTable.Valid;
      EnlistedFacts(order, e, was, live, held);
      if h != null {
        ReplacedIsOld(was, e, h);
        MinusSnoc(listed, e, h);
        OnlyHandles(h, table.entries, held);
        Forget(h);
      } else {
        MinusNone(listed, null);
        assert table.entries == was + {e};
      }
    }

    // A new entry, counted, charged and listed, but not yet in the table.
    method Enlist(e: Handle<V>)
      requires Valid() && e.refs == 2 && e !in live && e !in freed && e != lru
      modifies this`usage, this`live, this`order, this`held, lru`next, lru`prev, live`next, e`next, e`prev
      ensures order == old(order) + [e] && live == old(live) + {e} && held == old(held) + multiset{e}
      ensures table.Valid() && Ring(lru, order) && Members(order) == table.entries + {e} && lru !in live
      ensures Counted(live, table.entries + {e}, held) && usage == Charges(live) && FreedOk(freed, live)
    {
      hide Ring, Charges, FreedOk, Stored, UniqueKeys, Distinct, Counted, Minus, Members, HandleTable.Valid;
      AddFacts(lru, order, e, table.entries, live, held);
      FreedStays(freed, live, e);
      ghost var was := order;
      order := was + [e];
      live := live + {e};
      held := held + multiset{e};
      usage := usage + e.charge;
      LinkBefore(lru, e, was);
    }

    static lemma EnlistedFacts(order: seq<Handle<V>>, e: Handle<V>, cached: set<Handle<V>>, live: set<Handle<V>>, held: multiset<Handle<V>>)
      requires Counted(live, cached + {e}, held) && Members(order) == cached + {e}
      ensures cached <= live && forall h :: h in cached ==> h in order
    {
      CachedListed(order, cached + {e});
    }

    static lemma OnlyHandles(h: Handle<V>, cached: set<Handle<V>>, held: multiset<Handle<V>>)
      requires h !in cached
      ensures References(h, cached, held) == 0 <==> h !in held
    {
    }

    static lemma ReplacedIsOld(entries: set<Handle<V>>, e: Handle<V>, h: Handle<V>)
      requires IsEntry(entries, e.key, e.hash, h) && e !in entries
      ensures h in entries && h != e && h !in entries - Only(h) + {e}
      ensures var now := entries - Only(h) + {e}; now + {h} == entries + {e} && entries + {e} - {h} == now
    {
    }

    static lemma AddFacts(lru: Handle<V>, order: seq<Handle<V>>, e: Handle<V>, cached: set<Handle<V>>, live: set<Handle<V>>,
                          held: multiset<Handle<V>>)
      requires Ring(lru, order) && Members(order) == cached && Counted(live, cached, held) && e !in live && e.refs == 2
      ensures Counted(live + {e}, cached + {e}, held + multiset{e})
      ensures e !in order && Members(order + [e]) == cached + {e}
      ensures Charges(live + {e}) == Charges(live) + e.charge
      ensures forall h :: h in order ==> h in live
    {
      assert forall h :: h in order <==> h in Members(order);
      ChargesOf(live + {e}, e);
      assert live + {e} - {e} == live;
    }

    static lemma {:induction false} MinusSnoc(order: seq<Handle<V>>, e: Handle<V>, h: Handle<V>)
      requires e != h
      ensures Minus(order + [e], h) == Minus(order, h) + [e]
    {
      if |order| == 0 {
      } else {
        assert (order + [e])[1..] == order[1..] + [e];
        MinusSnoc(order[1..], e, h);
      }
    }

    lemma PruneFacts(h: Handle<V>, kept: seq<Handle<V>>, rest: seq<Handle<V>>)
      requires Valid() && order == kept + ([h] + rest)
      ensures h in live && h in order && (h.refs == 1 <==> h !in held)
      ensures h.next == if rest == [] then lru else rest[0]
      ensures Minus(order, h) == kept + rest == kept + [] + rest
      ensures order == kept + [h] + rest
    {
      hide Ring, Minus, Distinct, Charges, FreedOk, HandleTable.Valid;
      SplitAt(order, kept, h, rest);
      NextInRing(lru, order, |kept|);
      SplitMinus(order, kept, h, rest);
    }

    static lemma SplitAt(order: seq<Handle<V>>, kept: seq<Handle<V>>, h: Handle<V>, rest: seq<Handle<V>>)
      requires order == kept + ([h] + rest)
      ensures order == kept + [h] + rest && kept + rest == kept + [] + rest && |kept| < |order| && h in order
      ensures order[|kept|] == h && (rest == [] <==> |kept| + 1 == |order|) && (rest != [] ==> order[|kept| + 1] == rest[0])
      ensures h in Members(order)
    {
    }

    static lemma SplitMinus(order: seq<Handle<V>>, kept: seq<Handle<V>>, h: Handle<V>, rest: seq<Handle<V>>)
      requires order == kept + ([h] + rest) && Distinct(order)
      ensures Minus(order, h) == kept + rest
    {
      hide Minus;
      MinusAt(order, |kept|);
      assert order[..|kept|] == kept && order[|kept| + 1..] == rest;
    }

    static lemma NextInRing(lru: Handle<V>, order: seq<Handle<V>>, j: nat)
      requires Ring(lru, order) && j < |order|
      ensures Distinct(order) && order[j].next == if j + 1 < |order| then order[j + 1] else lru
    {
      RingParts(lru, order);
      var r := [lru] + order;
      assert r[j + 1] == order[j];
      assert r[j + 1].next == if j + 2 < |r| then r[j + 2] else r[0];
    }

    static lemma HavingNone(held: multiset<Handle<V>>)
      ensures Having([], held, true) == [] && Having([], held, false) == []
    {
    }

    // One round of Prune's loop.
    method PruneOne(h: Handle<V>, ghost kept: seq<Handle<V>>, ghost rest: seq<Handle<V>>) returns (next: Handle?<V>)
      requires Valid() && order == kept + ([h] + rest)
      modifies this`usage, this`live, this`freed, this`order, lru, table, table.list, live
      ensures Valid() && held == old(held) && table.list == old(table.list) && live <= old(live)
      ensures order == kept + (if h in held then [h] else []) + rest
      ensures freed == old(freed) + if h in held then [] else [h]
      ensures next == if rest == [] then lru else rest[0]
    {
      hide Valid, Minus;
      PruneFacts(h, kept, rest);
      next := h.next;
      if h.refs == 1 {
        Evict(h);
      }
    }

    // Frees every cached entry that no caller holds, and leaves the others in their order.
    method Prune()
      requires Valid()
      modifies this`usage, this`live, this`freed, this`order, lru, table, table.list, live
      ensures Valid() && held == old(held) && table.list == old(table.list)
      ensures order == Having(old(order), held, true)
      ensures freed == old(freed) + Having(old(order), held, false)
    {
      hide Ring, Charges, FreedOk, Stored, UniqueKeys, Distinct, Counted, Minus, Members, References, Owing, Having, HandleTable.Valid;
      ghost var was, i := order, 0;
      HavingNone(held);
      RingFirst(lru, order);
      RingParts(lru, order);
      hide Valid;
      assert was[0..] == was && was[..0] == [];
      assert order == [] + was[0..];
      var e := lru.next;
      while e != lru
        invariant Valid() && held == old(held) && table.list == old(table.list) && live <= old(live)
        invariant i <= |was| && order == Having(was[..i], held, true) + was[i..]
        invariant freed == old(freed) + Having(was[..i], held, false)
        invariant e == if i < |was| then was[i] else lru
        decreases |was| - i
      {
        assert was[i..] == [was[i]] + was[i + 1..];
        HavingNext(was, held, true, i);
        HavingNext(was, held, false, i);
        var h: Handle<V> := e;
        var next := PruneOne(h, Having(was[..i], held, true), was[i + 1..]);
        e := next;
        i := i + 1;
      }
      assert i == |was| && was[..|was|] == was && was[|was|..] == [];
    }
  }
}
