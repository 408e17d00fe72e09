// db/memtable.cpp: the memtable, entries encoded as bytes in a skip list.
module MemTables {
  import opened Options
  import opened Coding
  import opened Ordering
  import opened ByteStrings
  import opened Entries
  import opened InternalKeys
  import SkipLists

  function EntryBytes(v: Version): Bytes {
    LengthPrefixed(Encode(v)) + LengthPrefixed(v.value)
  }

  // LookupKey::memtable_key.
  function MemKey(user: Bytes, snap: nat): Bytes {
    LengthPrefixed(LookupKey(user, snap))
  }

  // Lengths are 32-bit varints, sequence numbers 56-bit.
  predicate Fits(v: Version) {
    |v.key| + 8 < TWO_32 && |v.value| < TWO_32 && v.seqno <= MAX_SEQUENCE
  }

  function InternalKeyOf(entry: Bytes): Bytes {
    match GetLengthPrefixed(entry)
    case None => []
    case Some((key, _)) => key
  }

  // KeyComparator. Entries it calls equal, which a list never holds both of, are put in some order.
  function EntryCompare(c: Comparator<Bytes>, a: Bytes, b: Bytes): int {
    var r := InternalCompare(c, InternalKeyOf(a), InternalKeyOf(b));
    if r != 0 then r else BytewiseCompare(a, b)
  }

  function EntryOrder(c: Comparator<Bytes>): Comparator<Bytes> {
    (a, b) => EntryCompare(c, a, b)
  }

  lemma EntryOrderIsTotal(c: Comparator<Bytes>)
    requires TotalOrder(c)
    ensures TotalOrder(EntryOrder(c))
  {
    hide InternalCompare, BytewiseCompare, InternalKeyOf;
    var o := EntryOrder(c);
    forall a, b
      ensures Compare(o, a, b) == 0 <==> a == b
      ensures Compare(o, a, b) < 0 <==> Compare(o, b, a) > 0
    {
      InternalAntisymmetric(c, InternalKeyOf(a), InternalKeyOf(b));
      InternalAntisymmetric(c, InternalKeyOf(b), InternalKeyOf(a));
      BytewiseAntisymmetric(a, b);
    }
    forall a, b, d | Compare(o, a, b) < 0 && Compare(o, b, d) < 0 ensures Compare(o, a, d) < 0 {
      var x, y, z := InternalKeyOf(a), InternalKeyOf(b), InternalKeyOf(d);
      InternalAntisymmetric(c, x, y);
      InternalAntisymmetric(c, y, z);
      InternalAntisymmetric(c, x, x);
      if InternalCompare(c, x, y) < 0 && InternalCompare(c, y, z) < 0 {
        InternalTransitive(c, x, y, z);
      }
      if InternalCompare(c, x, y) == 0 && InternalCompare(c, y, z) == 0 {
        BytewiseTransitive(a, b, d);
      }
    }
  }

  lemma EntryParts(v: Version)
    requires Fits(v)
    ensures GetLengthPrefixed(EntryBytes(v)) == Some((Encode(v), LengthPrefixed(v.value)))
    ensures GetLengthPrefixed(LengthPrefixed(v.value)) == Some((v.value, []))
  {
    LengthPrefixedRoundTrip(Encode(v), LengthPrefixed(v.value));
    LengthPrefixedRoundTrip(v.value, []);
    assert LengthPrefixed(v.value) + [] == LengthPrefixed(v.value);
  }

  lemma MemKeyParts(user: Bytes, snap: nat)
    requires |user| + 8 < TWO_32
    ensures InternalKeyOf(MemKey(user, snap)) == LookupKey(user, snap)
  {
    LengthPrefixedRoundTrip(LookupKey(user, snap), []);
    assert MemKey(user, snap) + [] == MemKey(user, snap);
  }

  // The list orders entries as their internal keys, and against a lookup key too.
  lemma EntriesOrder(c: Comparator<Bytes>, v: Version, w: Version)
    requires TotalOrder(c) && Fits(v) && Fits(w)
    ensures InternalCompare(c, Encode(v), Encode(w)) < 0 ==> Lt(EntryOrder(c), EntryBytes(v), EntryBytes(w))
  {
    EntryParts(v);
    EntryParts(w);
  }

  lemma EntryBelow(c: Comparator<Bytes>, v: Version, user: Bytes, snap: nat)
    requires TotalOrder(c) && Fits(v) && |user| + 8 < TWO_32
    ensures Lt(EntryOrder(c), EntryBytes(v), MemKey(user, snap)) <==> InternalCompare(c, Encode(v), LookupKey(user, snap)) < 0
  {
    hide InternalCompare, Encode, LookupKey;
    EntryParts(v);
    MemKeyParts(user, snap);
    InternalAntisymmetric(c, Encode(v), LookupKey(user, snap));
    var e, m := EntryBytes(v), MemKey(user, snap);
    if Encode(v) == LookupKey(user, snap) {
      assert e[..|m|] == m;
      CommonPrefixIs(e, m, |m|, 0);
    }
  }

  // k0 is the least of the keys not below m; None says that all are.
  ghost predicate IsFirst(o: Comparator<Bytes>, keys: set<Bytes>, m: Bytes, k0: Option<Bytes>) {
    match k0
    case None => forall k :: k in keys ==> Lt(o, k, m)
    case Some(first) => first in keys && !Lt(o, first, m) && forall k :: k in keys && Lt(o, k, first) ==> Lt(o, k, m)
  }

  ghost predicate Holds(entries: set<Version>, keys: set<Bytes>) {
    && (forall v :: v in entries ==> Fits(v) && EntryBytes(v) in keys)
    && (forall k :: k in keys ==> exists v :: v in entries && EntryBytes(v) == k)
    && (forall v, w :: v in entries && w in entries && v.key == w.key && v.seqno == w.seqno ==> v == w)
  }

  // The entry the list's Seek finds is the newest one the snapshot sees, or there is none.
  lemma SoughtIsNewest(c: Comparator<Bytes>, entries: set<Version>, keys: set<Bytes>, user: Bytes, snap: nat, k0: Option<Bytes>)
    requires TotalOrder(c) && Holds(entries, keys) && |user| + 8 < TWO_32 && snap <= MAX_SEQUENCE
    requires IsFirst(EntryOrder(c), keys, MemKey(user, snap), k0)
    ensures k0 == None ==> forall v :: v in entries ==> !Candidate(v, user, snap)
    ensures forall v :: v in entries && k0 == Some(EntryBytes(v)) ==>
              if v.key == user then IsNewest(entries, user, snap, v)
              else forall o :: o in entries ==> !Candidate(o, user, snap)
  {
    hide InternalCompare, Encode, LookupKey, EntryBytes, MemKey, EntryCompare;
    forall o | o in entries && Candidate(o, user, snap) ensures !Lt(EntryOrder(c), EntryBytes(o), MemKey(user, snap)) {
      EntryBelow(c, o, user, snap);
      LookupSplits(c, o, user, snap);
      assert Compare(c, o.key, user) == 0;
    }
    forall v | v in entries && k0 == Some(EntryBytes(v))
      ensures v.key == user ==> v.seqno <= snap
      ensures forall o :: o in entries && Candidate(o, user, snap) ==> v.key == user && o.seqno <= v.seqno
    {
      EntryBelow(c, v, user, snap);
      LookupSplits(c, v, user, snap);
      forall o | o in entries && Candidate(o, user, snap) ensures v.key == user && o.seqno <= v.seqno {
        EntriesOrder(c, o, v);
        if o.key != v.key || o.seqno != v.seqno {
          EncodeOrders(c, o, v);
        }
        assert Compare(c, user, v.key) < 0 <==> Compare(c, v.key, user) > 0;
        assert Compare(c, v.key, user) == 0 <==> v.key == user;
      }
    }
  }

  class MemTable {
    const c: Comparator<Bytes>
    const table: SkipLists.SkipList<Bytes>
    ghost var entries: set<Version>

    constructor (c: Comparator<Bytes>)
      requires TotalOrder(c)
      ensures Valid() && entries == {} && this.c == c
    {
      EntryOrderIsTotal(c);
      this.c := c;
      this.table := new SkipLists.SkipList(EntryOrder(c), []);
      this.entries := {};
    }

    ghost predicate Valid()
      reads this, table, table.Arrays()
    {
      && TotalOrder(c) && table.c == EntryOrder(c) && table.Valid()
      && Holds(entries, table.Keys())
    }

    // height is what RandomHeight() picks.
    method Add(v: Version, height: nat)
      requires Valid() && Fits(v) && 1 <= height <= SkipLists.MAX_HEIGHT
      requires forall w :: w in entries && w.key == v.key ==> w.seqno != v.seqno
      modifies this, table, table.Arrays()
      ensures Valid() && entries == old(entries) + {v}
    {
      var internalKey := v.key + Fixed(Pack(v.seqno, TypeOf(v.kind)), 8);
      var buf := Varint(|v.key| + 8);
      buf := buf + internalKey;
      buf := buf + Varint(|v.value|);
      buf := buf + v.value;
      assert buf == EntryBytes(v);
      NewBytes(v);
      var _ := table.Insert(buf, height);
      entries := entries + {v};
    }

    // Another version's bytes are other bytes.
    lemma NewBytes(v: Version)
      requires Valid() && Fits(v) && forall w :: w in entries && w.key == v.key ==> w.seqno != v.seqno
      ensures EntryBytes(v) !in table.Keys()
    {
      if EntryBytes(v) in table.Keys() {
        var w :| w in entries && EntryBytes(w) == EntryBytes(v);
        EntryParts(v);
        EntryParts(w);
        EncodedParts(v);
        EncodedParts(w);
      }
    }

    // The entry at the sought place answers the read.
    method Get(user: Bytes, snap: nat) returns (r: Saved)
      requires Valid() && |user| + 8 < TWO_32 && snap <= MAX_SEQUENCE
      ensures forall value :: r == Found(value) <==> Reads(entries, user, snap, value)
      ensures r == NotFound <==> forall v :: v in entries ==> !Candidate(v, user, snap)
    {
      hide EntryBytes, MemKey, IsNewest, Candidate, Reads, Holds, TotalOrder, IsFirst;
      var iter := new SkipLists.Iterator(table);
      iter.Seek(MemKey(user, snap));
      var node := iter.node;
      r := NotFound;
      FirstOf(MemKey(user, snap), node);
      if node != null {
        ghost var v := Owner(node);
        Newest(v, user, snap);
        r := Judge(c, node.key, user, v);
      } else {
        Nothing(user, snap);
      }
    }

    // What the bytes of an entry say about a user key.
    static method Judge(c: Comparator<Bytes>, entry: Bytes, user: Bytes, ghost v: Version) returns (r: Saved)
      requires TotalOrder(c) && Fits(v) && entry == EntryBytes(v)
      ensures r == if v.key != user then NotFound else if v.kind == Value then Found(v.value) else Deleted
    {
      hide EntryBytes, GetLengthPrefixed, UserKey, Tag, Encode;
      EntryParts(v);
      EncodedParts(v);
      assert Compare(c, v.key, user) == 0 <==> v.key == user;
      hide TotalOrder;
      assert Pack(v.seqno, TypeOf(v.kind)) % 256 == TypeOf(v.kind);
      hide Fits, Pack;
      var (key, rest) := GetLengthPrefixed(entry).value;
      r := NotFound;
      if Compare(c, UserKey(key), user) == 0 {
        if Tag(key) % 256 == TYPE_VALUE {
          r := Found(GetLengthPrefixed(rest).value.0);
        } else if Tag(key) % 256 == TYPE_DELETION {
          r := Deleted;
        }
      }
    }

    lemma Owner(node: SkipLists.Node<Bytes>) returns (v: Version)
      requires Valid() && node in table.members
      ensures v in entries && Fits(v) && EntryBytes(v) == node.key
    {
      hide EntryBytes, Fits, SkipLists.SkipList.Valid;
      assert node.key in table.Keys();
      v :| v in entries && EntryBytes(v) == node.key;
    }

    lemma Newest(v: Version, user: Bytes, snap: nat)
      requires Valid() && v in entries && |user| + 8 < TWO_32 && snap <= MAX_SEQUENCE
      requires IsFirst(EntryOrder(c), table.Keys(), MemKey(user, snap), Some(EntryBytes(v)))
      ensures if v.key == user
              then (forall value :: Reads(entries, user, snap, value) <==> v.kind == Value && v.value == value) && Candidate(v, user, snap)
              else (forall value :: !Reads(entries, user, snap, value)) && forall o :: o in entries ==> !Candidate(o, user, snap)
    {
      hide EntryBytes, MemKey, IsFirst, SkipLists.SkipList.Valid, Fits;
      SoughtIsNewest(c, entries, table.Keys(), user, snap, Some(EntryBytes(v)));
      hide TotalOrder;
      if v.key == user {
        ReadsOf(v, user, snap);
      }
    }

    lemma Nothing(user: Bytes, snap: nat)
      requires Valid() && |user| + 8 < TWO_32 && snap <= MAX_SEQUENCE
      requires IsFirst(EntryOrder(c), table.Keys(), MemKey(user, snap), None)
      ensures forall o :: o in entries ==> !Candidate(o, user, snap)
      ensures forall value :: !Reads(entries, user, snap, value)
    {
      hide EntryBytes, MemKey, IsFirst, SkipLists.SkipList.Valid, Fits;
      SoughtIsNewest(c, entries, table.Keys(), user, snap, None);
    }

    lemma FirstOf(m: Bytes, node: SkipLists.Node?<Bytes>)
      requires Valid()
      requires node == null ==> forall z :: z in table.members ==> Lt(table.c, z.key, m)
      requires node != null ==> node in table.members && Le(table.c, m, node.key)
      requires node != null ==> forall z :: z in table.members && Lt(table.c, z.key, node.key) ==> Lt(table.c, z.key, m)
      ensures IsFirst(EntryOrder(c), table.Keys(), m, if node == null then None else Some(node.key))
    {
      hide EntryCompare;
      EntryOrderIsTotal(c);
      if node != null {
        assert Compare(table.c, m, node.key) > 0 <==> Compare(table.c, node.key, m) < 0;
      }
    }

    // The newest version decides what a read yields.
    lemma ReadsOf(v: Version, user: Bytes, snap: nat)
      requires Holds(entries, table.Keys()) && v in entries
      ensures IsNewest(entries, user, snap, v) ==>
                && (forall value :: Reads(entries, user, snap, value) <==> v.kind == Value && v.value == value)
                && Candidate(v, user, snap)
    {
      if IsNewest(entries, user, snap, v) {
        forall w | w in entries && IsNewest(entries, user, snap, w) ensures w == v {
          assert w.seqno == v.seqno;
        }
      }
    }
  }
}
