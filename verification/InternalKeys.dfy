// db/dbformat.cpp: internal keys, their order, and where a lookup key falls in it.
module InternalKeys {
  import opened Coding
  import opened Ordering
  import opened ByteStrings
  import opened Entries

  const TYPE_DELETION: nat := 0
  const TYPE_VALUE: nat := 1

  type Version = Entry<Bytes, Bytes>

  // What a point lookup finds out about a user key.
  datatype Saved = NotFound | Found(value: Bytes) | Deleted

  function Pack(seqno: nat, kind: nat): nat {
    seqno * 256 + kind
  }

  function TypeOf(kind: ValueType): nat {
    if kind == Value then TYPE_VALUE else TYPE_DELETION
  }

  function InternalKey(user: Bytes, tag: nat): (k: Bytes)
    ensures |k| == |user| + 8
  {
    user + Fixed(tag, 8)
  }

  // ExtractUserKey, and the eight bytes after it. The engine asserts that a key has them.
  function UserKey(k: Bytes): Bytes {
    if |k| < 8 then k else k[..|k| - 8]
  }

  function Tag(k: Bytes): nat {
    if |k| < 8 then 0 else DecodeFixed(k[|k| - 8..])
  }

  lemma Parts(user: Bytes, tag: nat)
    requires tag < TWO_64
    ensures UserKey(InternalKey(user, tag)) == user && Tag(InternalKey(user, tag)) == tag
  {
    var k := InternalKey(user, tag);
    assert k[..|k| - 8] == user && k[|k| - 8..] == Fixed(tag, 8);
    Fixed64RoundTrip(tag);
  }

  lemma {:induction false} DecodeFixedInjective(a: Bytes, b: Bytes)
    requires |a| == |b| && DecodeFixed(a) == DecodeFixed(b)
    ensures a == b
  {
    if |a| > 0 {
      assert a[0] == b[0];
      DecodeFixedInjective(a[1..], b[1..]);
      assert a == [a[0]] + a[1..] && b == [b[0]] + b[1..];
    }
  }

  // InternalKeyComparator::Compare. Strings too short to be internal keys, which the engine
  // never compares, are put first.
  function InternalCompare(c: Comparator<Bytes>, a: Bytes, b: Bytes): int {
    if |a| < 8 || |b| < 8 then
      if |a| < 8 && |b| < 8 then BytewiseCompare(a, b) else if |a| < 8 then -1 else 1
    else
      var r := Compare(c, UserKey(a), UserKey(b));
      if r != 0 then r else if Tag(a) > Tag(b) then -1 else if Tag(a) < Tag(b) then 1 else 0
  }

  function InternalOrder(c: Comparator<Bytes>): Comparator<Bytes> {
    (a, b) => InternalCompare(c, a, b)
  }

  lemma InternalAntisymmetric(c: Comparator<Bytes>, a: Bytes, b: Bytes)
    requires TotalOrder(c)
    ensures InternalCompare(c, a, b) < 0 <==> InternalCompare(c, b, a) > 0
    ensures InternalCompare(c, a, b) == 0 <==> a == b
  {
    BytewiseAntisymmetric(a, b);
    assert Compare(c, UserKey(a), UserKey(b)) < 0 <==> Compare(c, UserKey(b), UserKey(a)) > 0;
    assert Compare(c, UserKey(b), UserKey(a)) < 0 <==> Compare(c, UserKey(a), UserKey(b)) > 0;
    if |a| >= 8 && |b| >= 8 && InternalCompare(c, a, b) == 0 {
      DecodeFixedInjective(a[|a| - 8..], b[|b| - 8..]);
      assert a == UserKey(a) + a[|a| - 8..] && b == UserKey(b) + b[|b| - 8..];
    }
  }

  lemma InternalTransitive(c: Comparator<Bytes>, a: Bytes, b: Bytes, d: Bytes)
    requires TotalOrder(c) && InternalCompare(c, a, b) < 0 && InternalCompare(c, b, d) < 0
    ensures InternalCompare(c, a, d) < 0
  {
    hide BytewiseCompare;
    if |a| < 8 && |b| < 8 && |d| < 8 {
      BytewiseTransitive(a, b, d);
    } else if |a| >= 8 {
      var u, v, w := UserKey(a), UserKey(b), UserKey(d);
      assert Compare(c, u, v) <= 0 && Compare(c, v, w) <= 0;
      assert Compare(c, u, v) == 0 ==> u == v;
      assert Compare(c, v, w) == 0 ==> v == w;
    }
  }

  lemma InternalIsTotal(c: Comparator<Bytes>)
    requires TotalOrder(c)
    ensures TotalOrder(InternalOrder(c))
  {
    hide InternalCompare;
    var o := InternalOrder(c);
    forall a, b
      ensures Compare(o, a, b) == 0 <==> a == b
      ensures Compare(o, a, b) < 0 <==> Compare(o, b, a) > 0
    {
      InternalAntisymmetric(c, a, b);
    }
    forall a, b, d | Compare(o, a, b) < 0 && Compare(o, b, d) < 0 ensures Compare(o, a, d) < 0 {
      InternalTransitive(c, a, b, d);
    }
  }

  // ---- Separators ----

  // A user comparator's FindShortestSeparator and FindShortSuccessor.
  datatype Shortening = Shortening(separator: (Bytes, Bytes) -> Bytes, successor: Bytes -> Bytes)

  ghost predicate ShorteningOk(c: Comparator<Bytes>, h: Shortening) {
    && (forall a, b :: Separates(c, a, b, h.separator(a, b)))
    && (forall a :: Le(c, a, h.successor(a)))
  }

  const BYTEWISE_SHORTENING: Shortening := Shortening((a, b) => ShortestSeparator(a, b), a => ShortSuccessor(a, 0))

  lemma BytewiseShortens()
    ensures TotalOrder(BYTEWISE) && ShorteningOk(BYTEWISE, BYTEWISE_SHORTENING)
  {
    BytewiseIsTotal();
    forall a, b ensures Separates(BYTEWISE, a, b, BYTEWISE_SHORTENING.separator(a, b)) {
      ShortestSeparates(a, b);
    }
    forall a ensures Le(BYTEWISE, a, BYTEWISE_SHORTENING.successor(a)) {
      ShortSuccessorFollows(a, 0);
    }
  }

  // s stays at start, or is of a user key strictly between those of start and limit.
  predicate IsIndexKey(c: Comparator<Bytes>, start: Bytes, limit: Bytes, s: Bytes) {
    s == start || (|s| >= 8 && Lt(c, UserKey(start), UserKey(s)) && Lt(c, UserKey(s), UserKey(limit)))
  }

  // The key before every entry of its user key: number 2^56 - 1, and the type that sorts first.
  predicate IsEarliest(k: Bytes) {
    |k| >= 8 && Tag(k) == 0xffff_ffff_ffff_ff01
  }

  method FindShortestSeparator(c: Comparator<Bytes>, h: Shortening, start: Bytes, limit: Bytes) returns (s: Bytes)
    requires TotalOrder(c) && ShorteningOk(c, h) && |start| >= 8 && |limit| >= 8
    ensures IsIndexKey(c, start, limit, s)
    ensures var shorter := h.separator(UserKey(start), UserKey(limit));
            if |shorter| < |UserKey(start)| && Lt(c, UserKey(start), shorter) then UserKey(s) == shorter && IsEarliest(s) else s == start
  {
    var userStart, userLimit := UserKey(start), UserKey(limit);
    var tmp := h.separator(userStart, userLimit);
    assert Separates(c, userStart, userLimit, tmp);
    if |tmp| < |userStart| && Compare(c, userStart, tmp) < 0 {
      s := InternalKey(tmp, Pack(MAX_SEQUENCE, TYPE_VALUE));
      Parts(tmp, Pack(MAX_SEQUENCE, TYPE_VALUE));
    } else {
      s := start;
    }
  }

  method FindShortSuccessor(c: Comparator<Bytes>, h: Shortening, key: Bytes) returns (s: Bytes)
    requires |key| >= 8
    ensures s == key || (|s| >= 8 && Lt(c, UserKey(key), UserKey(s)))
    ensures var shorter := h.successor(UserKey(key));
            if |shorter| < |UserKey(key)| && Lt(c, UserKey(key), shorter) then UserKey(s) == shorter && IsEarliest(s) else s == key
  {
    var userKey := UserKey(key);
    var tmp := h.successor(userKey);
    if |tmp| < |userKey| && Compare(c, userKey, tmp) < 0 {
      s := InternalKey(tmp, Pack(MAX_SEQUENCE, TYPE_VALUE));
      Parts(tmp, Pack(MAX_SEQUENCE, TYPE_VALUE));
    } else {
      s := key;
    }
  }

  // An index key bounds start's block from above and the next block from below, and a key it
  // leaves between them is of an older user key than limit's.
  lemma IndexKeySeparates(c: Comparator<Bytes>, start: Bytes, limit: Bytes, s: Bytes, k: Bytes)
    requires TotalOrder(c) && |start| >= 8 && |limit| >= 8 && |k| >= 8
    requires InternalCompare(c, start, limit) < 0 && IsIndexKey(c, start, limit, s)
    ensures InternalCompare(c, start, s) <= 0 && InternalCompare(c, s, limit) < 0
    ensures InternalCompare(c, start, k) < 0 && InternalCompare(c, k, s) <= 0 ==> Lt(c, UserKey(k), UserKey(limit))
  {
    InternalAntisymmetric(c, start, start);
    if s == start {
      InternalAntisymmetric(c, start, k);
    } else {
      assert Compare(c, UserKey(k), UserKey(s)) == 0 ==> UserKey(k) == UserKey(s);
    }
  }

  // ---- Lookups ----

  function Encode(v: Version): (k: Bytes)
    ensures |k| == |v.key| + 8
  {
    InternalKey(v.key, Pack(v.seqno, TypeOf(v.kind)))
  }

  // LookupKey::internal_key: the first key a read of user at snapshot snap may want.
  function LookupKey(user: Bytes, snap: nat): (k: Bytes)
    ensures |k| == |user| + 8
  {
    InternalKey(user, Pack(snap, TYPE_VALUE))
  }

  lemma EncodedParts(v: Version)
    requires v.seqno <= MAX_SEQUENCE
    ensures UserKey(Encode(v)) == v.key && Tag(Encode(v)) == Pack(v.seqno, TypeOf(v.kind))
  {
    Parts(v.key, Pack(v.seqno, TypeOf(v.kind)));
  }

  // After the user key come the type, 1 for a value and 0 for a deletion, and seven bytes of
  // sequence number, least significant first.
  lemma TagBytes(v: Version, k: nat)
    requires k < 7
    ensures Encode(v)[..|v.key|] == v.key && Encode(v)[|v.key|] == if v.kind == Value then 1 else 0
    ensures Encode(v)[|v.key| + 1 + k] == Shifted(v.seqno, 256, k) % 256
  {
    hide Fixed;
    var tag := Pack(v.seqno, TypeOf(v.kind));
    assert Encode(v)[|v.key|..] == Fixed(tag, 8);
    assert Encode(v)[|v.key|] == Fixed(tag, 8)[0] && Encode(v)[|v.key| + 1 + k] == Fixed(tag, 8)[1 + k];
    FixedAt(tag, 8, 0);
    FixedAt(tag, 8, 1 + k);
    ShiftedFirst(tag, 256, k);
    assert tag / 256 == v.seqno;
  }

  lemma LookupSplits(c: Comparator<Bytes>, v: Version, user: Bytes, snap: nat)
    requires TotalOrder(c) && v.seqno <= MAX_SEQUENCE && snap <= MAX_SEQUENCE
    ensures InternalCompare(c, Encode(v), LookupKey(user, snap)) < 0
       <==> Lt(c, v.key, user) || (v.key == user && v.seqno > snap)
  {
    EncodedParts(v);
    Parts(user, Pack(snap, TYPE_VALUE));
    assert Compare(c, v.key, user) == 0 <==> v.key == user;
  }

  lemma EncodeOrders(c: Comparator<Bytes>, a: Version, b: Version)
    requires TotalOrder(c) && a.seqno <= MAX_SEQUENCE && b.seqno <= MAX_SEQUENCE
    requires a.key == b.key ==> a.seqno != b.seqno
    ensures InternalCompare(c, Encode(a), Encode(b)) < 0 <==> EntryLt(c, a, b)
  {
    EncodedParts(a);
    EncodedParts(b);
    assert Compare(c, a.key, b.key) == 0 <==> a.key == b.key;
  }

  ghost predicate IsFirstNotBelow(c: Comparator<Bytes>, es: seq<Version>, k: Bytes, p: nat) {
    && p <= |es|
    && (forall i :: 0 <= i < p ==> InternalCompare(c, Encode(es[i]), k) < 0)
    && (p < |es| ==> InternalCompare(c, Encode(es[p]), k) >= 0)
  }

  ghost predicate Numbered(es: seq<Version>) {
    forall i :: 0 <= i < |es| ==> es[i].seqno <= MAX_SEQUENCE
  }

  // Where a lookup key falls in sorted entries is the newest entry of its user key that its
  // snapshot sees, if there is any.
  lemma LookupFindsNewest(c: Comparator<Bytes>, es: seq<Version>, user: Bytes, snap: nat, p: nat)
    requires TotalOrder(c) && SortedEntries(c, es) && Numbered(es) && snap <= MAX_SEQUENCE
    requires IsFirstNotBelow(c, es, LookupKey(user, snap), p)
    ensures if p < |es| && es[p].key == user then IsNewest(SetOf(es), user, snap, es[p])
            else forall i :: 0 <= i < |es| ==> !Candidate(es[i], user, snap)
  {
    hide InternalCompare, Encode;
    forall i | 0 <= i < |es| && Candidate(es[i], user, snap)
      ensures p <= i && es[p].key == user && es[i].seqno <= es[p].seqno <= snap
    {
      LookupSplits(c, es[i], user, snap);
      LookupSplits(c, es[p], user, snap);
      assert p < i ==> EntryLt(c, es[p], es[i]);
      assert Compare(c, es[p].key, user) < 0 <==> Compare(c, user, es[p].key) > 0;
      assert Compare(c, es[p].key, user) == 0 <==> es[p].key == user;
    }
    if p < |es| && es[p].key == user {
      LookupSplits(c, es[p], user, snap);
      assert Candidate(es[p], user, snap);
      forall o | o in SetOf(es) && Candidate(o, user, snap) ensures o.seqno <= es[p].seqno {
        var i :| 0 <= i < |es| && es[i] == o;
      }
    }
  }
}
