// Multi-version entries and the meaning of a set of them at a snapshot.
module Entries {
  import opened Options
  import opened Ordering

  // kMaxSequenceNumber: 56 bits.
  const MAX_SEQUENCE: nat := 0xFF_FFFF_FFFF_FFFF

  datatype ValueType = Deletion | Value

  datatype Entry<+K, +V> = Entry(key: K, seqno: nat, kind: ValueType, value: V)

  // Internal key order: user key ascending, then sequence number descending.
  predicate EntryLt<K, V>(c: Comparator<K>, a: Entry<K, V>, b: Entry<K, V>) {
    var r := Compare(c, a.key, b.key);
    r < 0 || (r == 0 && a.seqno > b.seqno)
  }

  ghost predicate SortedEntries<K, V>(c: Comparator<K>, es: seq<Entry<K, V>>) {
    forall i, j :: 0 <= i < j < |es| ==> EntryLt(c, es[i], es[j])
  }

  // Entries of one user key come newest first.
  lemma VersionOrder<K(!new), V>(c: Comparator<K>, es: seq<Entry<K, V>>, i: nat, j: nat)
    requires TotalOrder(c) && SortedEntries(c, es) && i < |es| && j < |es| && es[i].key == es[j].key
    ensures i < j <==> es[i].seqno > es[j].seqno
  {
    assert i < j ==> EntryLt(c, es[i], es[j]);
    assert j < i ==> EntryLt(c, es[j], es[i]);
  }

  ghost function SetOf<T>(s: seq<T>): set<T> {
    set x | x in s
  }

  // e is an entry of k that a read at `snap` may see.
  predicate Candidate<K(==), V>(e: Entry<K, V>, k: K, snap: nat) {
    e.key == k && e.seqno <= snap
  }

  ghost predicate IsNewest<K, V>(es: set<Entry<K, V>>, k: K, snap: nat, e: Entry<K, V>) {
    && e in es && Candidate(e, k, snap)
    && forall o :: o in es && Candidate(o, k, snap) ==> o.seqno <= e.seqno
  }

  // The value a read of k at `snap` yields: the newest candidate, with deletions erased.
  ghost predicate Reads<K, V>(es: set<Entry<K, V>>, k: K, snap: nat, v: V) {
    exists e :: e in es && IsNewest(es, k, snap, e) && e.kind == Value && e.value == v
  }

  // A finite set with a candidate has a newest one.
  lemma {:induction false} NewestExists<K, V>(es: set<Entry<K, V>>, k: K, snap: nat, o: Entry<K, V>)
    returns (m: Entry<K, V>)
    requires o in es && Candidate(o, k, snap)
    ensures IsNewest(es, k, snap, m)
    decreases es
  {
    if p :| p in es && Candidate(p, k, snap) && p.seqno > o.seqno {
      var m' := NewestExists(es - {o}, k, snap, p);
      m := m';
    } else {
      m := o;
    }
  }
}
