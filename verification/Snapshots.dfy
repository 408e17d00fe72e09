// db/snapshot.h: live snapshots in a circular doubly linked list, oldest first.
module Snapshots {

  class SnapshotImpl {
    var number: nat
    var prev: SnapshotImpl?
    var next: SnapshotImpl?

    constructor (number: nat)
      ensures this.number == number
    {
      this.number := number;
    }
  }

  ghost predicate Distinct(r: seq<SnapshotImpl>) {
    forall i, j :: 0 <= i < j < |r| ==> r[i] != r[j]
  }

  // The nodes of r link to their neighbours in both directions, and the ends to each other.
  ghost predicate Linked(r: seq<SnapshotImpl>)
    requires |r| > 0
    reads r
  {
    && (forall i {:trigger r[i].next} :: 0 <= i < |r| - 1 ==> r[i].next == r[i + 1])
    && (forall i {:trigger r[i].prev} :: 0 < i < |r| ==> r[i].prev == r[i - 1])
    && r[|r| - 1].next == r[0] && r[0].prev == r[|r| - 1]
  }

  ghost predicate Ascending(r: seq<SnapshotImpl>)
    reads r`number
  {
    forall i, j :: 0 <= i < j < |r| ==> r[i].number <= r[j].number
  }

  method LinkBefore(list: SnapshotImpl, s: SnapshotImpl, ghost r: seq<SnapshotImpl>)
    requires |r| > 0 && r[0] == list && Distinct(r) && Linked(r) && s !in r
    modifies list`prev, list.prev`next, s`prev, s`next
    ensures Distinct(r + [s]) && Linked(r + [s])
  {
    s.next := list;
    s.prev := list.prev;
    s.prev.next := s;
    s.next.prev := s;
  }

  method Unlink(s: SnapshotImpl, ghost r: seq<SnapshotImpl>, ghost i: nat)
    requires 0 < i < |r| && r[i] == s && Distinct(r) && Linked(r)
    modifies s.prev`next, s.next`prev
    ensures Distinct(r[..i] + r[i + 1..]) && Linked(r[..i] + r[i + 1..])
  {
    ghost var before := r[i - 1];
    ghost var after := if i + 1 < |r| then r[i + 1] else r[0];
    assert s.prev == before && s.next == after;
    s.prev.next := s.next;
    s.next.prev := s.prev;
  }

  lemma Neighbours(r: seq<SnapshotImpl>, i: nat)
    requires 0 < i < |r| && Linked(r)
    ensures r[i].prev == r[i - 1]
    ensures r[i].next == if i + 1 < |r| then r[i + 1] else r[0]
  {
  }

  lemma Without(head: SnapshotImpl, live: seq<SnapshotImpl>, k: nat)
    requires k < |live| && Ascending(live)
    ensures Ascending(live[..k] + live[k + 1..])
    ensures ([head] + live)[..k + 1] + ([head] + live)[k + 2..] == [head] + (live[..k] + live[k + 1..])
  {
  }

  class SnapshotList {
    const list: SnapshotImpl           // dummy head
    ghost var live: seq<SnapshotImpl>  // the live snapshots, oldest first

    ghost predicate Valid()
      reads this, list, live
    {
      && Distinct([list] + live) && Linked([list] + live)
      && Ascending(live)
    }

    // Every live snapshot was taken no later than `last`.
    ghost predicate TakenBy(last: nat)
      reads this, live
    {
      forall s :: s in live ==> s.number <= last
    }

    constructor ()
      ensures Valid() && live == [] && fresh(list)
    {
      var head := new SnapshotImpl(0);
      list := head;
      live := [];
      new;
      list.prev := list;
      list.next := list;
    }

    method Empty() returns (empty: bool)
      requires Valid()
      ensures empty <==> live == []
    {
      ghost var r := [list] + live;
      assert r[0].next == if |live| > 0 then r[1] else list;
      return list.next == list;
    }

    method Oldest() returns (s: SnapshotImpl)
      requires Valid() && live != []
      ensures s == live[0]
      ensures forall o :: o in live ==> s.number <= o.number
    {
      ghost var r := [list] + live;
      assert r[0].next == r[1];
      return list.next;
    }

    // GetSnapshot: the sequence number never goes back, so a new snapshot is the newest.
    method New(seqno: nat) returns (s: SnapshotImpl)
      requires Valid() && TakenBy(seqno)
      modifies this`live, list`prev, list`next, live`prev, live`next
      ensures Valid() && TakenBy(seqno)
      ensures fresh(s) && s.number == seqno && live == old(live) + [s]
    {
      hide Distinct;
      s := new SnapshotImpl(seqno);
      ghost var r := [list] + live;
      assert list.prev == r[|r| - 1];
      LinkBefore(list, s, r);
      assert r + [s] == [list] + (live + [s]);
      live := live + [s];
    }

    // ReleaseSnapshot: any snapshot, in any order; k is its place in the list.
    method Delete(s: SnapshotImpl, ghost k: nat)
      requires Valid() && k < |live| && live[k] == s
      modifies this`live, list`prev, list`next, live`prev, live`next
      ensures Valid()
      ensures live == old(live)[..k] + old(live)[k + 1..]
    {
      hide Distinct, Linked, Ascending;
      ghost var r := [list] + live;
      Neighbours(r, k + 1);
      Without(list, live, k);
      Unlink(s, r, k + 1);
      live := live[..k] + live[k + 1..];
    }

    // What DoCompactionWork takes as smallest_snapshot: no live snapshot, and no later read
    // at the current sequence number, is below it.
    method SmallestSnapshot(lastSequence: nat) returns (smallest: nat)
      requires Valid() && TakenBy(lastSequence)
      ensures smallest <= lastSequence
      ensures forall s :: s in live ==> smallest <= s.number
      ensures smallest == lastSequence || exists s :: s in live && s.number == smallest
    {
      var empty := Empty();
      if empty {
        return lastSequence;
      }
      var s := Oldest();
      return s.number;
    }
  }
}
