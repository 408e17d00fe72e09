// db/db_iter.cpp: DBIter, the user's view of a multi-version entry sequence at a snapshot.
module DBIterator {
  import opened Options
  import opened Ordering
  import opened Entries
  import opened Cursors

  ghost predicate Visible<K, V>(es: seq<Entry<K, V>>, snap: nat, i: nat)
    requires i < |es|
  {
    es[i].seqno <= snap
  }

  // Entry i is what a read of its key yields: the newest visible entry, and a value.
  ghost predicate Yields<K, V>(es: seq<Entry<K, V>>, snap: nat, i: nat)
    requires i < |es|
  {
    && Visible(es, snap, i) && es[i].kind == Value
    && forall j :: 0 <= j < i && es[j].key == es[i].key ==> !Visible(es, snap, j)
  }

  // The view below index n: the yielding entries, in key order.
  ghost function View<K, V>(es: seq<Entry<K, V>>, snap: nat, n: nat): (r: seq<nat>)
    requires n <= |es|
    ensures forall p :: 0 <= p < |r| ==> r[p] < n && Yields(es, snap, r[p])
  {
    if n == 0 then [] else
    View(es, snap, n - 1) + if Yields(es, snap, n - 1) then [n - 1] else []
  }

  lemma {:induction false} ViewGap<K, V>(es: seq<Entry<K, V>>, snap: nat, i: nat, j: nat)
    requires i <= j <= |es|
    requires forall m :: i <= m < j ==> !Yields(es, snap, m)
    ensures View(es, snap, i) == View(es, snap, j)
    decreases j
  {
    if i < j {
      ViewGap(es, snap, i, j - 1);
    }
  }

  lemma {:induction false} ViewPrefix<K, V>(es: seq<Entry<K, V>>, snap: nat, i: nat, j: nat)
    requires i <= j <= |es|
    ensures View(es, snap, i) <= View(es, snap, j)
    ensures i < j && Yields(es, snap, i) ==>
      |View(es, snap, i)| < |View(es, snap, j)| && View(es, snap, j)[|View(es, snap, i)|] == i
    decreases j
  {
    if i < j {
      ViewPrefix(es, snap, i, j - 1);
    }
  }

  // The view holds exactly what reads at the snapshot yield.
  lemma ViewIsReads<K(!new), V(!new)>(c: Comparator<K>, es: seq<Entry<K, V>>, snap: nat, k: K, v: V)
    requires TotalOrder(c) && SortedEntries(c, es)
    ensures Reads(SetOf(es), k, snap, v)
       <==> exists i :: 0 <= i < |es| && Yields(es, snap, i) && es[i].key == k && es[i].value == v
  {
    forall i | 0 <= i < |es|
      ensures Yields(es, snap, i) <==> IsNewest(SetOf(es), es[i].key, snap, es[i]) && es[i].kind == Value
    {
      forall j | 0 <= j < |es| && es[j].key == es[i].key
        ensures i < j <==> es[i].seqno > es[j].seqno
        ensures j < i <==> es[j].seqno > es[i].seqno
      {
        VersionOrder(c, es, i, j);
        VersionOrder(c, es, j, i);
      }
      assert forall j :: 0 <= j < |es| ==> es[j] in SetOf(es);
    }
  }

  // What ScanBackward knows when its internal iterator has come down from p0 to p (-1: past the
  // front): m is the last visible entry it saw, and only m can yield.
  ghost predicate Scanned<K, V>(es: seq<Entry<K, V>>, snap: nat, p: int, p0: nat, valueType: ValueType, m: nat,
                                savedKey: Option<K>, savedValue: Option<V>) {
    && -1 <= p <= p0
    && (p0 < |es| ==> forall j :: p < j <= p0 && Yields(es, snap, j) ==> valueType == Value && j == m)
    && (valueType == Value ==>
          && p < m <= p0 < |es| && Visible(es, snap, m) && es[m].kind == Value
          && savedKey == Some(es[m].key) && savedValue == Some(es[m].value)
          && forall j :: p < j < m ==> !Visible(es, snap, j))
  }

  lemma ScanStarts<K(!new), V>(es: seq<Entry<K, V>>, snap: nat, p0: nat, savedKey: Option<K>, savedValue: Option<V>)
    ensures Scanned(es, snap, if p0 < |es| then p0 else -1, p0, Deletion, p0, savedKey, savedValue)
  {
  }

  lemma ScanPasses<K(!new), V>(es: seq<Entry<K, V>>, snap: nat, p: nat, p0: nat, valueType: ValueType, m: nat,
                               savedKey: Option<K>, savedValue: Option<V>)
    requires p <= p0 < |es| && Scanned(es, snap, p, p0, valueType, m, savedKey, savedValue) && !Visible(es, snap, p)
    ensures Scanned(es, snap, p - 1, p0, valueType, m, savedKey, savedValue)
  {
  }

  lemma ScanTakes<K(!new), V>(c: Comparator<K>, es: seq<Entry<K, V>>, snap: nat, p: nat, p0: nat, valueType: ValueType, m: nat,
                              savedKey: Option<K>, savedValue: Option<V>)
    requires TotalOrder(c) && SortedEntries(c, es)
    requires p <= p0 < |es| && Scanned(es, snap, p, p0, valueType, m, savedKey, savedValue) && Visible(es, snap, p)
    requires valueType != Deletion ==> !Lt(c, es[p].key, savedKey.value)
    ensures if es[p].kind == Deletion then Scanned(es, snap, p - 1, p0, Deletion, p, None, None)
            else Scanned(es, snap, p - 1, p0, Value, p, Some(es[p].key), Some(es[p].value))
  {
    if valueType == Value {
      assert EntryLt(c, es[p], es[m]);
      assert Compare(c, es[p].key, es[m].key) == 0 <==> es[p].key == es[m].key;
      assert !Yields(es, snap, m);
    }
  }

  datatype Direction = Forward | Reverse

  class DBIter<K(!new, ==), V(!new)> {
    const c: Comparator<K>
    const iter: Cursor<Entry<K, V>>
    const sequence: nat
    var savedKey: Option<K>
    var savedValue: Option<V>
    var direction: Direction
    var valid: bool
    ghost var cur: nat   // the entry this iterator is at, |entries| when invalid

    ghost predicate Sorted()
      reads this, iter
    {
      TotalOrder(c) && SortedEntries(c, iter.items) && iter.pos <= |iter.items| && cur <= |iter.items|
    }

    // (2) When moving backwards, the internal iterator is just before all visible entries
    //     whose user key is this key.
    ghost predicate JustBefore(k: K)
      reads this, iter
    {
      && (iter.pos < |iter.items| ==> Lt(c, iter.items[iter.pos].key, k))
      && forall j ::
          0 <= j < |iter.items| && (iter.pos < j || iter.pos == |iter.items|) && Lt(c, iter.items[j].key, k)
          ==> !Visible(iter.items, sequence, j)
    }

    ghost predicate Valid()
      reads this, iter
    {
      && Sorted()
      && (valid <==> cur < |iter.items|)
      && (valid ==> Yields(iter.items, sequence, cur))
      && (valid && direction == Forward ==> iter.pos == cur)
      && (valid && direction == Reverse ==>
            && savedKey == Some(iter.items[cur].key)
            && savedValue == Some(iter.items[cur].value)
            && JustBefore(iter.items[cur].key))
    }

    // The cursor over the view that this iterator stands for.
    ghost function TheView(): seq<nat>
      requires Sorted()
      reads this, iter
    {
      View(iter.items, sequence, |iter.items|)
    }

    ghost function Position(): nat
      requires Sorted()
      reads this, iter
    {
      |View(iter.items, sequence, cur)|
    }

    constructor (c: Comparator<K>, iter: Cursor<Entry<K, V>>, sequence: nat)
      requires TotalOrder(c) && SortedEntries(c, iter.items) && iter.pos <= |iter.items|
      ensures Valid() && this.c == c && this.iter == iter && this.sequence == sequence
      ensures Position() == |TheView()|
    {
      this.c := c;
      this.iter := iter;
      this.sequence := sequence;
      this.savedKey, this.savedValue := None, None;
      this.direction := Forward;
      this.valid := false;
      this.cur := |iter.items|;
    }

    function Key(): K
      requires Valid() && valid
      reads this, iter
      ensures Position() < |TheView()| && TheView()[Position()] == cur && Key() == iter.items[cur].key
    {
      ViewPrefix(iter.items, sequence, cur, |iter.items|);
      if direction == Forward then iter.Item().key else savedKey.value
    }

    function TheValue(): V
      requires Valid() && valid
      reads this, iter
      ensures TheValue() == iter.items[cur].value
    {
      if direction == Forward then iter.Item().value else savedValue.value
    }

    // The scan finds the first yielding entry from the internal position on, beyond the
    // saved key when one is being skipped.
    method FindNextUserEntry(skip: bool)
      requires Sorted() && iter.pos < |iter.items| && direction == Forward
      requires skip ==> savedKey.Some?
      requires skip ==> forall j :: iter.pos <= j < |iter.items| && Visible(iter.items, sequence, j) ==>
                 Le(c, savedKey.value, iter.items[j].key)
      requires forall j, i ::
          0 <= j < iter.pos <= i < |iter.items| && Visible(iter.items, sequence, j) && iter.items[j].key == iter.items[i].key
          ==> skip && Le(c, iter.items[i].key, savedKey.value)
      modifies this, iter
      ensures Valid() && direction == Forward
      ensures old(iter.pos) <= cur
      ensures valid && skip ==> Lt(c, old(savedKey).value, iter.items[cur].key)
      ensures forall j :: old(iter.pos) <= j < cur && Yields(iter.items, sequence, j) ==>
                skip && Le(c, iter.items[j].key, old(savedKey).value)
    {
      var skipping := skip;
      ghost var es, snap, p0, k0 := iter.items, sequence, iter.pos, savedKey;
      while iter.Valid()
        invariant p0 <= iter.pos <= |es| && direction == Forward
        invariant skip ==> skipping
        invariant skipping ==> savedKey.Some?
        invariant skipping ==>
            (skip && savedKey == k0) || exists d :: p0 <= d < iter.pos && Visible(es, snap, d) && es[d].key == savedKey.value
        invariant skipping ==> forall j :: iter.pos <= j < |es| && Visible(es, snap, j) ==>
                    Le(c, savedKey.value, es[j].key)
        invariant skip ==> Le(c, k0.value, savedKey.value)
        invariant forall j :: p0 <= j < iter.pos && Visible(es, snap, j) ==>
                    skipping && Le(c, es[j].key, savedKey.value)
        invariant forall j :: p0 <= j < iter.pos && Yields(es, snap, j) ==>
                    skip && Le(c, es[j].key, k0.value)
        decreases |es| - iter.pos
      {
        ghost var p := iter.pos;
        var ikey := iter.Item();
        if ikey.seqno <= sequence {
          if ikey.kind == Deletion {
            savedKey := Some(ikey.key);
            skipping := true;
          } else if skipping && Le(c, ikey.key, savedKey.value) {
            // entry hidden
          } else {
            valid := true;
            savedKey := None;
            cur := iter.pos;
            return;
          }
        }
        iter.Next();
      }
      savedKey := None;
      valid := false;
      cur := |es|;
    }

    // The loop of FindPrevUserEntry: stops before the entries of the last yielding key.
    method ScanBackward() returns (valueType: ValueType, ghost p: int, ghost m: nat)
      requires Sorted() && direction == Reverse
      modifies this`savedKey, this`savedValue, iter
      ensures iter.pos <= |iter.items| && p == if iter.pos < |iter.items| then iter.pos else -1
      ensures Scanned(iter.items, sequence, p, old(iter.pos), valueType, m, savedKey, savedValue)
      ensures p >= 0 ==> valueType == Value && Visible(iter.items, sequence, p) && Lt(c, iter.items[p].key, savedKey.value)
    {
      hide TotalOrder, SortedEntries, Yields;
      valueType := Deletion;
      ScanStarts(iter.items, sequence, iter.pos, savedKey, savedValue);
      hide Scanned;
      ghost var es, snap, p0 := iter.items, sequence, iter.pos;
      m := p0;
      p := if p0 < |es| then p0 else -1;
      while iter.Valid()
        invariant iter.pos <= |es| && p == if iter.pos < |es| then iter.pos else -1
        invariant Scanned(es, snap, p, p0, valueType, m, savedKey, savedValue)
        decreases p
      {
        var ikey := iter.Item();
        if ikey.seqno <= sequence {
          if valueType != Deletion && Lt(c, ikey.key, savedKey.value) {
            break;
          }
          ScanTakes(c, es, snap, p, p0, valueType, m, savedKey, savedValue);
          m := p;
          valueType := ikey.kind;
          if valueType == Deletion {
            savedKey := None;
            savedValue := None;
          } else {
            savedKey := Some(ikey.key);
            savedValue := Some(ikey.value);
          }
        } else {
          ScanPasses(es, snap, p, p0, valueType, m, savedKey, savedValue);
        }
        iter.Prev();
        p := p - 1;
      }
    }

    lemma ScanFinds(p: int, p0: nat, m: nat)
      requires Sorted() && p == if iter.pos < |iter.items| then iter.pos else -1
      requires Scanned(iter.items, sequence, p, p0, Value, m, savedKey, savedValue)
      requires p >= 0 ==> Visible(iter.items, sequence, p) && Lt(c, iter.items[p].key, savedKey.value)
      ensures Yields(iter.items, sequence, m) && JustBefore(iter.items[m].key)
    {
    }

    // The scan backwards finds the last yielding entry at or before the internal position.
    method FindPrevUserEntry()
      requires Sorted() && direction == Reverse
      modifies this, iter
      ensures Valid()
      ensures valid ==> cur <= old(iter.pos) < |iter.items| && direction == Reverse
      ensures old(iter.pos) < |iter.items| ==>
        forall j :: 0 <= j <= old(iter.pos) && Yields(iter.items, sequence, j) ==> valid && j <= cur
    {
      var valueType;
      ghost var p, m;
      valueType, p, m := ScanBackward();
      if valueType == Value {
        ScanFinds(p, old(iter.pos), m);
      }
      cur := if valueType == Value then m else |iter.items|;
      if valueType == Deletion {
        valid := false;
        savedKey := None;
        savedValue := None;
        direction := Forward;
      } else {
        valid := true;
      }
    }

    // From a yielding entry, the next one in the view is the first yielding entry after it.
    lemma Advance(from: nat, to: nat)
      requires Sorted() && from < to <= |iter.items| && Yields(iter.items, sequence, from)
      requires forall j :: from < j < to ==> !Yields(iter.items, sequence, j)
      ensures |View(iter.items, sequence, to)| == |View(iter.items, sequence, from)| + 1
    {
      ViewGap(iter.items, sequence, from + 1, to);
    }

    // Two yielding entries never share a key.
    lemma YieldsOnce(i: nat, j: nat)
      requires Sorted() && i < j < |iter.items|
      requires Yields(iter.items, sequence, i) && Yields(iter.items, sequence, j)
      ensures Lt(c, iter.items[i].key, iter.items[j].key)
    {
      assert EntryLt(c, iter.items[i], iter.items[j]);
    }

    // The direction switch of Next: into the entries of this key.
    method EnterKey()
      requires Valid() && valid && direction == Reverse
      modifies iter
      ensures iter.pos <= cur
      ensures forall j :: iter.pos <= j < |iter.items| && Visible(iter.items, sequence, j) ==>
                Le(c, iter.items[cur].key, iter.items[j].key)
      ensures forall j :: 0 <= j < iter.pos ==> Lt(c, iter.items[j].key, iter.items[cur].key)
    {
      if !iter.Valid() {
        iter.SeekToFirst();
      } else {
        iter.Next();
      }
    }

    method Next()
      requires Valid() && valid
      modifies this, iter
      ensures Valid() && Position() == AfterNext(|TheView()|, old(Position()))
    {
      ghost var from := cur;
      if direction == Reverse {
        EnterKey();
        direction := Forward;
      } else {
        savedKey := Some(iter.Item().key);
      }
      FindNextUserEntry(true);
      forall j | from < j < cur ensures !Yields(iter.items, sequence, j) {
        if Yields(iter.items, sequence, j) {
          YieldsOnce(from, j);
        }
      }
      Advance(from, cur);
    }

    lemma Retreat(from: nat, to: nat)
      requires Sorted() && from < |iter.items| && Yields(iter.items, sequence, from)
      requires to == |iter.items| || (to < from && Yields(iter.items, sequence, to))
      requires forall j :: 0 <= j < from && Yields(iter.items, sequence, j) ==> to < |iter.items| && j <= to
      ensures |View(iter.items, sequence, to)| == AfterPrev(|TheView()|, |View(iter.items, sequence, from)|)
    {
      if to < |iter.items| {
        Advance(to, from);
      } else {
        ViewGap(iter.items, sequence, 0, from);
      }
    }

    // The direction switch of Prev: back to the last entry of a smaller user key.
    method LeaveKey() returns (found: bool)
      requires Valid() && valid && direction == Forward
      modifies this`savedKey, iter
      ensures iter.pos <= |iter.items| && found == (iter.pos < |iter.items|)
      ensures savedKey == Some(iter.items[cur].key)
      ensures found ==> iter.pos < cur && Lt(c, iter.items[iter.pos].key, iter.items[cur].key)
      ensures forall j :: (if found then iter.pos else -1) < j <= cur ==> iter.items[j].key == iter.items[cur].key
    {
      savedKey := Some(iter.Item().key);
      while true
        invariant iter.pos <= cur < |iter.items| && savedKey == Some(iter.items[cur].key)
        invariant forall j :: iter.pos <= j <= cur ==> iter.items[j].key == iter.items[cur].key
        decreases iter.pos
      {
        iter.Prev();
        if !iter.Valid() {
          return false;
        }
        if Lt(c, iter.Item().key, savedKey.value) {
          return true;
        }
      }
    }

    method Prev()
      requires Valid() && valid
      modifies this, iter
      ensures Valid() && Position() == AfterPrev(|TheView()|, old(Position()))
    {
      ghost var from := cur;
      forall j | 0 <= j < from && Yields(iter.items, sequence, j)
        ensures Lt(c, iter.items[j].key, iter.items[from].key)
      {
        YieldsOnce(j, from);
      }
      if direction == Forward {
        var found := LeaveKey();
        if !found {
          valid := false;
          savedKey := None;
          savedValue := None;
          cur := |iter.items|;
          Retreat(from, cur);
          return;
        }
        direction := Reverse;
      }
      FindPrevUserEntry();
      Retreat(from, cur);
    }

    method SeekToFirst()
      requires Sorted()
      modifies this, iter
      ensures Valid() && Position() == 0
    {
      direction := Forward;
      savedValue := None;
      iter.SeekToFirst();
      if iter.Valid() {
        FindNextUserEntry(false);
      } else {
        valid := false;
        cur := |iter.items|;
      }
      ViewGap(iter.items, sequence, 0, cur);
    }

    method SeekToLast()
      requires Sorted()
      modifies this, iter
      ensures Valid() && Position() == AfterSeekToLast(|TheView()|)
    {
      direction := Reverse;
      savedValue := None;
      iter.SeekToLast();
      FindPrevUserEntry();
      Last();
    }

    // The position after a backward search from the far end or from a yielding entry.
    lemma Last()
      requires Valid() && forall j :: cur < j < |iter.items| ==> !Yields(iter.items, sequence, j)
      requires !valid ==> forall j :: 0 <= j < |iter.items| ==> !Yields(iter.items, sequence, j)
      ensures Position() == AfterSeekToLast(|TheView()|)
    {
      if valid {
        Advance(cur, |iter.items|);
      } else {
        ViewGap(iter.items, sequence, 0, |iter.items|);
      }
    }

    // Where Seek has landed, said of the view.
    lemma Landed(target: K)
      requires Valid()
      requires forall j :: 0 <= j < cur && Yields(iter.items, sequence, j) ==> Lt(c, iter.items[j].key, target)
      requires valid ==> Le(c, target, iter.items[cur].key)
      ensures Position() <= |TheView()|
      ensures forall p :: 0 <= p < Position() ==> Lt(c, iter.items[TheView()[p]].key, target)
      ensures Position() < |TheView()| ==> Le(c, target, iter.items[TheView()[Position()]].key)
    {
      ViewPrefix(iter.items, sequence, cur, |iter.items|);
      var before := View(iter.items, sequence, cur);
      forall p | 0 <= p < Position() ensures Lt(c, iter.items[TheView()[p]].key, target) {
        assert TheView()[p] == before[p];
      }
    }

    method Seek(target: K)
      requires Sorted()
      modifies this, iter
      ensures Valid()
      ensures Position() <= |TheView()|
      ensures forall p :: 0 <= p < Position() ==> Lt(c, iter.items[TheView()[p]].key, target)
      ensures Position() < |TheView()| ==> Le(c, target, iter.items[TheView()[Position()]].key)
    {
      direction := Forward;
      savedValue := None;
      savedKey := None;
      SeekInternal(target);
      if iter.Valid() {
        FindNextUserEntry(false);
      } else {
        valid := false;
        cur := |iter.items|;
      }
      Landed(target);
    }

    // iter_->Seek with the internal key (target, sequence_, kValueTypeForSeek).
    method SeekInternal(target: K)
      requires Sorted()
      modifies iter
      ensures iter.pos <= |iter.items|
      ensures forall j :: 0 <= j < iter.pos && Visible(iter.items, sequence, j) ==> Lt(c, iter.items[j].key, target)
      ensures forall j :: iter.pos <= j < |iter.items| ==> Le(c, target, iter.items[j].key)
    {
      iter.Seek((e: Entry<K, V>) => Lt(c, e.key, target) || (e.key == target && e.seqno > sequence));
    }
  }
}
