// table/merger.cpp: MergingIterator, one cursor over the sorted union of its children.
module Merger {
  import opened Ordering
  import opened Cursors

  ghost predicate StrictlySorted<K, V>(c: Comparator<K>, items: seq<(K, V)>) {
    forall i, j :: 0 <= i < j < |items| ==> Lt(c, items[i].0, items[j].0)
  }

  lemma Ascending<K(!new), V>(c: Comparator<K>, items: seq<(K, V)>, a: nat, b: nat)
    requires TotalOrder(c) && StrictlySorted(c, items) && a <= b < |items|
    ensures Le(c, items[a].0, items[b].0)
    ensures a < b ==> Lt(c, items[a].0, items[b].0)
  {
  }

  lemma Places<K(!new), V>(c: Comparator<K>, items: seq<(K, V)>, a: nat, b: nat)
    requires TotalOrder(c) && StrictlySorted(c, items) && a < |items| && b < |items|
    ensures a < b <==> Lt(c, items[a].0, items[b].0)
    ensures a == b <==> items[a].0 == items[b].0
  {
    if a < b {
      Ascending(c, items, a, b);
    } else {
      Ascending(c, items, b, a);
    }
  }

  ghost predicate FirstAtLeast<K, V>(c: Comparator<K>, items: seq<(K, V)>, k: K, p: nat) {
    && p <= |items|
    && (forall a :: 0 <= a < p ==> Lt(c, items[a].0, k))
    && (forall a :: p <= a < |items| ==> Le(c, k, items[a].0))
  }

  ghost predicate FirstAbove<K, V>(c: Comparator<K>, items: seq<(K, V)>, k: K, p: nat) {
    && p <= |items|
    && (forall a :: 0 <= a < p ==> Le(c, items[a].0, k))
    && (forall a :: p <= a < |items| ==> Lt(c, k, items[a].0))
  }

  // The last item at or below k; |items| when there is none.
  ghost predicate LastAtMost<K, V>(c: Comparator<K>, items: seq<(K, V)>, k: K, p: nat) {
    && p <= |items|
    && (p < |items| ==> Le(c, items[p].0, k))
    && (forall a :: 0 <= a < |items| && (p < a || p == |items|) ==> Lt(c, k, items[a].0))
  }

  ghost predicate LastBelow<K, V>(c: Comparator<K>, items: seq<(K, V)>, k: K, p: nat) {
    && p <= |items|
    && (p < |items| ==> Lt(c, items[p].0, k))
    && (forall a :: 0 <= a < |items| && (p < a || p == |items|) ==> Le(c, k, items[a].0))
  }

  ghost predicate AllIn<K, V>(list: seq<(K, V)>, all: seq<(K, V)>) {
    forall a :: 0 <= a < |list| ==> list[a] in all
  }

  ghost predicate ComesFrom<K, V>(lists: seq<seq<(K, V)>>, item: (K, V)) {
    exists i, a :: 0 <= i < |lists| && 0 <= a < |lists[i]| && lists[i][a] == item
  }

  // `all` is the sorted union of the lists.
  ghost predicate IsUnion<K, V>(c: Comparator<K>, lists: seq<seq<(K, V)>>, all: seq<(K, V)>) {
    && StrictlySorted(c, all)
    && (forall i :: 0 <= i < |lists| ==> StrictlySorted(c, lists[i]) && AllIn(lists[i], all))
    && (forall q :: 0 <= q < |all| ==> ComesFrom(lists, all[q]))
  }

  // No key occurs in two lists.
  ghost predicate Disjoint<K, V>(lists: seq<seq<(K, V)>>) {
    forall i, j, a, b :: 0 <= i < j < |lists| && 0 <= a < |lists[i]| && 0 <= b < |lists[j]| ==>
      lists[i][a].0 != lists[j][b].0
  }

  // `at` is the first item of the list that lies in all[q..].
  ghost predicate SplitsFrom<K, V>(c: Comparator<K>, list: seq<(K, V)>, all: seq<(K, V)>, q: nat, at: nat)
    requires q <= |all|
  {
    if q < |all| then FirstAtLeast(c, list, all[q].0, at) else at == |list|
  }

  // `at` is the last item of the list that lies in all[..q].
  ghost predicate SplitsBack<K, V>(c: Comparator<K>, list: seq<(K, V)>, all: seq<(K, V)>, q: nat, at: nat)
    requires q <= |all|
  {
    if q > 0 then LastAtMost(c, list, all[q - 1].0, at) else at == |list|
  }

  lemma NextAbove<K(!new), V(!new)>(c: Comparator<K>, list: seq<(K, V)>, a: nat)
    requires TotalOrder(c) && StrictlySorted(c, list) && a < |list|
    ensures FirstAbove(c, list, list[a].0, AfterNext(|list|, a))
  {
  }

  lemma PrevBelow<K(!new), V(!new)>(c: Comparator<K>, list: seq<(K, V)>, a: nat)
    requires TotalOrder(c) && StrictlySorted(c, list) && a < |list|
    ensures LastBelow(c, list, list[a].0, AfterPrev(|list|, a))
  {
  }

  lemma AboveSplits<K(!new), V(!new)>(c: Comparator<K>, list: seq<(K, V)>, all: seq<(K, V)>, p: nat, at: nat)
    requires TotalOrder(c) && StrictlySorted(c, all) && AllIn(list, all) && p < |all|
    requires FirstAbove(c, list, all[p].0, at)
    ensures SplitsFrom(c, list, all, p + 1, at)
  {
    assert at < |list| ==> list[at] in all;
    forall a | at <= a < |list| ensures p + 1 < |all| && Le(c, all[p + 1].0, list[a].0) {
      assert list[a] in all;
      var q :| 0 <= q < |all| && all[q] == list[a];
      Places(c, all, p, q);
      Ascending(c, all, p + 1, q);
    }
    if p + 1 < |all| {
      Ascending(c, all, p, p + 1);
    }
  }

  lemma BelowSplits<K(!new), V(!new)>(c: Comparator<K>, list: seq<(K, V)>, all: seq<(K, V)>, p: nat, at: nat)
    requires TotalOrder(c) && StrictlySorted(c, all) && AllIn(list, all) && p < |all|
    requires LastBelow(c, list, all[p].0, at)
    ensures SplitsBack(c, list, all, p, at)
  {
    if at < |list| {
      var q :| 0 <= q < |all| && all[q] == list[at];
      assert q < p;
      Ascending(c, all, q, p - 1);
    }
    if p > 0 {
      Ascending(c, all, p - 1, p);
    }
  }

  lemma FrontSplits<K(!new), V(!new)>(c: Comparator<K>, list: seq<(K, V)>, all: seq<(K, V)>)
    requires TotalOrder(c) && StrictlySorted(c, all) && AllIn(list, all)
    ensures SplitsFrom(c, list, all, 0, 0)
  {
    assert |list| > 0 ==> list[0] in all;
    forall a | 0 <= a < |list| ensures |all| > 0 && Le(c, all[0].0, list[a].0) {
      assert list[a] in all;
      var q :| 0 <= q < |all| && all[q] == list[a];
      Ascending(c, all, 0, q);
    }
  }

  lemma BackSplits<K(!new), V(!new)>(c: Comparator<K>, list: seq<(K, V)>, all: seq<(K, V)>)
    requires TotalOrder(c) && StrictlySorted(c, all) && AllIn(list, all)
    ensures SplitsBack(c, list, all, |all|, AfterSeekToLast(|list|))
  {
    if |list| > 0 {
      var q :| 0 <= q < |all| && all[q] == list[|list| - 1];
      Ascending(c, all, q, |all| - 1);
    }
  }

  lemma SeekSplits<K(!new), V(!new)>(c: Comparator<K>, list: seq<(K, V)>, all: seq<(K, V)>, k: K, q: nat, at: nat)
    requires TotalOrder(c) && StrictlySorted(c, all) && StrictlySorted(c, list) && AllIn(list, all)
    requires IsFirstNot(all, (x: (K, V)) => Lt(c, x.0, k), q)
    requires IsFirstNot(list, (x: (K, V)) => Lt(c, x.0, k), at)
    ensures SplitsFrom(c, list, all, q, at)
  {
    forall a | at <= a < |list| ensures q < |all| && Le(c, all[q].0, list[a].0) {
      Ascending(c, list, at, a);
      var r :| 0 <= r < |all| && all[r] == list[a];
      assert r >= q;
      Ascending(c, all, q, r);
    }
  }

  // best is the list standing at the least item, -1 when every list is exhausted.
  ghost predicate IsSmallest<K, V>(c: Comparator<K>, lists: seq<seq<(K, V)>>, at: seq<nat>, best: int)
    requires |at| == |lists|
  {
    && -1 <= best < |lists|
    && (best == -1 ==> forall i :: 0 <= i < |lists| ==> at[i] >= |lists[i]|)
    && (best >= 0 ==> at[best] < |lists[best]| && forall i :: 0 <= i < |lists| && at[i] < |lists[i]| ==>
          Le(c, lists[best][at[best]].0, lists[i][at[i]].0))
  }

  ghost predicate IsLargest<K, V>(c: Comparator<K>, lists: seq<seq<(K, V)>>, at: seq<nat>, best: int)
    requires |at| == |lists|
  {
    && -1 <= best < |lists|
    && (best == -1 ==> forall i :: 0 <= i < |lists| ==> at[i] >= |lists[i]|)
    && (best >= 0 ==> at[best] < |lists[best]| && forall i :: 0 <= i < |lists| && at[i] < |lists[i]| ==>
          Le(c, lists[i][at[i]].0, lists[best][at[best]].0))
  }

  // Lists split at q: the least item they stand at is all[q].
  lemma SmallestIsNext<K(!new), V(!new)>(c: Comparator<K>, lists: seq<seq<(K, V)>>, all: seq<(K, V)>, q: nat,
                           at: seq<nat>, best: int)
    requires TotalOrder(c) && IsUnion(c, lists, all) && q <= |all| && |at| == |lists|
    requires forall i :: 0 <= i < |lists| ==> SplitsFrom(c, lists[i], all, q, at[i])
    requires IsSmallest(c, lists, at, best)
    ensures best == -1 <==> q == |all|
    ensures best >= 0 ==> all[q] == lists[best][at[best]]
  {
    if q < |all| {
      assert ComesFrom(lists, all[q]);
      var i, a :| 0 <= i < |lists| && 0 <= a < |lists[i]| && lists[i][a] == all[q];
      assert a >= at[i];
      Ascending(c, lists[i], at[i], a);
      var r :| 0 <= r < |all| && all[r] == lists[best][at[best]];
      Places(c, all, q, r);
    }
  }

  // Lists split back at q: the greatest item they stand at is all[q - 1].
  lemma LargestIsPrev<K(!new), V(!new)>(c: Comparator<K>, lists: seq<seq<(K, V)>>, all: seq<(K, V)>, q: nat,
                          at: seq<nat>, best: int)
    requires TotalOrder(c) && IsUnion(c, lists, all) && q <= |all| && |at| == |lists|
    requires forall i :: 0 <= i < |lists| ==> SplitsBack(c, lists[i], all, q, at[i])
    requires IsLargest(c, lists, at, best)
    ensures best == -1 <==> q == 0
    ensures best >= 0 ==> all[q - 1] == lists[best][at[best]]
  {
    if q > 0 {
      assert ComesFrom(lists, all[q - 1]);
      var i, a :| 0 <= i < |lists| && 0 <= a < |lists[i]| && lists[i][a] == all[q - 1];
      assert a <= at[i] < |lists[i]|;
      Ascending(c, lists[i], a, at[i]);
      var r :| 0 <= r < |all| && all[r] == lists[best][at[best]];
      Places(c, all, r, q - 1);
    }
  }

  ghost function MergeTwo<K, V>(c: Comparator<K>, a: seq<(K, V)>, b: seq<(K, V)>): seq<(K, V)> {
    if |a| == 0 then b
    else if |b| == 0 then a
    else if Lt(c, a[0].0, b[0].0) then [a[0]] + MergeTwo(c, a[1..], b)
    else [b[0]] + MergeTwo(c, a, b[1..])
  }

  ghost function MergeAll<K, V>(c: Comparator<K>, lists: seq<seq<(K, V)>>): seq<(K, V)> {
    if |lists| == 0 then [] else MergeTwo(c, lists[0], MergeAll(c, lists[1..]))
  }

  lemma {:induction false} MergeTwoSorted<K(!new), V(!new)>(c: Comparator<K>, a: seq<(K, V)>, b: seq<(K, V)>)
    requires TotalOrder(c) && StrictlySorted(c, a) && StrictlySorted(c, b)
    requires forall x, y :: x in a && y in b ==> x.0 != y.0
    ensures forall x :: x in MergeTwo(c, a, b) <==> x in a || x in b
    ensures StrictlySorted(c, MergeTwo(c, a, b))
  {
    if |a| > 0 && |b| > 0 {
      if Lt(c, a[0].0, b[0].0) {
        MergeTwoSorted(c, a[1..], b);
        Prepend(c, a[0], MergeTwo(c, a[1..], b));
      } else {
        assert a[0].0 != b[0].0 by { assert a[0] in a && b[0] in b; }
        MergeTwoSorted(c, a, b[1..]);
        Prepend(c, b[0], MergeTwo(c, a, b[1..]));
      }
    }
  }

  lemma Prepend<K(!new), V(!new)>(c: Comparator<K>, x: (K, V), rest: seq<(K, V)>)
    requires TotalOrder(c) && StrictlySorted(c, rest) && forall y :: y in rest ==> Lt(c, x.0, y.0)
    ensures StrictlySorted(c, [x] + rest)
  {
  }

  // Sorted lists with pairwise distinct keys do have a sorted union.
  lemma {:induction false} MergeAllIsUnion<K(!new), V(!new)>(c: Comparator<K>, lists: seq<seq<(K, V)>>)
    requires TotalOrder(c) && Disjoint(lists) && forall i :: 0 <= i < |lists| ==> StrictlySorted(c, lists[i])
    ensures IsUnion(c, lists, MergeAll(c, lists))
  {
    if |lists| > 0 {
      var all' := MergeAll(c, lists[1..]);
      assert Disjoint(lists[1..]);
      MergeAllIsUnion(c, lists[1..]);
      forall x, y | x in lists[0] && y in all' ensures x.0 != y.0 {
        assert ComesFrom(lists[1..], y);
        var i, a :| 0 <= i < |lists[1..]| && 0 <= a < |lists[1..][i]| && lists[1..][i][a] == y;
        assert lists[i + 1][a] == y;
      }
      MergeTwoSorted(c, lists[0], all');
      hide Disjoint, TotalOrder, MergeTwo;
      var all := MergeAll(c, lists);
      forall i | 0 <= i < |lists| ensures AllIn(lists[i], all) {
        if i > 0 {
          assert lists[i] == lists[1..][i - 1];
          assert AllIn(lists[i], all');
        }
      }
      hide StrictlySorted, AllIn;
      forall q | 0 <= q < |all| ensures ComesFrom(lists, all[q]) {
        assert all[q] in all;
        MergedFrom(lists, all', all[q]);
      }
    }
  }

  lemma MergedFrom<K(!new), V(!new)>(lists: seq<seq<(K, V)>>, all: seq<(K, V)>, x: (K, V))
    requires |lists| > 0 && (x in lists[0] || x in all)
    requires forall q :: 0 <= q < |all| ==> ComesFrom(lists[1..], all[q])
    ensures ComesFrom(lists, x)
  {
    if x in lists[0] {
      var a :| 0 <= a < |lists[0]| && lists[0][a] == x;
    } else {
      assert ComesFrom(lists[1..], x);
      var i, a :| 0 <= i < |lists[1..]| && 0 <= a < |lists[1..][i]| && lists[1..][i][a] == x;
      assert lists[i + 1][a] == x;
    }
  }

  // The direction switch of Next for one child: just past k.
  method SeekPast<K(!new, ==), V(!new)>(c: Comparator<K>, child: Cursor<(K, V)>, k: K)
    requires TotalOrder(c) && StrictlySorted(c, child.items)
    modifies child
    ensures FirstAbove(c, child.items, k, child.pos)
  {
    child.Seek((x: (K, V)) => Lt(c, x.0, k));
    if child.Valid() && Compare(c, k, child.Item().0) == 0 {
      child.Next();
    }
  }

  // The direction switch of Prev for one child: just before k.
  method SeekBefore<K(!new), V(!new)>(c: Comparator<K>, child: Cursor<(K, V)>, k: K)
    requires TotalOrder(c) && StrictlySorted(c, child.items)
    modifies child
    ensures LastBelow(c, child.items, k, child.pos)
  {
    child.Seek((x: (K, V)) => Lt(c, x.0, k));
    if child.Valid() {
      child.Prev();
    } else {
      child.SeekToLast();
    }
  }

  datatype Direction = Forward | Reverse

  class MergingIterator<K(!new, ==), V(!new, ==)> {
    const c: Comparator<K>
    const children: seq<Cursor<(K, V)>>
    var current: int                     // index of the current child, -1 for NULL
    var direction: Direction
    ghost const lists: seq<seq<(K, V)>>  // what the children hold
    ghost const all: seq<(K, V)>         // their sorted union
    ghost var pos: nat                   // where this iterator stands in the union

    constructor (c: Comparator<K>, children: seq<Cursor<(K, V)>>, ghost lists: seq<seq<(K, V)>>)
      requires TotalOrder(c) && Disjoint(lists) && |lists| == |children|
      requires forall i :: 0 <= i < |lists| ==> StrictlySorted(c, lists[i])
      requires forall i, j :: 0 <= i < j < |children| ==> children[i] != children[j]
      requires forall i :: 0 <= i < |children| ==> children[i].items == lists[i] && children[i].pos <= |lists[i]|
      ensures Valid() && this.c == c && this.children == children && this.lists == lists
      ensures current == -1 && all == MergeAll(c, lists)
    {
      MergeAllIsUnion(c, lists);
      this.c := c;
      this.children := children;
      this.lists := lists;
      this.current := -1;
      this.direction := Forward;
      this.all := MergeAll(c, lists);
      this.pos := |MergeAll(c, lists)|;
    }

    // What never changes: distinct children over lists with pairwise distinct keys.
    ghost predicate Wired() {
      && TotalOrder(c) && IsUnion(c, lists, all) && Disjoint(lists)
      && |lists| == |children|
      && (forall i, j :: 0 <= i < j < |children| ==> children[i] != children[j])
      && (forall i :: 0 <= i < |children| ==> children[i].items == lists[i])
    }

    ghost predicate Shape()
      reads this, children
    {
      && Wired()
      && pos <= |all| && -1 <= current < |children|
      && (forall i :: 0 <= i < |children| ==> children[i].pos <= |lists[i]|)
    }

    ghost predicate Valid()
      reads this, children
    {
      && Shape()
      && (current == -1 <==> pos == |all|)
      && (current >= 0 ==> children[current].Valid() && children[current].Item() == all[pos])
      && (current >= 0 && direction == Forward ==>
            forall i :: 0 <= i < |children| ==> FirstAtLeast(c, lists[i], all[pos].0, children[i].pos))
      && (current >= 0 && direction == Reverse ==>
            forall i :: 0 <= i < |children| ==> LastAtMost(c, lists[i], all[pos].0, children[i].pos))
    }

    ghost function At(): (at: seq<nat>)
      reads children
      ensures |at| == |children| && forall i :: 0 <= i < |at| ==> at[i] == children[i].pos
    {
      seq(|children|, i requires 0 <= i < |children| reads children => children[i].pos)
    }

    method FindSmallest()
      requires Shape()
      modifies this`current
      ensures IsSmallest(c, lists, At(), current)
    {
      var smallest := -1;
      var i := 0;
      while i < |children|
        invariant 0 <= i <= |children| && -1 <= smallest < i
        invariant smallest == -1 ==> forall j :: 0 <= j < i ==> !children[j].Valid()
        invariant smallest >= 0 ==> children[smallest].Valid()
        invariant smallest >= 0 ==> forall j :: 0 <= j < i && children[j].Valid() ==>
                    Le(c, children[smallest].Item().0, children[j].Item().0)
      {
        if children[i].Valid() {
          if smallest == -1 {
            smallest := i;
          } else if Compare(c, children[i].Item().0, children[smallest].Item().0) < 0 {
            smallest := i;
          }
        }
        i := i + 1;
      }
      current := smallest;
    }

    method FindLargest()
      requires Shape()
      modifies this`current
      ensures IsLargest(c, lists, At(), current)
    {
      var largest := -1;
      var i := |children| - 1;
      while i >= 0
        invariant -1 <= i < |children| && (largest == -1 || i < largest < |children|)
        invariant largest == -1 ==> forall j :: i < j < |children| ==> !children[j].Valid()
        invariant largest >= 0 ==> children[largest].Valid()
        invariant largest >= 0 ==> forall j :: i < j < |children| && children[j].Valid() ==>
                    Le(c, children[j].Item().0, children[largest].Item().0)
      {
        if children[i].Valid() {
          if largest == -1 {
            largest := i;
          } else if Compare(c, children[i].Item().0, children[largest].Item().0) > 0 {
            largest := i;
          }
        }
        i := i - 1;
      }
      current := largest;
    }

    // FindSmallest with every child split at q: the iterator stands at all[q].
    method SettleForward(ghost q: nat)
      requires Shape() && q <= |all|
      requires forall i :: 0 <= i < |children| ==> SplitsFrom(c, lists[i], all, q, children[i].pos)
      modifies this
      ensures Valid() && pos == q && direction == Forward
    {
      hide TotalOrder, IsUnion, Disjoint, FirstAtLeast;
      FindSmallest();
      direction := Forward;
      ghost var at := At();
      assert forall i :: 0 <= i < |at| ==> SplitsFrom(c, lists[i], all, q, at[i]);
      SmallestIsNext(c, lists, all, q, at, current);
      pos := q;
    }

    // FindLargest with every child split back at q: the iterator stands at all[q - 1].
    method SettleReverse(ghost q: nat)
      requires Shape() && q <= |all|
      requires forall i :: 0 <= i < |children| ==> SplitsBack(c, lists[i], all, q, children[i].pos)
      modifies this
      ensures Valid() && direction == Reverse
      ensures pos == if q == 0 then |all| else q - 1
    {
      hide TotalOrder, IsUnion, Disjoint, LastAtMost;
      FindLargest();
      direction := Reverse;
      ghost var at := At();
      assert forall i :: 0 <= i < |at| ==> SplitsBack(c, lists[i], all, q, at[i]);
      LargestIsPrev(c, lists, all, q, at, current);
      pos := if q == 0 then |all| else q - 1;
    }

    method SeekToFirst()
      requires Shape()
      modifies this, children
      ensures Valid() && pos == 0
    {
      var i := 0;
      while i < |children|
        modifies children
        invariant 0 <= i <= |children|
        invariant forall j :: 0 <= j < |children| ==> children[j].pos <= |lists[j]|
        invariant forall j :: 0 <= j < i ==> children[j].pos == 0
      {
        children[i].SeekToFirst();
        i := i + 1;
      }
      forall i | 0 <= i < |children| ensures SplitsFrom(c, lists[i], all, 0, children[i].pos) {
        FrontSplits(c, lists[i], all);
      }
      SettleForward(0);
    }

    method SeekToLast()
      requires Shape()
      modifies this, children
      ensures Valid() && pos == AfterSeekToLast(|all|)
    {
      var i := 0;
      while i < |children|
        modifies children
        invariant 0 <= i <= |children|
        invariant forall j :: 0 <= j < |children| ==> children[j].pos <= |lists[j]|
        invariant forall j :: 0 <= j < i ==> children[j].pos == AfterSeekToLast(|lists[j]|)
      {
        children[i].SeekToLast();
        i := i + 1;
      }
      forall i | 0 <= i < |children| ensures SplitsBack(c, lists[i], all, |all|, children[i].pos) {
        BackSplits(c, lists[i], all);
      }
      SettleReverse(|all|);
    }

    // Every child seeks the target.
    method SeekChildren(target: K)
      requires Shape()
      modifies children
      ensures Shape()
      ensures forall j :: 0 <= j < |children| ==> IsFirstNot(lists[j], (x: (K, V)) => Lt(c, x.0, target), children[j].pos)
    {
      hide TotalOrder, IsUnion, Disjoint, IsFirstNot;
      var below := (x: (K, V)) => Lt(c, x.0, target);
      var i := 0;
      while i < |children|
        modifies children
        invariant 0 <= i <= |children|
        invariant forall j :: 0 <= j < |children| ==> children[j].pos <= |lists[j]|
        invariant forall j :: 0 <= j < i ==> IsFirstNot(lists[j], below, children[j].pos)
      {
        children[i].Seek(below);
        i := i + 1;
      }
    }

    method Seek(target: K)
      requires Shape()
      modifies this, children
      ensures Valid() && IsFirstNot(all, (x: (K, V)) => Lt(c, x.0, target), pos)
    {
      SeekChildren(target);
      ghost var q := FirstNot(all, (x: (K, V)) => Lt(c, x.0, target));
      forall i | 0 <= i < |children| ensures SplitsFrom(c, lists[i], all, q, children[i].pos) {
        SeekSplits(c, lists[i], all, target, q, children[i].pos);
      }
      SettleForward(q);
    }

    // All other children go (or are already) past the current key.
    method FaceForward()
      requires Valid() && current != -1
      modifies this`direction, children
      ensures Shape() && children[current].pos == old(children[current].pos)
      ensures forall i :: 0 <= i < |children| && i != current ==>
                FirstAbove(c, lists[i], all[pos].0, children[i].pos)
    {
      if direction != Forward {
        var i := 0;
        while i < |children|
          modifies children
          invariant 0 <= i <= |children|
          invariant forall j :: 0 <= j < |children| ==> children[j].pos <= |lists[j]|
          invariant children[current].pos == old(children[current].pos)
          invariant forall j :: 0 <= j < i && j != current ==> FirstAbove(c, lists[j], all[pos].0, children[j].pos)
        {
          if i != current {
            label before:
            SeekPast(c, children[i], children[current].Item().0);
            assert forall j :: 0 <= j < |children| && j != i ==> children[j].pos == old@before(children[j].pos);
          }
          i := i + 1;
        }
        direction := Forward;
      } else {
        OthersAbove();
      }
    }

    // All other children go (or are already) before the current key.
    method FaceReverse()
      requires Valid() && current != -1
      modifies this`direction, children
      ensures Shape() && children[current].pos == old(children[current].pos)
      ensures forall i :: 0 <= i < |children| && i != current ==>
                LastBelow(c, lists[i], all[pos].0, children[i].pos)
    {
      if direction != Reverse {
        var i := 0;
        while i < |children|
          modifies children
          invariant 0 <= i <= |children|
          invariant forall j :: 0 <= j < |children| ==> children[j].pos <= |lists[j]|
          invariant children[current].pos == old(children[current].pos)
          invariant forall j :: 0 <= j < i && j != current ==> LastBelow(c, lists[j], all[pos].0, children[j].pos)
        {
          if i != current {
            label before:
            SeekBefore(c, children[i], children[current].Item().0);
            assert forall j :: 0 <= j < |children| && j != i ==> children[j].pos == old@before(children[j].pos);
          }
          i := i + 1;
        }
        direction := Reverse;
      } else {
        OthersBelow();
      }
    }

    method Next()
      requires Valid() && current != -1
      modifies this, children
      ensures Valid() && pos == AfterNext(|all|, old(pos))
    {
      hide TotalOrder, StrictlySorted, AllIn, ComesFrom, Disjoint, FirstAbove, SplitsFrom, FirstAtLeast, LastAtMost;
      FaceForward();
      NextAbove(c, lists[current], children[current].pos);
      children[current].Next();
      forall i | 0 <= i < |children| ensures SplitsFrom(c, lists[i], all, pos + 1, children[i].pos) {
        AboveSplits(c, lists[i], all, pos, children[i].pos);
      }
      SettleForward(pos + 1);
    }

    method Prev()
      requires Valid() && current != -1
      modifies this, children
      ensures Valid() && pos == AfterPrev(|all|, old(pos))
    {
      hide TotalOrder, StrictlySorted, AllIn, ComesFrom, Disjoint, LastBelow, SplitsBack, FirstAtLeast, LastAtMost;
      FaceReverse();
      PrevBelow(c, lists[current], children[current].pos);
      children[current].Prev();
      forall i | 0 <= i < |children| ensures SplitsBack(c, lists[i], all, pos, children[i].pos) {
        BelowSplits(c, lists[i], all, pos, children[i].pos);
      }
      SettleReverse(pos);
    }

    // Another child never holds the current key, so it stands strictly on the far side of it.
    lemma OthersAbove()
      requires Valid() && current != -1 && direction == Forward
      ensures forall i :: 0 <= i < |children| && i != current ==>
                FirstAbove(c, lists[i], all[pos].0, children[i].pos)
    {
      forall i | 0 <= i < |children| && i != current
        ensures FirstAbove(c, lists[i], all[pos].0, children[i].pos)
      {
        NotShared(i);
      }
    }

    lemma OthersBelow()
      requires Valid() && current != -1 && direction == Reverse
      ensures forall i :: 0 <= i < |children| && i != current ==>
                LastBelow(c, lists[i], all[pos].0, children[i].pos)
    {
      forall i | 0 <= i < |children| && i != current
        ensures LastBelow(c, lists[i], all[pos].0, children[i].pos)
      {
        NotShared(i);
      }
    }

    lemma NotShared(i: nat)
      requires Valid() && current != -1 && i < |children| && i != current
      ensures forall a :: 0 <= a < |lists[i]| ==> lists[i][a].0 != all[pos].0
    {
      assert all[pos] == lists[current][children[current].pos];
    }

    function Key(): K
      requires Valid() && current != -1
      reads this, children
      ensures pos < |all| && Key() == all[pos].0
    {
      children[current].Item().0
    }

    function TheValue(): V
      requires Valid() && current != -1
      reads this, children
      ensures pos < |all| && TheValue() == all[pos].1
    {
      children[current].Item().1
    }
  }
}
