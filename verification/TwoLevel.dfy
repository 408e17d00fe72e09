// table/two_level_iterator.cpp: one cursor over the blocks an index cursor points to.
module TwoLevel {
  import opened Ordering
  import opened Cursors

  // All blocks, one after the other.
  function Concat<T>(blocks: seq<seq<T>>): seq<T> {
    if |blocks| == 0 then [] else Concat(blocks[..|blocks| - 1]) + blocks[|blocks| - 1]
  }

  // Where block i begins in the concatenation.
  function Start<T>(blocks: seq<seq<T>>, i: nat): nat
    requires i <= |blocks|
  {
    |Concat(blocks[..i])|
  }

  lemma {:induction false} ConcatAt<T>(blocks: seq<seq<T>>, i: nat)
    requires i < |blocks|
    ensures Start(blocks, 0) == 0
    ensures Start(blocks, i + 1) == Start(blocks, i) + |blocks[i]| <= |Concat(blocks)| == Start(blocks, |blocks|)
    ensures Concat(blocks)[Start(blocks, i)..Start(blocks, i + 1)] == blocks[i]
  {
    var n := |blocks| - 1;
    assert blocks[..|blocks|] == blocks && blocks[..i + 1][..i] == blocks[..i];
    if i < n {
      var shorter := blocks[..n];
      ConcatAt(shorter, i);
      assert shorter[..i] == blocks[..i] && shorter[..i + 1] == blocks[..i + 1];
      var a, b := Start(blocks, i), Start(blocks, i + 1);
      assert Concat(blocks)[a..b] == Concat(shorter)[a..b];
    }
  }

  lemma Ends<T>(blocks: seq<seq<T>>)
    ensures Start(blocks, 0) == 0 && Start(blocks, |blocks|) == |Concat(blocks)|
  {
    assert blocks[..|blocks|] == blocks;
  }

  // Every position lies in one block.
  lemma {:induction false} Locate<T>(blocks: seq<seq<T>>, p: nat) returns (i: nat, d: nat)
    requires p < |Concat(blocks)|
    ensures i < |blocks| && d < |blocks[i]| && p == Start(blocks, i) + d && Concat(blocks)[p] == blocks[i][d]
  {
    var n := |blocks| - 1;
    var shorter := blocks[..n];
    if p < |Concat(shorter)| {
      i, d := Locate(shorter, p);
      assert shorter[..i] == blocks[..i];
    } else {
      i, d := n, p - |Concat(shorter)|;
    }
  }

  lemma {:induction false} StartsAscend<T>(blocks: seq<seq<T>>, i: nat, j: nat)
    requires i <= j <= |blocks|
    ensures Start(blocks, i) <= Start(blocks, j)
    decreases j
  {
    if i < j {
      StartsAscend(blocks, i, j - 1);
      ConcatAt(blocks, j - 1);
    }
  }

  datatype Item<+K, +V> = Item(key: K, value: V)

  function Below<K, V>(c: Comparator<K>, target: K): Item<K, V> -> bool {
    (x: Item<K, V>) => Lt(c, x.key, target)
  }

  // Index key i is no less than the keys of block i, and less than those of every later block.
  ghost predicate Separated<K, V>(c: Comparator<K>, index: seq<Item<K, nat>>, blocks: seq<seq<Item<K, V>>>)
    requires |index| == |blocks|
  {
    && (forall i, d :: 0 <= i < |blocks| && 0 <= d < |blocks[i]| ==> Le(c, blocks[i][d].key, index[i].key))
    && (forall i, j, d :: 0 <= i < j < |blocks| && 0 <= d < |blocks[j]| ==> Lt(c, index[i].key, blocks[j][d].key))
  }

  // Where the two seeks land, within the concatenation.
  lemma SeekLands<K(!new), V>(c: Comparator<K>, index: seq<Item<K, nat>>, blocks: seq<seq<Item<K, V>>>, target: K, i: nat, d: nat)
    requires TotalOrder(c) && |index| == |blocks| && Separated(c, index, blocks)
    requires IsFirstNot(index, Below(c, target), i)
    requires i < |blocks| ==> IsFirstNot(blocks[i], Below(c, target), d)
    ensures var p := if i < |blocks| then Start(blocks, i) + d else |Concat(blocks)|;
            IsFirstNot(Concat(blocks), Below(c, target), p)
  {
    hide Concat;
    var all := Concat(blocks);
    var p := if i < |blocks| then Start(blocks, i) + d else |all|;
    if i < |blocks| {
      ConcatAt(blocks, i);
    }
    forall q: nat | q < |all| ensures q < p ==> Below(c, target)(all[q])
                              ensures q == p ==> !Below(c, target)(all[q])
    {
      var j, e := Locate(blocks, q);
      assert j < i ==> Below(c, target)(index[j]);
      if j < i {
        assert Le(c, blocks[j][e].key, index[j].key);
        StartsAscend(blocks, j + 1, i);
        ConcatAt(blocks, j);
      } else if i < j {
        assert !Below(c, target)(index[i]);
        assert Lt(c, index[i].key, blocks[j][e].key);
        StartsAscend(blocks, i + 1, j);
        assert Compare(c, blocks[j][e].key, target) < 0 <==> Compare(c, target, blocks[j][e].key) > 0;
        assert Compare(c, index[i].key, target) < 0 <==> Compare(c, target, index[i].key) > 0;
        assert Compare(c, index[i].key, target) == 0 <==> index[i].key == target;
      }
    }
  }

  // store holds the contents of the block behind each handle (the block function).
  class TwoLevelIterator<K(!new), V> {
    const store: seq<seq<Item<K, V>>>
    const indexIter: Cursor<Item<K, nat>>
    var dataIter: Cursor?<Item<K, V>>
    var dataBlockHandle: nat

    constructor (store: seq<seq<Item<K, V>>>, indexIter: Cursor<Item<K, nat>>)
      requires forall i :: 0 <= i < |indexIter.items| ==> indexIter.items[i].value < |store|
      ensures this.store == store && this.indexIter == indexIter
      ensures dataIter == null && Handles()
    {
      this.store := store;
      this.indexIter := indexIter;
      this.dataIter := null;
      this.dataBlockHandle := 0;
    }

    ghost predicate Handles() {
      forall i :: 0 <= i < |indexIter.items| ==> indexIter.items[i].value < |store|
    }

    ghost function Blocks(): (b: seq<seq<Item<K, V>>>)
      requires Handles()
      ensures |b| == |indexIter.items|
    {
      seq(|indexIter.items|, i requires 0 <= i < |indexIter.items| => store[indexIter.items[i].value])
    }

    // The sequence iterated over.
    ghost function All(): seq<Item<K, V>>
      requires Handles()
    {
      Concat(Blocks())
    }

    // dataIter, if there is one, is over the block last asked for.
    ghost predicate DataOk()
      reads this
    {
      dataIter != null ==>
        && dataBlockHandle < |store| && dataIter.items == store[dataBlockHandle]
        && (dataIter as object) != indexIter
    }

    // dataIter is over the block the index is at, if it is at one.
    ghost predicate InStep()
      reads this, indexIter
    {
      && DataOk()
      && (indexIter.pos < |indexIter.items| <==> dataIter != null)
      && (dataIter != null ==> dataBlockHandle == indexIter.items[indexIter.pos].value)
    }

    ghost predicate Valid()
      reads this, indexIter, dataIter
    {
      && Handles() && InStep()
      && (dataIter != null ==> dataIter.pos < |dataIter.items|)
    }

    // Where the iterator stands in All().
    ghost function Position(): nat
      requires Valid()
      reads this, indexIter, dataIter
    {
      if dataIter == null then |All()| else Start(Blocks(), indexIter.pos) + dataIter.pos
    }

    predicate IsValid()
      reads this, dataIter
    {
      dataIter != null && dataIter.pos < |dataIter.items|
    }

    function Current(): (x: Item<K, V>)
      requires Valid() && IsValid()
      reads this, indexIter, dataIter
      ensures Position() < |All()| && x == All()[Position()]
    {
      assert Position() < |All()| && dataIter.Item() == All()[Position()] by {
        ConcatAt(Blocks(), indexIter.pos);
      }
      dataIter.Item()
    }

    method InitDataBlock()
      requires Handles() && DataOk()
      modifies this`dataIter, this`dataBlockHandle
      ensures InStep() && (dataIter == old(dataIter) || dataIter == null || fresh(dataIter))
    {
      if indexIter.pos >= |indexIter.items| {
        dataIter := null;
      } else {
        var handle := indexIter.items[indexIter.pos].value;
        if dataIter != null && handle == dataBlockHandle {
          // dataIter is already constructed with this handle
        } else {
          dataIter := new Cursor(store[handle]);
          dataBlockHandle := handle;
        }
      }
    }

    // p is the position if the data iterator is valid, else where the next block begins.
    ghost predicate ForwardTo(p: nat)
      requires Handles()
      reads this, indexIter, dataIter
    {
      && InStep()
      && if dataIter == null then p == |All()|
         else dataIter.pos <= |dataIter.items| && p == Start(Blocks(), indexIter.pos) + dataIter.pos
    }

    method SkipEmptyDataBlocksForward(ghost p: nat)
      requires Handles() && ForwardTo(p)
      modifies this`dataIter, this`dataBlockHandle, indexIter, dataIter
      ensures Valid() && Position() == p
      ensures dataIter == old(dataIter) || dataIter == null || fresh(dataIter)
    {
      hide Concat, Start;
      while dataIter == null || dataIter.pos >= |dataIter.items|
        invariant ForwardTo(p)
        invariant dataIter == old(dataIter) || dataIter == null || fresh(dataIter)
        decreases |indexIter.items| - indexIter.pos
      {
        if indexIter.pos >= |indexIter.items| {
          dataIter := null;
          return;
        }
        ConcatAt(Blocks(), indexIter.pos);
        indexIter.Next();
        InitDataBlock();
        if dataIter != null {
          dataIter.SeekToFirst();
        }
      }
    }

    // p is one past the position, if the data iterator is valid, else where its block begins.
    ghost predicate BackwardTo(p: nat)
      requires Handles()
      reads this, indexIter, dataIter
    {
      && InStep()
      && if dataIter == null then p == 0
         else if dataIter.pos < |dataIter.items| then p == Start(Blocks(), indexIter.pos) + dataIter.pos + 1
         else p == Start(Blocks(), indexIter.pos)
    }

    method SkipEmptyDataBlocksBackward(ghost p: nat)
      requires Handles() && BackwardTo(p)
      modifies this`dataIter, this`dataBlockHandle, indexIter, dataIter
      ensures Valid() && Position() == if p == 0 then |All()| else p - 1
      ensures dataIter == old(dataIter) || dataIter == null || fresh(dataIter)
    {
      hide Concat, Start;
      while dataIter == null || dataIter.pos >= |dataIter.items|
        invariant BackwardTo(p)
        invariant dataIter == old(dataIter) || dataIter == null || fresh(dataIter)
        decreases indexIter.pos < |indexIter.items|, indexIter.pos
      {
        if indexIter.pos >= |indexIter.items| {
          dataIter := null;
          return;
        }
        Ends(Blocks());
        if indexIter.pos > 0 {
          ConcatAt(Blocks(), indexIter.pos - 1);
        }
        indexIter.Prev();
        InitDataBlock();
        if dataIter != null {
          dataIter.SeekToLast();
        }
      }
    }

    method Next()
      requires Valid() && IsValid()
      modifies this`dataIter, this`dataBlockHandle, indexIter, dataIter
      ensures Valid() && Position() == AfterNext(|All()|, old(Position()))
      ensures dataIter == old(dataIter) || dataIter == null || fresh(dataIter)
    {
      ghost var p := Position() + 1;
      dataIter.Next();
      SkipEmptyDataBlocksForward(p);
    }

    method Prev()
      requires Valid() && IsValid()
      modifies this`dataIter, this`dataBlockHandle, indexIter, dataIter
      ensures Valid() && Position() == AfterPrev(|All()|, old(Position()))
      ensures dataIter == old(dataIter) || dataIter == null || fresh(dataIter)
    {
      ghost var p := Position();
      dataIter.Prev();
      SkipEmptyDataBlocksBackward(p);
    }

    method SeekToFirst()
      requires Handles() && DataOk()
      modifies this`dataIter, this`dataBlockHandle, indexIter, dataIter
      ensures Valid() && Position() == 0
      ensures dataIter == old(dataIter) || dataIter == null || fresh(dataIter)
    {
      Ends(Blocks());
      indexIter.SeekToFirst();
      InitDataBlock();
      if dataIter != null {
        dataIter.SeekToFirst();
      }
      SkipEmptyDataBlocksForward(0);
    }

    method SeekToLast()
      requires Handles() && DataOk()
      modifies this`dataIter, this`dataBlockHandle, indexIter, dataIter
      ensures Valid() && Position() == AfterSeekToLast(|All()|)
      ensures dataIter == old(dataIter) || dataIter == null || fresh(dataIter)
    {
      Ends(Blocks());
      if |indexIter.items| > 0 {
        ConcatAt(Blocks(), |indexIter.items| - 1);
      }
      indexIter.SeekToLast();
      InitDataBlock();
      if dataIter != null {
        dataIter.SeekToLast();
      }
      SkipEmptyDataBlocksBackward(|All()|);
    }

    method Seek(c: Comparator<K>, target: K)
      requires Handles() && DataOk() && TotalOrder(c) && Separated(c, indexIter.items, Blocks())
      modifies this`dataIter, this`dataBlockHandle, indexIter, dataIter
      ensures Valid() && IsFirstNot(All(), Below(c, target), Position())
      ensures dataIter == old(dataIter) || dataIter == null || fresh(dataIter)
    {
      indexIter.Seek(Below(c, target));
      InitDataBlock();
      ghost var d := 0;
      if dataIter != null {
        dataIter.Seek(Below(c, target));
        d := dataIter.pos;
      }
      SeekLands(c, indexIter.items, Blocks(), target, indexIter.pos, d);
      SkipEmptyDataBlocksForward(if dataIter != null then Start(Blocks(), indexIter.pos) + d else |All()|);
    }
  }
}
