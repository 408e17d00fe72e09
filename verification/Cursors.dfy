// The contract of leveldb::Iterator: a position in one finite sequence. Position n (the
// length) is the single invalid state, reached from either end.
module Cursors {

  function AfterNext(n: nat, p: nat): nat {
    p + 1
  }

  function AfterPrev(n: nat, p: nat): nat {
    if p == 0 then n else p - 1
  }

  function AfterSeekToLast(n: nat): nat {
    if n == 0 then 0 else n - 1
  }

  // p is where Seek lands: the first item that is not below the target.
  ghost predicate IsFirstNot<T>(items: seq<T>, below: T -> bool, p: nat) {
    && p <= |items|
    && (forall i :: 0 <= i < p ==> below(items[i]))
    && (p < |items| ==> !below(items[p]))
  }

  ghost function FirstNot<T>(items: seq<T>, below: T -> bool): (p: nat)
    ensures IsFirstNot(items, below, p)
  {
    if |items| == 0 || !below(items[0]) then 0
    else
      var p := FirstNot(items[1..], below) + 1;
      assert forall i :: 0 < i < p ==> items[i] == items[1..][i - 1];
      p
  }

  // A child iterator: a cursor over its items.
  class Cursor<T> {
    const items: seq<T>
    var pos: nat

    constructor (items: seq<T>)
      ensures this.items == items && pos == |items|
    {
      this.items := items;
      this.pos := |items|;
    }

    predicate Valid()
      reads this
    {
      pos < |items|
    }

    function Item(): T
      requires Valid()
      reads this
    {
      items[pos]
    }

    method Next()
      requires Valid()
      modifies this
      ensures pos == AfterNext(|items|, old(pos))
    {
      pos := pos + 1;
    }

    method Prev()
      requires Valid()
      modifies this
      ensures pos == AfterPrev(|items|, old(pos))
    {
      pos := if pos == 0 then |items| else pos - 1;
    }

    method SeekToFirst()
      modifies this
      ensures pos == 0
    {
      pos := 0;
    }

    method SeekToLast()
      modifies this
      ensures pos == AfterSeekToLast(|items|)
    {
      pos := if |items| == 0 then 0 else |items| - 1;
    }

    method Seek(below: T -> bool)
      modifies this
      ensures IsFirstNot(items, below, pos)
    {
      pos := 0;
      while pos < |items| && below(items[pos])
        invariant pos <= |items|
        invariant forall i :: 0 <= i < pos ==> below(items[i])
      {
        pos := pos + 1;
      }
    }
  }
}
