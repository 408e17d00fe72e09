// table/block.cpp Block::Iter: a cursor over the pairs of a block.
module BlockIterator {
  import opened Options
  import opened Coding
  import opened Ordering
  import opened Cursors
  import opened ByteStrings
  import opened Blocks

  ghost predicate SortedPairs(c: Comparator<Bytes>, pairs: seq<Pair>) {
    forall i, j :: 0 <= i < j < |pairs| ==> Lt(c, pairs[i].key, pairs[j].key)
  }

  function Below(c: Comparator<Bytes>, target: Bytes): Pair -> bool {
    (p: Pair) => Lt(c, p.key, target)
  }

  class Iter {
    const c: Comparator<Bytes>
    const contents: Bytes
    const restarts: nat      // offset of the restart array
    const numRestarts: nat
    ghost const pairs: seq<Pair>
    ghost const starts: seq<nat>

    var current: nat         // offset of the current entry; >= restarts if not Valid
    var restartIndex: nat
    var key: Bytes
    var valueAt: nat         // value_ lies in the block at this offset
    var value: Bytes
    ghost var pos: nat

    // Block::Block and Block::NewIterator.
    constructor (c: Comparator<Bytes>, contents: Bytes, ghost pairs: seq<Pair>, ghost starts: seq<nat>)
      requires IsBlock(contents, pairs, starts)
      ensures this.c == c && this.contents == contents && this.pairs == pairs && this.starts == starts
      ensures Valid() && pos == |pairs|
    {
      BlockOpens(contents, pairs, starts);
      var parsed := OpenBlock(contents);
      this.c := c;
      this.contents := contents;
      this.restarts := parsed.value.0;
      this.numRestarts := parsed.value.1;
      this.pairs := pairs;
      this.starts := starts;
      this.current := parsed.value.0;
      this.restartIndex := parsed.value.1;
      this.key := [];
      this.valueAt := 0;
      this.value := [];
      this.pos := |pairs|;
    }

    ghost predicate OfBlock() {
      && IsBlock(contents, pairs, starts)
      && restarts == Offset(pairs, starts, |pairs|) && numRestarts == |starts|
    }

    ghost predicate Valid()
      reads this
    {
      OfBlock() && pos <= |pairs| && if pos == |pairs| then AtEnd() else AtEntry()
    }

    ghost predicate AtEnd()
      reads this
    {
      current == restarts
    }

    ghost predicate AtEntry()
      requires OfBlock() && pos < |pairs|
      reads this
    {
      && current == Offset(pairs, starts, pos) < restarts
      && key == pairs[pos].key && value == pairs[pos].value
      && NextEntryOffset() == Offset(pairs, starts, pos + 1)
      && restartIndex < numRestarts && starts[restartIndex] <= pos
    }

    // The next entry to parse is entry n, and key_ holds what that entry shares.
    ghost predicate Before(n: nat)
      reads this
    {
      && OfBlock() && n <= |pairs| && NextEntryOffset() == Offset(pairs, starts, n)
      && restartIndex < numRestarts && starts[restartIndex] <= n
      && (n < |pairs| ==> Share(pairs, starts, n) <= |key|
                          && key[..Share(pairs, starts, n)] == pairs[n].key[..Share(pairs, starts, n)])
    }

    function NextEntryOffset(): nat
      reads this
    {
      valueAt + |value|
    }

    predicate IsValid()
      reads this
    {
      current < restarts
    }

    function GetRestartPoint(index: nat): nat
      requires OfBlock() && index < numRestarts
      ensures starts[index] <= |pairs| && GetRestartPoint(index) == Offset(pairs, starts, starts[index])
    {
      RestartReads(contents, pairs, starts, index);
      DecodeFixed(contents[restarts + 4 * index..restarts + 4 * index + 4])
    }

    method SeekToRestartPoint(index: nat)
      requires OfBlock() && index < numRestarts
      modifies this`key, this`restartIndex, this`valueAt, this`value
      ensures Before(starts[index]) && restartIndex == index
    {
      key := [];
      restartIndex := index;
      valueAt := GetRestartPoint(index);
      value := [];
    }

    method ParseNextKey(ghost n: nat) returns (ok: bool)
      requires Before(n)
      modifies this
      ensures Valid() && pos == n && ok == (n < |pairs|)
    {
      hide IsBlock, Share, Offset, DecodeEntry;
      OffsetsAscend(pairs, starts, n, |pairs|);
      pos := n;
      current := NextEntryOffset();
      if current >= restarts {
        current := restarts;
        restartIndex := numRestarts;
        return false;
      }
      EntryReads(contents, pairs, starts, n);
      var d := DecodeEntry(contents[current..restarts]);
      if d.None? || |key| < d.value.shared {
        assert false;
      } else {
        var Decoded(shared, nonShared, valueLength, rest) := d.value;
        key := key[..shared] + rest[..nonShared];
        assert key == pairs[n].key;
        valueAt := restarts - |rest| + nonShared;
        value := rest[nonShared..][..valueLength];
        while restartIndex + 1 < numRestarts && GetRestartPoint(restartIndex + 1) < current
          invariant restartIndex < numRestarts && starts[restartIndex] <= n
          modifies this`restartIndex
        {
          OffsetsAscend(pairs, starts, starts[restartIndex + 1], n);
          restartIndex := restartIndex + 1;
        }
        return true;
      }
    }

    // The entry after one that was parsed shares with it.
    lemma Following()
      requires Valid() && pos < |pairs|
      ensures Before(pos + 1)
    {
      hide IsBlock, Offset;
    }

    method Next()
      requires Valid() && pos < |pairs|
      modifies this
      ensures Valid() && pos == AfterNext(|pairs|, old(pos))
    {
      Following();
      var _ := ParseNextKey(pos + 1);
    }

    // Scans back to a restart point before the current entry, then forward to the entry before it.
    method Prev()
      requires Valid() && pos < |pairs|
      modifies this
      ensures Valid() && pos == AfterPrev(|pairs|, old(pos))
    {
      var original := current;
      ghost var was := pos;
      while GetRestartPoint(restartIndex) >= original
        invariant restartIndex < numRestarts && unchanged(this`pos)
        decreases restartIndex
      {
        OffsetsAscend(pairs, starts, starts[restartIndex], was);
        if restartIndex == 0 {
          pos := |pairs|;
          current := restarts;
          restartIndex := numRestarts;
          return;
        }
        restartIndex := restartIndex - 1;
      }
      OffsetsAscend(pairs, starts, starts[restartIndex], was);
      ScanTo(restartIndex, original, was);
    }

    // SeekToRestartPoint, then parse until the next entry begins at limit or beyond.
    method ScanTo(index: nat, limit: nat, ghost n: nat)
      requires OfBlock() && index < numRestarts && n <= |pairs| && limit == Offset(pairs, starts, n)
      requires starts[index] < n || |pairs| == 0
      modifies this
      ensures Valid() && pos == if n == 0 then 0 else n - 1
    {
      hide IsBlock, Offset, Share;
      SeekToRestartPoint(index);
      ghost var next := starts[index];
      var more := true;
      while more
        invariant OfBlock()
        invariant more ==> Before(next) && (next < n || |pairs| == 0)
        invariant !more ==> Valid() && pos == if n == 0 then 0 else n - 1
        decreases more, n - next
      {
        var ok := ParseNextKey(next);
        more := ok && NextEntryOffset() < limit;
        if ok {
          OffsetsAscend(pairs, starts, next + 1, n);
          if more {
            Following();
            next := next + 1;
          }
        }
      }
    }

    method SeekToFirst()
      requires OfBlock()
      modifies this
      ensures Valid() && pos == 0
    {
      SeekToRestartPoint(0);
      var _ := ParseNextKey(0);
    }

    method SeekToLast()
      requires OfBlock()
      modifies this
      ensures Valid() && pos == AfterSeekToLast(|pairs|)
    {
      ScanTo(numRestarts - 1, restarts, |pairs|);
    }

    // Binary search over the restart points, then linear search from the last one whose key is
    // below the target.
    method Seek(target: Bytes)
      requires OfBlock() && TotalOrder(c) && SortedPairs(c, pairs)
      modifies this
      ensures Valid() && IsFirstNot(pairs, Below(c, target), pos)
    {
      hide IsBlock, Offset, Share, TotalOrder, SortedPairs;
      var left := FindRestart(target);
      SeekToRestartPoint(left);
      ghost var next := starts[left];
      while true
        invariant Before(next)
        invariant forall i :: 0 <= i < next ==> Lt(c, pairs[i].key, target)
        decreases |pairs| - next
      {
        var ok := ParseNextKey(next);
        if !ok {
          return;
        }
        if !Lt(c, key, target) {
          return;
        }
        Following();
        next := next + 1;
      }
    }

    method FindRestart(target: Bytes) returns (left: nat)
      requires OfBlock() && TotalOrder(c) && SortedPairs(c, pairs)
      ensures left < numRestarts && starts[left] <= |pairs|
      ensures forall i :: 0 <= i < starts[left] ==> Lt(c, pairs[i].key, target)
    {
      left := 0;
      var right := numRestarts - 1;
      while left < right
        invariant left <= right < numRestarts
        invariant forall i :: 0 <= i < starts[left] && i < |pairs| ==> Lt(c, pairs[i].key, target)
      {
        var mid := (left + right + 1) / 2;
        ghost var at := starts[mid];
        EntryReads(contents, pairs, starts, at);
        var d := DecodeEntry(contents[GetRestartPoint(mid)..restarts]);
        if d.None? || d.value.shared != 0 {
          assert false;
        } else {
          var midKey := d.value.rest[..d.value.nonShared];
          assert midKey == pairs[at].key;
          if Lt(c, midKey, target) {
            left := mid;
          } else {
            right := mid - 1;
          }
        }
      }
    }
  }
}
