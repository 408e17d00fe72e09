// table/table_builder.cpp: building a table, with index entries deferred until the next key is known.
module TableBuilding {
  import opened Options
  import opened Coding
  import opened Ordering
  import opened ByteStrings
  import opened InternalKeys
  import opened Tables
  import opened TableReading
  import Blocks
  import Cursors
  import Entries
  import Filters
  import TwoLevel

  lemma {:induction false} ConcatHas(blocks: seq<seq<Pair>>, x: Pair)
    ensures x in TwoLevel.Concat(blocks) <==> InTable(blocks, x)
  {
    if |blocks| > 0 {
      var n := |blocks| - 1;
      ConcatHas(blocks[..n], x);
      if x in blocks[n] {
        var j :| 0 <= j < |blocks[n]| && blocks[n][j] == x;
        assert InTable(blocks, x);
      }
      if InTable(blocks[..n], x) {
        var i, j :| 0 <= i < |blocks[..n]| && 0 <= j < |blocks[..n][i]| && blocks[..n][i][j] == x;
        assert blocks[i][j] == x;
      }
    }
  }

  lemma FlatOne(p: Pair)
    ensures TwoLevel.Concat<Pair>([]) == [] && TwoLevel.Concat([[p]]) == [p]
  {
    assert [[p]][..0] == [];
  }

  function PairsOfVersions(es: seq<Version>): (pairs: seq<Pair>)
    ensures |pairs| == |es|
  {
    seq(|es|, i requires 0 <= i < |es| => PairOf(es[i]))
  }

  // A table the pairs of es were added to holds just them.
  lemma BuiltRepresents(blocks: seq<seq<Pair>>, es: seq<Version>)
    requires TwoLevel.Concat(blocks) == PairsOfVersions(es) && Numbered(es)
    ensures Represents(blocks, Entries.SetOf(es))
  {
    hide PairOf, TwoLevel.Concat;
    forall v | v in Entries.SetOf(es) ensures InTable(blocks, PairOf(v)) {
      var i :| 0 <= i < |es| && es[i] == v;
      assert PairsOfVersions(es)[i] == PairOf(v);
      ConcatHas(blocks, PairOf(v));
    }
    forall x | InTable(blocks, x) ensures exists v :: v in Entries.SetOf(es) && PairOf(v) == x {
      ConcatHas(blocks, x);
      var i :| 0 <= i < |es| && PairsOfVersions(es)[i] == x;
      assert es[i] in Entries.SetOf(es);
    }
  }

  // While building, every block but the last has its index entry.
  ghost predicate Shape(c: Comparator<Bytes>, blocks: seq<seq<Pair>>, index: seq<Pair>) {
    && Chain(c, blocks) && Indexed(c, blocks, index)
    && |index| == if |blocks| == 0 then 0 else |blocks| - 1
  }

  lemma ShapeFirst(c: Comparator<Bytes>, p: Pair)
    requires |p.key| >= 8
    ensures Shape(c, [[p]], [])
  {
  }

  lemma ShapeNew(c: Comparator<Bytes>, blocks: seq<seq<Pair>>, index: seq<Pair>, p: Pair, entry: Pair)
    requires Shape(c, blocks, index) && |blocks| > 0 && |p.key| >= 8
    requires Less(c, Last(blocks[|blocks| - 1]), p.key) && IsIndexKey(c, Last(blocks[|blocks| - 1]), p.key, entry.key)
    ensures Shape(c, blocks + [[p]], index + [entry])
    ensures TwoLevel.Concat(blocks + [[p]]) == TwoLevel.Concat(blocks) + [p]
  {
    hide InternalCompare, IsIndexKey, Indexed;
    var more := blocks + [[p]];
    assert more[..|blocks|] == blocks;
    ChainNew(c, blocks, p);
    IndexedNew(c, blocks, index, p, entry);
  }

  lemma ChainNew(c: Comparator<Bytes>, blocks: seq<seq<Pair>>, p: Pair)
    requires Chain(c, blocks) && |blocks| > 0 && |p.key| >= 8 && Less(c, Last(blocks[|blocks| - 1]), p.key)
    ensures Chain(c, blocks + [[p]])
  {
    hide Less;
  }

  lemma IndexedNew(c: Comparator<Bytes>, blocks: seq<seq<Pair>>, index: seq<Pair>, p: Pair, entry: Pair)
    requires Shape(c, blocks, index) && |blocks| > 0 && Chain(c, blocks + [[p]])
    requires IsIndexKey(c, Last(blocks[|blocks| - 1]), p.key, entry.key)
    ensures Indexed(c, blocks + [[p]], index + [entry])
  {
    hide Less, IsIndexKey;
    var more := blocks + [[p]];
    forall i | 0 <= i < |index| ensures Closes(c, more, i, index[i].key) {
      assert Closes(c, blocks, i, index[i].key);
    }
  }

  lemma ShapeGrow(c: Comparator<Bytes>, blocks: seq<seq<Pair>>, index: seq<Pair>, p: Pair)
    requires TotalOrder(InternalOrder(c)) && Shape(c, blocks, index) && |blocks| > 0 && |p.key| >= 8
    requires Less(c, Last(blocks[|blocks| - 1]), p.key)
    ensures var n := |blocks| - 1; var more := blocks[..n] + [blocks[n] + [p]];
      Shape(c, more, index) && TwoLevel.Concat(more) == TwoLevel.Concat(blocks) + [p]
  {
    hide InternalCompare, IsIndexKey, Indexed;
    var n := |blocks| - 1;
    var last := blocks[n] + [p];
    var more := blocks[..n] + [last];
    forall j | 0 <= j < |blocks[n]| ensures Less(c, last[j].key, p.key) {
      InBlock(c, blocks[n], j);
      LessChain(c, last[j].key, Last(blocks[n]), p.key);
    }
    assert forall i, j :: 0 <= i < j < |blocks[n]| ==> Less(c, blocks[n][i].key, blocks[n][j].key);
    assert BlockOk(c, last);
    assert Chain(c, more);
    GrowIndexed(c, blocks, index, p);
    assert more[..n] == blocks[..n];
    assert TwoLevel.Concat(blocks[..n]) + last == TwoLevel.Concat(blocks[..n]) + blocks[n] + [p];
  }

  lemma GrowIndexed(c: Comparator<Bytes>, blocks: seq<seq<Pair>>, index: seq<Pair>, p: Pair)
    requires Chain(c, blocks) && Indexed(c, blocks, index) && |index| == |blocks| - 1
    requires var n := |blocks| - 1; Chain(c, blocks[..n] + [blocks[n] + [p]])
    ensures var n := |blocks| - 1; Indexed(c, blocks[..n] + [blocks[n] + [p]], index)
  {
    hide InternalCompare, IsIndexKey;
    var n := |blocks| - 1;
    var more := blocks[..n] + [blocks[n] + [p]];
    forall i | 0 <= i < |index| ensures Closes(c, more, i, index[i].key) {
      assert Closes(c, blocks, i, index[i].key);
    }
  }

  lemma ShapeClosed(c: Comparator<Bytes>, blocks: seq<seq<Pair>>, index: seq<Pair>, entry: Pair)
    requires Shape(c, blocks, index) && |blocks| > 0
    requires entry.key == Last(blocks[|blocks| - 1])
             || (|entry.key| >= 8 && Lt(c, UserKey(Last(blocks[|blocks| - 1])), UserKey(entry.key)))
    ensures Indexed(c, blocks, index + [entry])
  {
    hide InternalCompare, IsIndexKey;
    forall i | 0 <= i < |index| ensures Closes(c, blocks, i, (index + [entry])[i].key) {
      assert Closes(c, blocks, i, index[i].key);
    }
  }

  // The blocks written and the one being filled, when p joins it: the pending index entry, if
  // any, was added first.
  lemma AddedShape(c: Comparator<Bytes>, written: seq<seq<Pair>>, filling: seq<Pair>, index: seq<Pair>, p: Pair, index': seq<Pair>)
    requires TotalOrder(InternalOrder(c)) && |p.key| >= 8
    requires var blocks := written + if filling == [] then [] else [filling];
      && Shape(c, blocks, index)
      && (blocks != [] ==> Less(c, Last(blocks[|blocks| - 1]), p.key))
      && if blocks != [] && filling == [] then
           && |index'| == |index| + 1 && index <= index'
           && IsIndexKey(c, Last(blocks[|blocks| - 1]), p.key, index'[|index|].key)
         else index' == index
    ensures var blocks := written + if filling == [] then [] else [filling];
            var after := written + [filling + [p]];
            Shape(c, after, index') && TwoLevel.Concat(after) == TwoLevel.Concat(blocks) + [p]
  {
    hide Less, IsIndexKey, TwoLevel.Concat, Indexed, Closes;
    var blocks := written + if filling == [] then [] else [filling];
    assert filling == [] ==> filling + [p] == [p];
    if blocks == [] {
      ShapeFirst(c, p);
      FlatOne(p);
      assert written == [] && index' == [] && written + [filling + [p]] == [[p]];
    } else if filling == [] {
      assert index' == index + [index'[|index|]];
      ShapeNew(c, blocks, index, p, index'[|index|]);
      assert blocks + [[p]] == written + [filling + [p]];
    } else {
      ShapeGrow(c, blocks, index, p);
      assert blocks[..|blocks| - 1] == written;
    }
  }

  lemma PointsToNext(index: seq<Pair>, stored: seq<Stored>, entry: Pair)
    requires PointsTo(index, stored) && |index| < |stored| && entry.value == EncodeHandle(stored[|index|].handle)
    ensures PointsTo(index + [entry], stored)
  {
  }

  lemma RawKept(crc: Checksum, file: Bytes, more: Bytes, h: Handle, contents: Bytes)
    requires HoldsRaw(crc, file, h, contents) && file <= more
    ensures HoldsRaw(crc, more, h, contents)
  {
    hide RawBlock;
    assert more[h.offset..h.offset + h.size + TRAILER] == file[h.offset..h.offset + h.size + TRAILER];
  }

  lemma StoredKept(crc: Checksum, file: Bytes, more: Bytes, s: Stored)
    requires StoredOk(crc, file, s) && file <= more
    ensures StoredOk(crc, more, s)
  {
    hide HoldsRaw, Blocks.LaidOut;
    RawKept(crc, file, more, s.handle, s.contents);
  }

  lemma AllStoredKept(crc: Checksum, file: Bytes, more: Bytes, stored: seq<Stored>)
    requires file <= more && forall i :: 0 <= i < |stored| ==> StoredOk(crc, file, stored[i])
    ensures forall i :: 0 <= i < |stored| ==> StoredOk(crc, more, stored[i])
  {
    forall i | 0 <= i < |stored| ensures StoredOk(crc, more, stored[i]) {
      StoredKept(crc, file, more, stored[i]);
    }
  }

  // Every key went into the filter under its block's offset; `filling` will be at `offset`.
  ghost predicate Recorded(added: set<(nat, Bytes)>, stored: seq<Stored>, offset: nat, filling: seq<Pair>) {
    && (forall i, j :: 0 <= i < |stored| && 0 <= j < |stored[i].pairs| ==> (stored[i].handle.offset, stored[i].pairs[j].key) in added)
    && (forall j :: 0 <= j < |filling| ==> (offset, filling[j].key) in added)
  }

  lemma RecordedKey(added: set<(nat, Bytes)>, stored: seq<Stored>, offset: nat, filling: seq<Pair>, p: Pair)
    requires Recorded(added, stored, offset, filling)
    ensures Recorded(added + {(offset, p.key)}, stored, offset, filling + [p])
  {
  }

  lemma RecordedBlock(added: set<(nat, Bytes)>, stored: seq<Stored>, s: Stored, next: nat)
    requires Recorded(added, stored, s.handle.offset, s.pairs)
    ensures Recorded(added, stored + [s], next, [])
  {
  }

  // So the finished filter block holds.
  lemma RecordedHolds(b: Filters.FilterBlockBuilder, contents: Bytes, stored: seq<Stored>, offset: nat)
    requires Filters.Covered(b.added, b.groups, []) && Filters.StartsOf(b.policy, b.groups, b.filterOffsets)
    requires contents == Filters.FilterBlock(Filters.Joined(b.policy, b.groups), b.filterOffsets)
    requires Recorded(b.added, stored, offset, [])
    ensures |contents| < TWO_32 ==> FilterHolds(b.policy, contents, stored)
  {
    hide Filters.Covered, Filters.StartsOf, Filters.FilterBlock, Filters.Joined, Filters.KeyMayMatch, Filters.Denies;
    if |contents| < TWO_32 {
      Filters.NoFalseNegatives(b, contents);
      forall i, j, k | 0 <= i < |stored| && 0 <= j < |stored[i].pairs|
        ensures Filters.KeyMayMatch(b.policy, contents, stored[i].handle.offset, k) || Filters.Denies(b.policy, stored[i].pairs[j].key, k)
      {
        var a := (stored[i].handle.offset, stored[i].pairs[j].key);
        assert a in b.added && (Filters.KeyMayMatch(b.policy, contents, a.0, k) || Filters.Denies(b.policy, a.1, k));
      }
    }
  }

  class TableBuilder {
    const c: Comparator<Bytes>       // of user keys
    const shortening: Shortening
    const crc: Checksum
    const blockSize: nat
    const restartInterval: nat
    const filterBlock: Filters.FilterBlockBuilder?
    const dataBlock: Blocks.BlockBuilder
    const indexBlock: Blocks.BlockBuilder
    var file: Bytes
    var offset: nat
    var lastKey: Bytes
    var numEntries: nat
    var closed: bool
    var pendingIndexEntry: bool
    var pendingHandle: Handle
    // The data blocks written.
    ghost var stored: seq<Stored>

    constructor (c: Comparator<Bytes>, shortening: Shortening, crc: Checksum, blockSize: nat, restartInterval: nat,
                 policy: Option<Filters.FilterPolicy>)
      requires TotalOrder(c) && ShorteningOk(c, shortening) && restartInterval >= 1
      ensures Valid() && !closed && Contents() == [] && numEntries == 0
      ensures fresh(dataBlock) && fresh(indexBlock) && (filterBlock != null ==> fresh(filterBlock))
      ensures this.c == c && this.crc == crc && Policy() == policy && this.shortening == shortening
      ensures this.blockSize == blockSize && this.restartInterval == restartInterval
      ensures dataBlock.interval == restartInterval && indexBlock.interval == 1
    {
      this.c := c;
      this.shortening := shortening;
      this.crc := crc;
      this.blockSize := blockSize;
      this.restartInterval := restartInterval;
      var filters: Filters.FilterBlockBuilder? := null;
      if policy.Some? {
        filters := new Filters.FilterBlockBuilder(policy.value);
        filters.StartBlock(0);
      }
      this.filterBlock := filters;
      this.dataBlock := new Blocks.BlockBuilder(restartInterval);
      this.indexBlock := new Blocks.BlockBuilder(1);
      this.file := [];
      this.offset := 0;
      this.lastKey := [];
      this.numEntries := 0;
      this.closed := false;
      this.pendingIndexEntry := false;
      this.pendingHandle := Handle(0, 0);
      this.stored := [];
    }

    function Policy(): Option<Filters.FilterPolicy> {
      if filterBlock == null then None else Some(filterBlock.policy)
    }

    ghost predicate FilterOk()
      reads this, dataBlock, filterBlock
    {
      filterBlock != null ==>
        filterBlock.Valid() && filterBlock.current == offset && Recorded(filterBlock.added, stored, offset, dataBlock.pairs)
    }

    // The data blocks, with the one being filled.
    ghost function AllBlocks(): seq<seq<Pair>>
      reads this, dataBlock
    {
      PairsOf(stored) + if dataBlock.pairs == [] then [] else [dataBlock.pairs]
    }

    // Everything added.
    ghost function Contents(): seq<Pair>
      reads this, dataBlock
    {
      TwoLevel.Concat(AllBlocks())
    }

    ghost predicate FileOk()
      reads this
    {
      offset == |file| && forall i :: 0 <= i < |stored| ==> StoredOk(crc, file, stored[i])
    }

    ghost predicate Valid()
      reads this, dataBlock, indexBlock, filterBlock
    {
      && TotalOrder(c) && ShorteningOk(c, shortening) && restartInterval >= 1
      && dataBlock != indexBlock && dataBlock.Valid() && indexBlock.Valid()
      && FileOk()
      && (!closed ==> Open() && FilterOk())
    }

    ghost predicate Open()
      reads this, dataBlock, indexBlock
    {
      && !dataBlock.finished && !indexBlock.finished
      && Shape(c, AllBlocks(), indexBlock.pairs) && PointsTo(indexBlock.pairs, stored)
      && (numEntries == 0 <==> AllBlocks() == [])
      && (numEntries > 0 ==> lastKey == Last(AllBlocks()[|AllBlocks()| - 1]))
      && (pendingIndexEntry <==> |stored| > 0 && dataBlock.pairs == [])
      && (pendingIndexEntry ==> pendingHandle == stored[|stored| - 1].handle)
    }

    method WriteRawBlock(contents: Bytes) returns (handle: Handle)
      requires offset == |file|
      modifies this`file, this`offset
      ensures offset == |file| > old(offset) && old(file) <= file && HoldsRaw(crc, file, handle, contents)
      ensures handle == Handle(old(offset), |contents|)
    {
      hide RawBlock;
      handle := Handle(offset, |contents|);
      file := file + RawBlock(crc, contents);
      offset := offset + |contents| + TRAILER;
    }

    method WriteBlock(block: Blocks.BlockBuilder) returns (handle: Handle, ghost s: Stored)
      requires block.Valid() && !block.finished && offset == |file|
      modifies this`file, this`offset, block
      ensures block.Valid() && !block.finished && block.pairs == []
      ensures offset == |file| > old(offset) && old(file) <= file
      ensures StoredOk(crc, file, s) && s.handle == handle && s.pairs == old(block.pairs) && handle.offset == old(offset)
      ensures |s.contents| == old(block.CurrentSizeEstimate())
    {
      hide HoldsRaw, Blocks.LaidOut;
      var raw := block.Finish();
      ghost var pairs, starts := block.pairs, block.starts;
      handle := WriteRawBlock(raw);
      s := Stored(handle, raw, pairs, starts);
      block.Reset();
    }

    method Flush()
      requires Valid() && !closed
      modifies this`file, this`offset, this`pendingIndexEntry, this`pendingHandle, this`stored, dataBlock, filterBlock
      ensures Valid() && !closed && AllBlocks() == old(AllBlocks())
      ensures dataBlock.pairs == [] && AllBlocks() == PairsOf(stored)
      ensures old(dataBlock.pairs) == [] ==> stored == old(stored)
      ensures old(dataBlock.pairs) != [] ==>
                |stored| == |old(stored)| + 1 && old(stored) <= stored
                && |stored[|stored| - 1].contents| == old(dataBlock.CurrentSizeEstimate())
    {
      hide StoredOk, Shape, TotalOrder, ShorteningOk, EncodeHandle, Blocks.BlockBuilder.Valid;
      if dataBlock.Empty() {
        return;
      }
      ghost var s;
      ghost var was := file;
      pendingHandle, s := WriteBlock(dataBlock);
      AllStoredKept(crc, was, file, stored);
      stored := stored + [s];
      pendingIndexEntry := true;
      if filterBlock != null {
        filterBlock.StartBlock(offset);
        RecordedBlock(filterBlock.added, stored[..|stored| - 1], s, offset);
      }
      assert AllBlocks() == PairsOf(stored) == old(AllBlocks());
      assert dataBlock.Valid() && indexBlock.Valid() && FileOk();
      assert PointsTo(indexBlock.pairs, stored);
    }

    // The index entry for the last block written, now that the next key is known.
    method AddPendingEntry(key: Bytes)
      requires Valid() && !closed && pendingIndexEntry && |key| >= 8 && Less(c, lastKey, key)
      modifies this`lastKey, this`pendingIndexEntry, indexBlock
      ensures indexBlock.Valid() && !indexBlock.finished && !pendingIndexEntry
      ensures |indexBlock.pairs| == |old(indexBlock.pairs)| + 1 && old(indexBlock.pairs) <= indexBlock.pairs
      ensures PointsTo(indexBlock.pairs, stored)
      ensures IsIndexKey(c, old(lastKey), key, indexBlock.pairs[|indexBlock.pairs| - 1].key)
    {
      hide StoredOk, EncodeHandle, InternalCompare, IsIndexKey, ShorteningOk, TotalOrder, PointsTo, Indexed;
      ghost var index := indexBlock.pairs;
      assert BlockOk(c, AllBlocks()[|AllBlocks()| - 1]);
      lastKey := InternalKeys.FindShortestSeparator(c, shortening, lastKey, key);
      indexBlock.Add(lastKey, EncodeHandle(pendingHandle));
      pendingIndexEntry := false;
      PointsToNext(index, stored, Blocks.Pair(lastKey, EncodeHandle(pendingHandle)));
    }

    method Add(key: Bytes, value: Bytes)
      requires Valid() && !closed && |key| >= 8
      requires numEntries > 0 ==> Less(c, lastKey, key)
      modifies this, dataBlock, indexBlock, filterBlock
      ensures Valid() && !closed && Contents() == old(Contents()) + [Blocks.Pair(key, value)]
      ensures numEntries == old(numEntries) + 1 && lastKey == key
      ensures dataBlock.pairs == [] || dataBlock.CurrentSizeEstimate() < blockSize
      ensures stored == old(stored)
              || (|stored| == |old(stored)| + 1 && old(stored) <= stored && |stored[|stored| - 1].contents| >= blockSize)
    {
      hide Valid, TwoLevel.Concat, AllBlocks;
      AddToBlock(key, value);
      if dataBlock.CurrentSizeEstimate() >= blockSize {
        Flush();
      }
    }

    method AddToBlock(key: Bytes, value: Bytes)
      requires Valid() && !closed && |key| >= 8
      requires numEntries > 0 ==> Less(c, lastKey, key)
      modifies this`lastKey, this`numEntries, this`pendingIndexEntry, dataBlock, indexBlock, filterBlock
      ensures Valid() && !closed && Contents() == old(Contents()) + [Blocks.Pair(key, value)]
      ensures numEntries == old(numEntries) + 1 && lastKey == key
    {
      hide StoredOk, EncodeHandle, IsIndexKey, ShorteningOk, TotalOrder, Shape, TwoLevel.Concat, PointsTo, Less, Blocks.BlockBuilder.Valid;
      hide Recorded, Filters.FilterBlockBuilder.Valid;
      ghost var blocks, index, p := AllBlocks(), indexBlock.pairs, Blocks.Pair(key, value);
      ghost var written, filling := PairsOf(stored), dataBlock.pairs;
      InternalIsTotal(c);
      if pendingIndexEntry {
        AddPendingEntry(key);
      }
      AddedShape(c, written, filling, index, p, indexBlock.pairs);
      if filterBlock != null {
        RecordedKey(filterBlock.added, stored, offset, filling, p);
        filterBlock.AddKey(key);
      }
      lastKey := key;
      numEntries := numEntries + 1;
      dataBlock.Add(key, value);
      assert FileOk() && AllBlocks() == written + [filling + [p]];
    }

    // The filter block, if there is one, and the metaindex block.
    method WriteMeta() returns (metaindexHandle: Handle, ghost meta: Stored, ghost filterHandle: Handle, ghost contents: Bytes)
      requires offset == |file| && restartInterval >= 1
      requires filterBlock != null ==> filterBlock.Valid() && Recorded(filterBlock.added, stored, offset, [])
      modifies this`file, this`offset, filterBlock
      ensures offset == |file| && old(file) <= file
      ensures StoredOk(crc, file, meta) && meta.handle == metaindexHandle
      ensures filterBlock == null ==> meta.pairs == []
      ensures filterBlock != null ==>
                && meta.pairs == [Blocks.Pair(FilterKey(filterBlock.policy), EncodeHandle(filterHandle))]
                && HoldsRaw(crc, file, filterHandle, contents)
                && (|contents| < TWO_32 ==> FilterHolds(filterBlock.policy, contents, stored))
    {
      hide HoldsRaw, Recorded, StoredOk, EncodeHandle, FilterKey, FilterHolds, Filters.FilterBlock, Filters.Joined;
      hide Filters.StartsOf, Filters.Covered, Blocks.BlockBuilder.Valid, Filters.FilterBlockBuilder.Valid;
      var metaIndexBlock := new Blocks.BlockBuilder(restartInterval);
      filterHandle, contents := Handle(0, 0), [];
      if filterBlock != null {
        var filter := filterBlock.Finish();
        contents := filter;
        RecordedHolds(filterBlock, filter, stored, offset);
        var handle := WriteRawBlock(filter);
        filterHandle := handle;
        metaIndexBlock.Add(FilterKey(filterBlock.policy), EncodeHandle(handle));
      }
      ghost var was := file;
      metaindexHandle, meta := WriteBlock(metaIndexBlock);
      if filterBlock != null {
        RawKept(crc, was, file, filterHandle, contents);
      }
    }

    // The index block, with its last entry.
    method WriteIndex() returns (indexHandle: Handle, ghost index: Stored)
      requires TotalOrder(c) && ShorteningOk(c, shortening) && offset == |file| && dataBlock != indexBlock
      requires indexBlock.Valid() && dataBlock.pairs == [] && Open()
      modifies this`file, this`offset, this`lastKey, this`pendingIndexEntry, indexBlock
      ensures offset == |file| && old(file) <= file
      ensures StoredOk(crc, file, index) && index.handle == indexHandle
      ensures Chain(c, PairsOf(stored)) && Indexed(c, PairsOf(stored), index.pairs)
      ensures |index.pairs| == |stored| && PointsTo(index.pairs, stored)
    {
      hide StoredOk, EncodeHandle, IsIndexKey, ShorteningOk, TotalOrder, TwoLevel.Concat, PointsTo, Less, Blocks.BlockBuilder.Valid, Closes;
      ghost var blocks, entries := AllBlocks(), indexBlock.pairs;
      assert blocks == PairsOf(stored);
      if pendingIndexEntry {
        assert BlockOk(c, blocks[|blocks| - 1]);
        lastKey := InternalKeys.FindShortSuccessor(c, shortening, lastKey);
        indexBlock.Add(lastKey, EncodeHandle(pendingHandle));
        ghost var entry := Blocks.Pair(lastKey, EncodeHandle(pendingHandle));
        PointsToNext(entries, stored, entry);
        ShapeClosed(c, blocks, entries, entry);
        pendingIndexEntry := false;
      }
      indexHandle, index := WriteBlock(indexBlock);
    }

    // After Finish the file is a table of all that was added.
    method Finish() returns (ghost t: TableFile)
      requires Valid() && !closed
      modifies this, dataBlock, indexBlock, filterBlock
      ensures closed && IsTableFile(c, crc, file, Policy(), t)
      ensures TwoLevel.Concat(PairsOf(t.stored)) == old(Contents())
    {
      hide TwoLevel.Concat, StoredOk, Recorded, HoldsRaw, EncodeHandle, FilterHolds, EncodeFooter, DecodeFooter, Shape, PointsTo, Chain, Indexed;
      hide TotalOrder, ShorteningOk, Blocks.BlockBuilder.Valid, Filters.FilterBlockBuilder.Valid, FilterKey, Last;
      Flush();
      closed := true;
      ghost var data := file;
      var metaindexHandle, meta, filterHandle, contents := WriteMeta();
      ghost var withMeta := file;
      var indexHandle, index := WriteIndex();
      ghost var blocks := file;
      file := file + EncodeFooter(metaindexHandle, indexHandle);
      offset := offset + |EncodeFooter(metaindexHandle, indexHandle)|;
      AllStoredKept(crc, data, file, stored);
      StoredKept(crc, withMeta, file, meta);
      StoredKept(crc, blocks, file, index);
      if filterBlock != null {
        RawKept(crc, withMeta, file, filterHandle, contents);
      }
      t := TableFile(stored, meta, index, filterHandle, contents);
      FooterOf(crc, blocks, meta, index);
    }
  }

  lemma FooterOf(crc: Checksum, file: Bytes, meta: Stored, index: Stored)
    requires StoredOk(crc, file + EncodeFooter(meta.handle, index.handle), meta)
    requires StoredOk(crc, file + EncodeFooter(meta.handle, index.handle), index)
    ensures var all := file + EncodeFooter(meta.handle, index.handle);
      |all| < TWO_64 ==> DecodeFooter(all) == Some((meta.handle, index.handle))
  {
    hide EncodeFooter, DecodeFooter, RawBlock, Blocks.LaidOut;
    if |file + EncodeFooter(meta.handle, index.handle)| < TWO_64 {
      FooterInverts(file, meta.handle, index.handle);
    }
  }

  lemma NextFollows(c: Comparator<Bytes>, es: seq<Version>, i: nat)
    requires TotalOrder(c) && Entries.SortedEntries(c, es) && Numbered(es) && 0 < i < |es|
    ensures Less(c, Encode(es[i - 1]), Encode(es[i]))
  {
    hide InternalCompare, Encode;
    assert Entries.EntryLt(c, es[i - 1], es[i]);
    EncodeOrders(c, es[i - 1], es[i]);
  }

  lemma OneMorePair(es: seq<Version>, i: nat)
    requires i < |es|
    ensures PairsOfVersions(es[..i + 1]) == PairsOfVersions(es[..i]) + [Blocks.Pair(Encode(es[i]), es[i].value)]
  {
  }

  // Entries in order are never two of one user key and number.
  lemma SortedOneVersion(c: Comparator<Bytes>, es: seq<Version>)
    requires TotalOrder(c) && Entries.SortedEntries(c, es)
    ensures OneVersionPerNumber(Entries.SetOf(es))
  {
    forall v, w | v in Entries.SetOf(es) && w in Entries.SetOf(es) && v.key == w.key && v.seqno == w.seqno ensures v == w {
      var i: nat :| i < |es| && es[i] == v;
      var j: nat :| j < |es| && es[j] == w;
      Entries.VersionOrder(c, es, i, j);
      Entries.VersionOrder(c, es, j, i);
    }
  }

  // db/builder.cpp: a table of all that an iterator over sorted entries has; no file if it has
  // none.
  method BuildTable(c: Comparator<Bytes>, shortening: Shortening, crc: Checksum, blockSize: nat, restartInterval: nat,
                    policy: Option<Filters.FilterPolicy>, iter: Cursors.Cursor<Version>)
    returns (file: Option<Bytes>, smallest: Bytes, largest: Bytes, ghost t: TableFile)
    requires TotalOrder(c) && ShorteningOk(c, shortening) && restartInterval >= 1
    requires Entries.SortedEntries(c, iter.items) && Numbered(iter.items)
    modifies iter
    ensures file == None <==> iter.items == []
    ensures file.Some? ==>
              && IsTableFile(c, crc, file.value, policy, t)
              && Represents(PairsOf(t.stored), Entries.SetOf(iter.items)) && OneVersionPerNumber(Entries.SetOf(iter.items))
              && smallest == Encode(iter.items[0]) && largest == Encode(iter.items[|iter.items| - 1])
  {
    hide TableBuilder.Valid, Encode, TwoLevel.Concat, IsTableFile, Represents, ShorteningOk, TotalOrder, InternalCompare;
    hide Entries.SortedEntries, Numbered, OneVersionPerNumber;
    ghost var es := iter.items;
    iter.SeekToFirst();
    file, smallest, largest := None, [], [];
    t := TableFile([], Stored(Handle(0, 0), [], [], []), Stored(Handle(0, 0), [], [], []), Handle(0, 0), []);
    if iter.Valid() {
      var builder := new TableBuilder(c, shortening, crc, blockSize, restartInterval, policy);
      smallest := Encode(iter.Item());
      while iter.Valid()
        invariant iter.pos <= |es| && (iter.pos > 0 ==> largest == Encode(es[iter.pos - 1]))
        invariant builder.Valid() && !builder.closed && fresh(builder) && fresh(builder.dataBlock) && fresh(builder.indexBlock)
        invariant builder.filterBlock != null ==> fresh(builder.filterBlock)
        invariant builder.numEntries == iter.pos && (iter.pos > 0 ==> builder.lastKey == largest)
        invariant builder.Contents() == PairsOfVersions(es[..iter.pos])
        decreases |es| - iter.pos
      {
        var v := iter.Item();
        if iter.pos > 0 {
          NextFollows(c, es, iter.pos);
        }
        OneMorePair(es, iter.pos);
        largest := Encode(v);
        builder.Add(largest, v.value);
        iter.Next();
      }
      assert es[..|es|] == es;
      t := builder.Finish();
      BuiltRepresents(PairsOf(t.stored), es);
      SortedOneVersion(c, es);
      file := Some(builder.file);
    }
  }

  // A file below 4 GB has none of the offsets that overflow.
  lemma SmallInRange(c: Comparator<Bytes>, crc: Checksum, file: Bytes, policy: Option<Filters.FilterPolicy>, t: TableFile)
    returns (small: TableFile)
    requires IsTableFile(c, crc, file, policy, t) && |file| < TWO_32
    ensures IsTableFile(c, crc, file, policy, small) && FileInRange(file, small) && small.stored == t.stored
  {
    hide Chain, Indexed, PointsTo, FilterHolds, Blocks.LaidOut, DecodeFooter, EncodeHandle;
    small := if policy == None then t.(filterBlock := []) else t;
  }

  // A table written and then asked for a key: the answer is what the entries written read as,
  // whatever the block size, the restart interval and the filters of writer and reader.
  method BuildThenLookup(c: Comparator<Bytes>, shortening: Shortening, crc: Checksum, blockSize: nat, restartInterval: nat,
                         written: Option<Filters.FilterPolicy>, iter: Cursors.Cursor<Version>,
                         paranoid: bool, verify: bool, policy: Option<Filters.FilterPolicy>, u: Bytes, snap: nat,
                         ghost user: Filters.FilterPolicy)
    returns (file: Option<Bytes>, r: Saved)
    requires TotalOrder(c) && ShorteningOk(c, shortening) && restartInterval >= 1
    requires Entries.SortedEntries(c, iter.items) && Numbered(iter.items) && snap <= Entries.MAX_SEQUENCE
    requires SameName(policy, written) ==> policy == written
    requires policy.Some? ==> Filters.Sound(user) && policy.value == Filters.InternalPolicy(user)
    modifies iter
    ensures file == None <==> iter.items == []
    ensures file.Some? && |file.value| < TWO_32 ==>
              && (forall value :: r == Found(value) <==> Entries.Reads(Entries.SetOf(iter.items), u, snap, value))
              && (r == NotFound <==> forall v :: v in iter.items ==> !Entries.Candidate(v, u, snap))
  {
    hide IsTableFile, FileInRange, Represents, OneVersionPerNumber, Entries.SortedEntries, Entries.Reads, Entries.Candidate;
    hide Numbered, ShorteningOk, TotalOrder, Filters.Sound, Filters.InternalPolicy;
    var smallest, largest;
    ghost var t;
    file, smallest, largest, t := BuildTable(c, shortening, crc, blockSize, restartInterval, written, iter);
    r := NotFound;
    if file.Some? && |file.value| < TWO_32 {
      t := SmallInRange(c, crc, file.value, written, t);
      r := Lookup(c, crc, paranoid, verify, policy, file.value, u, snap, written, user, t, Entries.SetOf(iter.items));
    }
  }
}
