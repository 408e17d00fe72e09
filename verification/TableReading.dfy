// table/table.cpp: opening a table file, and the point lookup that reads one data block of it.
module TableReading {
  import opened Options
  import opened Coding
  import opened Ordering
  import opened ByteStrings
  import opened InternalKeys
  import opened Tables
  import Cursors
  import Entries
  import Blocks
  import BlockIterator
  import Filters

  // "filter."
  const FILTER_PREFIX: Bytes := [0x66, 0x69, 0x6c, 0x74, 0x65, 0x72, 0x2e]

  function FilterKey(policy: Filters.FilterPolicy): Bytes {
    FILTER_PREFIX + policy.name
  }

  // The filter block the metaindex names under this key, if there is one and it can be read.
  function FilterIn(crc: Checksum, verify: bool, file: Bytes, meta: seq<Pair>, key: Bytes): Option<Bytes> {
    if meta == [] then None
    else if meta[0].key != key then FilterIn(crc, verify, file, meta[1..], key)
    else
      match DecodeHandle(meta[0].value)
      case None => None
      case Some(h) => ReadBlock(crc, verify, file, h)
  }

  lemma {:induction false} FilterInAt(crc: Checksum, verify: bool, file: Bytes, meta: seq<Pair>, key: Bytes, q: nat)
    requires q <= |meta| && (q < |meta| ==> meta[q].key == key) && forall i :: 0 <= i < q ==> meta[i].key != key
    ensures FilterIn(crc, verify, file, meta, key)
         == if q == |meta| || DecodeHandle(meta[q].value) == None then None
            else ReadBlock(crc, verify, file, DecodeHandle(meta[q].value).value)
  {
    hide DecodeHandle, ReadBlock;
    if q > 0 {
      FilterInAt(crc, verify, file, meta[1..], key, q - 1);
    }
  }

  // Where Seek lands decides whether the key is there.
  lemma SoughtKey(meta: seq<Pair>, key: Bytes, q: nat)
    requires BlockIterator.SortedPairs(BYTEWISE, meta)
    requires Cursors.IsFirstNot(meta, BlockIterator.Below(BYTEWISE, key), q)
    ensures q <= |meta| && forall i :: 0 <= i < q ==> meta[i].key != key
    ensures q < |meta| && meta[q].key != key ==> forall i :: 0 <= i < |meta| ==> meta[i].key != key
  {
    BytewiseIsTotal();
    hide BytewiseCompare, BYTEWISE;
    forall i | 0 <= i < |meta| && meta[i].key == key ensures q <= i && (q < |meta| ==> meta[q].key == key) {
      assert Compare(BYTEWISE, key, key) == 0;
    }
  }

  // ---- Table files ----

  datatype TableFile = TableFile(stored: seq<Stored>, meta: Stored, index: Stored, filterHandle: Handle, filterBlock: Bytes)

  // The filter turns a key away from a block only if a filter that all the block's keys went
  // into does.
  ghost predicate FilterHolds(policy: Filters.FilterPolicy, contents: Bytes, stored: seq<Stored>) {
    forall i, j, k :: 0 <= i < |stored| && 0 <= j < |stored[i].pairs| ==>
      Filters.KeyMayMatch(policy, contents, stored[i].handle.offset, k) || Filters.Denies(policy, stored[i].pairs[j].key, k)
  }

  // A complete file: data blocks, filter block, metaindex, index and footer. The filter is as
  // good as its policy when its 32-bit offsets did not overflow.
  ghost predicate IsTableFile(c: Comparator<Bytes>, crc: Checksum, file: Bytes, policy: Option<Filters.FilterPolicy>, t: TableFile) {
    && IsTable(c, crc, file, t.stored, t.index)
    && StoredOk(crc, file, t.meta)
    && (|file| < TWO_64 ==> DecodeFooter(file) == Some((t.meta.handle, t.index.handle)))
    && match policy
       case None => t.meta.pairs == []
       case Some(p) =>
         && t.meta.pairs == [Blocks.Pair(FilterKey(p), EncodeHandle(t.filterHandle))]
         && HoldsRaw(crc, file, t.filterHandle, t.filterBlock)
         && (|t.filterBlock| < TWO_32 ==> FilterHolds(p, t.filterBlock, t.stored))
  }

  ghost predicate FileInRange(file: Bytes, t: TableFile) {
    InRange(file, t.stored, t.index) && |t.meta.contents| < TWO_32 && |t.filterBlock| < TWO_32
  }

  // If the metaindex can be read it is a block of these pairs.
  ghost predicate MetaReadable(crc: Checksum, verify: bool, file: Bytes, meta: Stored) {
    match DecodeFooter(file)
    case None => true
    case Some((h, _)) =>
      match ReadBlock(crc, verify, file, h)
      case None => true
      case Some(contents) => Blocks.IsBlock(contents, meta.pairs, meta.starts) && BlockIterator.SortedPairs(BYTEWISE, meta.pairs)
  }

  // What Open finds: the index block, or nothing if it or the footer cannot be read.
  function IndexOf(crc: Checksum, verify: bool, file: Bytes): Option<Bytes> {
    match DecodeFooter(file)
    case None => None
    case Some((_, h)) => ReadBlock(crc, verify, file, h)
  }

  // And the filter block, if the metaindex can be read and has one.
  function FilterFor(crc: Checksum, verify: bool, file: Bytes, policy: Option<Filters.FilterPolicy>, meta: seq<Pair>): Option<Bytes> {
    match (DecodeFooter(file), policy)
    case (Some((h, _)), Some(p)) =>
      if ReadBlock(crc, verify, file, h) == None then None else FilterIn(crc, verify, file, meta, FilterKey(p))
    case _ => None
  }

  // ---- Lookup ----

  method SeekBlock(c: Comparator<Bytes>, contents: Bytes, k: Bytes, ghost pairs: seq<Pair>, ghost starts: seq<nat>)
    returns (ok: bool, p: Pair, ghost q: nat)
    requires Blocks.IsBlock(contents, pairs, starts)
    requires TotalOrder(InternalOrder(c)) && BlockIterator.SortedPairs(InternalOrder(c), pairs)
    ensures Lands(c, pairs, k, q) && ok == (q < |pairs|) && (ok ==> p == pairs[q])
  {
    hide InternalCompare, Blocks.LaidOut, TotalOrder, BlockIterator.SortedPairs;
    var iter := new BlockIterator.Iter(InternalOrder(c), contents, pairs, starts);
    iter.Seek(k);
    q := iter.pos;
    ok := iter.IsValid();
    p := Blocks.Pair(iter.key, iter.value);
    forall i | 0 <= i < q ensures Less(c, pairs[i].key, k) {
      assert BlockIterator.Below(InternalOrder(c), k)(pairs[i]);
    }
  }

  // BlockReader, then Seek in the block.
  method ReadAndSeek(c: Comparator<Bytes>, crc: Checksum, verify: bool, file: Bytes, handle: Handle, k: Bytes, ghost s: Stored)
    returns (ok: bool, p: Pair, ghost q: nat)
    requires StoredOk(crc, file, s) && |s.contents| < TWO_32 && s.handle == handle
    requires TotalOrder(InternalOrder(c)) && BlockIterator.SortedPairs(InternalOrder(c), s.pairs)
    ensures Lands(c, s.pairs, k, q) && ok == (q < |s.pairs|) && (ok ==> p == s.pairs[q])
  {
    hide InternalCompare, ReadBlock, Blocks.LaidOut, BlockIterator.SortedPairs;
    ReadBlockInverts(crc, verify, file, handle, s.contents);
    var contents := ReadBlock(crc, verify, file, handle);
    ok, p, q := SeekBlock(c, contents.value, k, s.pairs, s.starts);
  }

  lemma LandsInside(c: Comparator<Bytes>, pairs: seq<Pair>, k: Bytes, b: nat)
    requires Lands(c, pairs, k, b)
    ensures b <= |pairs|
  {
  }

  lemma HandleDecodes(crc: Checksum, file: Bytes, s: Stored)
    requires StoredOk(crc, file, s) && |file| < TWO_64
    ensures DecodeHandle(EncodeHandle(s.handle)) == Some(s.handle)
  {
    Reencoded(s.handle);
  }

  lemma StoredSorted(c: Comparator<Bytes>, stored: seq<Stored>, b: nat)
    requires Chain(c, PairsOf(stored)) && b < |stored|
    ensures BlockIterator.SortedPairs(InternalOrder(c), stored[b].pairs)
  {
    hide InternalCompare;
    assert BlockOk(c, PairsOf(stored)[b]);
    BlockSorted(c, stored[b].pairs);
  }

  // The filter never denies a user key that a block holds.
  ghost predicate NoFalseNegatives(policy: Filters.FilterPolicy, contents: Bytes, stored: seq<Stored>, k: Bytes) {
    forall i, j :: 0 <= i < |stored| && 0 <= j < |stored[i].pairs| && UserKey(stored[i].pairs[j].key) == UserKey(k) ==>
      Filters.KeyMayMatch(policy, contents, stored[i].handle.offset, k)
  }

  lemma FilterNeverLies(policy: Filters.FilterPolicy, user: Filters.FilterPolicy, contents: Bytes, stored: seq<Stored>, k: Bytes)
    requires FilterHolds(policy, contents, stored)
    requires Filters.Sound(user) && policy == Filters.InternalPolicy(user)
    ensures NoFalseNegatives(policy, contents, stored, k)
  {
    hide Filters.KeyMayMatch, Filters.InternalPolicy, Filters.Sound;
    forall i, j | 0 <= i < |stored| && 0 <= j < |stored[i].pairs| && UserKey(stored[i].pairs[j].key) == UserKey(k)
      ensures Filters.KeyMayMatch(policy, contents, stored[i].handle.offset, k)
    {
      Filters.VersionsNotDenied(user, stored[i].pairs[j].key, k);
    }
  }

  // The reader's policy goes by the name of the writer's.
  predicate SameName(reader: Option<Filters.FilterPolicy>, written: Option<Filters.FilterPolicy>) {
    reader.Some? && written.Some? && reader.value.name == written.value.name
  }

  lemma FilterKeysDiffer(a: Filters.FilterPolicy, b: Filters.FilterPolicy)
    ensures FilterKey(a) == FilterKey(b) <==> a.name == b.name
  {
    var n := |FILTER_PREFIX|;
    assert FilterKey(a)[n..] == a.name && FilterKey(b)[n..] == b.name;
  }

  // A filter block goes by "filter." and the name of its policy.
  lemma FilterKeyText(policy: Filters.FilterPolicy)
    ensures var text := "filter."; var key := FilterKey(policy);
      && |key| == |text| + |policy.name| && key[|text|..] == policy.name
      && forall i :: 0 <= i < |text| ==> key[i] == text[i] as int
  {
    var text := "filter.";
    assert text[0] as int == 0x66 && text[1] as int == 0x69 && text[2] as int == 0x6c && text[3] as int == 0x74;
    assert text[4] as int == 0x65 && text[5] as int == 0x72 && text[6] as int == 0x2e;
  }

  // A complete file is opened to its own index, and to its own filter if the reader's policy has
  // the name of the writer's; under another name no filter is found.
  lemma OpensWhatWasWritten(c: Comparator<Bytes>, crc: Checksum, verify: bool, file: Bytes, written: Option<Filters.FilterPolicy>,
                            reader: Option<Filters.FilterPolicy>, t: TableFile)
    requires IsTableFile(c, crc, file, written, t) && FileInRange(file, t)
    ensures MetaReadable(crc, verify, file, t.meta)
    ensures IndexOf(crc, verify, file) == Some(t.index.contents)
    ensures FilterFor(crc, verify, file, reader, t.meta.pairs) == if SameName(reader, written) then Some(t.filterBlock) else None
  {
    hide DecodeFooter, EncodeHandle, DecodeHandle, ReadBlock, HoldsRaw, FilterHolds, Blocks.LaidOut, FilterKey, Chain, Indexed, PointsTo, TotalOrder;
    ReadBlockInverts(crc, verify, file, t.meta.handle, t.meta.contents);
    ReadBlockInverts(crc, verify, file, t.index.handle, t.index.contents);
    if reader.Some? && written.Some? {
      FilterKeysDiffer(reader.value, written.value);
      ReadBlockInverts(crc, verify, file, t.filterHandle, t.filterBlock);
      HandleBounds(crc, file, t.filterHandle, t.filterBlock);
      Reencoded(t.filterHandle);
      FilterInAt(crc, verify, file, t.meta.pairs, FilterKey(reader.value), if SameName(reader, written) then 0 else 1);
    }
  }

  lemma Reencoded(h: Handle)
    requires h.offset < TWO_64 && h.size < TWO_64
    ensures DecodeHandle(EncodeHandle(h)) == Some(h)
  {
    HandleRoundTrip(h, []);
    assert EncodeHandle(h) + [] == EncodeHandle(h);
  }

  lemma HandleBounds(crc: Checksum, file: Bytes, h: Handle, contents: Bytes)
    requires HoldsRaw(crc, file, h, contents) && |file| < TWO_64
    ensures h.offset < TWO_64 && h.size < TWO_64
  {
  }

  class Table {
    const c: Comparator<Bytes>       // of user keys
    const crc: Checksum
    const paranoid: bool
    const policy: Option<Filters.FilterPolicy>
    const file: Bytes
    const indexBlock: Bytes
    var filter: Filters.FilterBlockReader?

    constructor (c: Comparator<Bytes>, crc: Checksum, paranoid: bool, policy: Option<Filters.FilterPolicy>, file: Bytes, indexBlock: Bytes)
      ensures this.c == c && this.crc == crc && this.paranoid == paranoid && this.policy == policy
      ensures this.file == file && this.indexBlock == indexBlock && filter == null
    {
      this.c, this.crc, this.paranoid, this.policy := c, crc, paranoid, policy;
      this.file, this.indexBlock, this.filter := file, indexBlock, null;
    }

    // The reader is over these bytes.
    ghost predicate FilterIs(contents: Option<Bytes>)
      reads this
    {
      match contents
      case None => filter == null
      case Some(s) => filter != null && filter.Valid() && filter.data == s && policy == Some(filter.policy)
    }

    static method Open(c: Comparator<Bytes>, crc: Checksum, paranoid: bool, policy: Option<Filters.FilterPolicy>, file: Bytes, ghost meta: Stored)
      returns (table: Table?)
      requires MetaReadable(crc, paranoid, file, meta)
      ensures table == null <==> IndexOf(crc, paranoid, file) == None
      ensures table != null ==>
                && fresh(table) && table.c == c && table.crc == crc && table.file == file && table.policy == policy
                && IndexOf(crc, paranoid, file) == Some(table.indexBlock)
                && table.FilterIs(FilterFor(crc, paranoid, file, policy, meta.pairs))
    {
      hide DecodeFooter, ReadBlock, FilterIn, Blocks.IsBlock, BlockIterator.SortedPairs;
      var footer := DecodeFooter(file);
      if footer == None {
        return null;
      }
      var contents := ReadBlock(crc, paranoid, file, footer.value.1);
      if contents == None {
        return null;
      }
      table := new Table(c, crc, paranoid, policy, file, contents.value);
      table.ReadMeta(footer.value.0, meta);
    }

    method ReadMeta(metaindexHandle: Handle, ghost meta: Stored)
      requires filter == null
      requires match ReadBlock(crc, paranoid, file, metaindexHandle)
               case None => true
               case Some(contents) => Blocks.IsBlock(contents, meta.pairs, meta.starts) && BlockIterator.SortedPairs(BYTEWISE, meta.pairs)
      modifies this
      ensures FilterIs(if policy == None || ReadBlock(crc, paranoid, file, metaindexHandle) == None then None
                       else FilterIn(crc, paranoid, file, meta.pairs, FilterKey(policy.value)))
    {
      hide ReadBlock, FilterIn, Blocks.IsBlock, BlockIterator.SortedPairs, DecodeHandle, BYTEWISE, FilterKey;
      if policy == None {
        return;
      }
      var contents := ReadBlock(crc, paranoid, file, metaindexHandle);
      if contents == None {
        return;
      }
      var iter := new BlockIterator.Iter(BYTEWISE, contents.value, meta.pairs, meta.starts);
      var key := FilterKey(policy.value);
      BytewiseIsTotal();
      iter.Seek(key);
      ghost var q := iter.pos;
      SoughtKey(meta.pairs, key, q);
      FilterInAt(crc, paranoid, file, meta.pairs, key, if q < |meta.pairs| && meta.pairs[q].key == key then q else |meta.pairs|);
      if iter.IsValid() && iter.key == key {
        ReadFilter(iter.value);
      }
    }

    method ReadFilter(filterHandleValue: Bytes)
      requires filter == null && policy.Some?
      modifies this
      ensures FilterIs(match DecodeHandle(filterHandleValue)
                       case None => None
                       case Some(h) => ReadBlock(crc, paranoid, file, h))
    {
      hide ReadBlock, DecodeHandle;
      var handle := DecodeHandle(filterHandleValue);
      if handle == None {
        return;
      }
      var block := ReadBlock(crc, paranoid, file, handle.value);
      if block == None {
        return;
      }
      filter := new Filters.FilterBlockReader(policy.value, block.value);
    }

    // The index leads to one data block, and only that block is searched; the filter may say
    // that it need not be.
    method InternalGet(verify: bool, k: Bytes, ghost t: TableFile) returns (r: Option<Pair>)
      requires TotalOrder(c) && |k| >= 8
      requires IsTable(c, crc, file, t.stored, t.index) && InRange(file, t.stored, t.index) && indexBlock == t.index.contents
      requires filter != null ==> filter.Valid() && NoFalseNegatives(filter.policy, filter.data, t.stored, k)
      ensures Answers(c, PairsOf(t.stored), k, r)
    {
      hide InternalCompare, Indexed, Chain, Answers, StoredOk, DecodeHandle, EncodeHandle, Lands, Blocks.LaidOut, Filters.KeyMayMatch;
      InternalIsTotal(c);
      ghost var blocks, index := PairsOf(t.stored), t.index.pairs;
      IndexSorted(c, blocks, index);
      IndexIsBlock(c, crc, file, t);
      var ok, entry, b := SeekBlock(c, indexBlock, k, index, t.index.starts);
      assert b <= |index| by { LandsInside(c, index, k, b); }
      if !ok {
        OneBlockSuffices(c, blocks, index, k, b, 0);
        return None;
      }
      ghost var s := t.stored[b];
      assert StoredOk(crc, file, s) && entry.value == EncodeHandle(s.handle);
      HandleDecodes(crc, file, s);
      var handle := DecodeHandle(entry.value).value;
      if filter != null {
        var mayMatch := filter.MayMatch(handle.offset, k);
        if !mayMatch {
          FilterSuffices(c, blocks, index, k, b);
          return None;
        }
      }
      StoredSorted(c, t.stored, b);
      var found, p, q := ReadAndSeek(c, crc, verify, file, handle, k, s);
      OneBlockSuffices(c, blocks, index, k, b, q);
      r := if found then Some(p) else None;
      assert q <= |s.pairs| by { LandsInside(c, s.pairs, k, q); }
    }
  }

  lemma IndexIsBlock(c: Comparator<Bytes>, crc: Checksum, file: Bytes, t: TableFile)
    requires IsTable(c, crc, file, t.stored, t.index) && InRange(file, t.stored, t.index)
    ensures Blocks.IsBlock(t.index.contents, t.index.pairs, t.index.starts)
  {
  }

  // TableCache::Get with SaveValue: a complete file is opened, and a user key of it looked up at
  // a snapshot. The answer is what the versions in the file read as.
  method Lookup(c: Comparator<Bytes>, crc: Checksum, paranoid: bool, verify: bool, policy: Option<Filters.FilterPolicy>, file: Bytes,
                u: Bytes, snap: nat, ghost written: Option<Filters.FilterPolicy>, ghost user: Filters.FilterPolicy,
                ghost t: TableFile, ghost es: set<Version>)
    returns (r: Saved)
    requires TotalOrder(c) && IsTableFile(c, crc, file, written, t) && FileInRange(file, t) && snap <= Entries.MAX_SEQUENCE
    requires SameName(policy, written) ==> policy == written
    requires policy.Some? ==> Filters.Sound(user) && policy.value == Filters.InternalPolicy(user)
    requires Represents(PairsOf(t.stored), es) && OneVersionPerNumber(es)
    ensures forall value :: r == Found(value) <==> Entries.Reads(es, u, snap, value)
    ensures r == NotFound <==> forall v :: v in es ==> !Entries.Candidate(v, u, snap)
  {
    hide IndexOf, FilterFor, MetaReadable, Answers, Represents, OneVersionPerNumber, Entries.Reads, Entries.Candidate;
    hide LookupKey, Filters.KeyMayMatch, Filters.InternalPolicy, Filters.Sound, InternalCompare, TotalOrder;
    hide NoFalseNegatives, IsTable, StoredOk, DecodeFooter, HoldsRaw, FilterKey, EncodeHandle, FilterHolds;
    OpensWhatWasWritten(c, crc, paranoid, file, written, policy, t);
    var table := Table.Open(c, crc, paranoid, policy, file, t.meta);
    var k := LookupKey(u, snap);
    if SameName(policy, written) {
      FilterNeverLies(policy.value, user, t.filterBlock, t.stored, k);
    }
    var p := table.InternalGet(verify, k, t);
    SavedIsRead(c, PairsOf(t.stored), es, u, snap, p);
    r := SaveValue(c, u, p);
  }
}
