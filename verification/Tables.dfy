// table/table_builder.cpp, table/table.cpp and table/format.cpp: tables of blocks with an index
// of shortened keys, and the point lookup that reads one data block.
module Tables {
  import opened Options
  import opened Coding
  import opened Ordering
  import opened ByteStrings
  import opened InternalKeys
  import Entries
  import Blocks
  import BlockIterator

  type Pair = Blocks.Pair

  const TRAILER: nat := 5
  const NO_COMPRESSION: byte := 0

  datatype Handle = Handle(offset: nat, size: nat)

  function EncodeHandle(h: Handle): Bytes {
    Varint(h.offset) + Varint(h.size)
  }

  // BlockHandle::DecodeFrom: the handle and what follows it.
  function TakeHandle(s: Bytes): Option<(Handle, Bytes)> {
    match GetVarint64(s)
    case None => None
    case Some((offset, rest)) =>
      match GetVarint64(rest)
      case None => None
      case Some((size, after)) => Some((Handle(offset, size), after))
  }

  lemma HandleRoundTrip(h: Handle, rest: Bytes)
    requires h.offset < TWO_64 && h.size < TWO_64
    ensures TakeHandle(EncodeHandle(h) + rest) == Some((h, rest))
  {
    hide GetVarint64, Varint;
    assert EncodeHandle(h) + rest == Varint(h.offset) + (Varint(h.size) + rest);
    Varint64RoundTrip(h.offset, Varint(h.size) + rest);
    Varint64RoundTrip(h.size, rest);
  }

  // The handle in an index value; bytes after it are allowed.
  function DecodeHandle(s: Bytes): Option<Handle> {
    match TakeHandle(s)
    case None => None
    case Some((h, _)) => Some(h)
  }

  // ---- The footer ----

  const MAX_HANDLES: nat := 40
  const FOOTER: nat := 48
  const MAGIC_LOW: nat := 0x8b80_fb57
  const MAGIC_HIGH: nat := 0xdb47_7524

  function Resize(s: Bytes, n: nat): (r: Bytes)
    ensures |r| == n
  {
    if |s| >= n then s[..n] else s + Zeros(n - |s|)
  }

  // Footer::EncodeTo.
  function EncodeFooter(meta: Handle, index: Handle): (s: Bytes)
    ensures |s| == FOOTER
  {
    Resize(EncodeHandle(meta) + EncodeHandle(index), MAX_HANDLES) + Fixed(MAGIC_LOW, 4) + Fixed(MAGIC_HIGH, 4)
  }

  // The metaindex and index handles a file ends with, as Table::Open reads them: None when the
  // file is too short, the magic number is wrong, or a handle is bad.
  function DecodeFooter(file: Bytes): Option<(Handle, Handle)> {
    if |file| < FOOTER then None
    else
      var input := file[|file| - FOOTER..];
      if DecodeFixed(input[MAX_HANDLES..MAX_HANDLES + 4]) != MAGIC_LOW || DecodeFixed(input[MAX_HANDLES + 4..]) != MAGIC_HIGH then None
      else
        match TakeHandle(input)
        case None => None
        case Some((meta, rest)) =>
          match TakeHandle(rest)
          case None => None
          case Some((index, _)) => Some((meta, index))
  }

  lemma HandlesFit(h: Handle)
    requires h.offset < TWO_64 && h.size < TWO_64
    ensures |EncodeHandle(h)| <= 20
  {
    assert Pow128(5) == 128 * 128 * 128 * 128 * 128 * Pow128(0);
    assert Pow128(10) == 128 * 128 * 128 * 128 * 128 * Pow128(5);
    VarintFits(h.offset, 10);
    VarintFits(h.size, 10);
  }

  lemma FooterInverts(file: Bytes, meta: Handle, index: Handle)
    requires meta.offset < TWO_64 && meta.size < TWO_64 && index.offset < TWO_64 && index.size < TWO_64
    ensures DecodeFooter(file + EncodeFooter(meta, index)) == Some((meta, index))
  {
    hide TakeHandle, EncodeHandle, Fixed, DecodeFixed;
    var s, f := file + EncodeFooter(meta, index), EncodeFooter(meta, index);
    HandlesFit(meta);
    HandlesFit(index);
    assert s[|s| - FOOTER..] == f;
    assert f[MAX_HANDLES..MAX_HANDLES + 4] == Fixed(MAGIC_LOW, 4) && f[MAX_HANDLES + 4..] == Fixed(MAGIC_HIGH, 4);
    Fixed32RoundTrip(MAGIC_LOW);
    Fixed32RoundTrip(MAGIC_HIGH);
    var pad := Zeros(MAX_HANDLES - |EncodeHandle(meta) + EncodeHandle(index)|) + Fixed(MAGIC_LOW, 4) + Fixed(MAGIC_HIGH, 4);
    assert f == EncodeHandle(meta) + (EncodeHandle(index) + pad);
    HandleRoundTrip(meta, EncodeHandle(index) + pad);
    HandleRoundTrip(index, pad);
  }

  // ---- Blocks in a file ----

  function RawBlock(crc: Checksum, contents: Bytes): (s: Bytes)
    ensures |s| == |contents| + TRAILER
  {
    contents + [NO_COMPRESSION] + Fixed(Mask(Crc(crc, contents + [NO_COMPRESSION])), 4)
  }

  // A block read: None if it is cut short, or its checksum or type is wrong.
  function ReadBlock(crc: Checksum, verify: bool, file: Bytes, h: Handle): Option<Bytes> {
    if h.offset + h.size + TRAILER > |file| then None
    else
      var data := file[h.offset..h.offset + h.size + TRAILER];
      var n := h.size;
      if verify && Crc(crc, data[..n + 1]) != Unmask(DecodeFixed(data[n + 1..])) then None
      else if data[n] != NO_COMPRESSION then None
      else Some(data[..n])
  }

  ghost predicate HoldsRaw(crc: Checksum, file: Bytes, h: Handle, contents: Bytes) {
    && h.size == |contents| && h.offset + h.size + TRAILER <= |file|
    && file[h.offset..h.offset + h.size + TRAILER] == RawBlock(crc, contents)
  }

  lemma ReadBlockInverts(crc: Checksum, verify: bool, file: Bytes, h: Handle, contents: Bytes)
    requires HoldsRaw(crc, file, h, contents)
    ensures ReadBlock(crc, verify, file, h) == Some(contents)
  {
    var data := RawBlock(crc, contents);
    var n := |contents|;
    var sum := Crc(crc, contents + [NO_COMPRESSION]);
    assert data[..n] == contents && data[..n + 1] == contents + [NO_COMPRESSION] && data[n] == NO_COMPRESSION;
    assert data[n + 1..] == Fixed(Mask(sum), 4);
    Fixed32RoundTrip(Mask(sum));
    MaskRoundTrip(sum);
  }

  // ---- The shape of a table ----

  // With verification a block is read if and only if the bytes there are those of a raw block of
  // these contents; without, the type and the contents will do.
  lemma ReadBlockExactly(crc: Checksum, file: Bytes, h: Handle, contents: Bytes)
    ensures ReadBlock(crc, true, file, h) == Some(contents) <==> HoldsRaw(crc, file, h, contents)
    ensures ReadBlock(crc, false, file, h) == Some(contents)
       <==> && h.size == |contents| && h.offset + h.size + 5 <= |file|
            && file[h.offset..h.offset + h.size] == contents && file[h.offset + h.size] == 0
    ensures RawBlock(crc, contents) == contents + [0] + Fixed(Mask(Crc(crc, contents + [0])), 4)
  {
    hide Crc, Unmask, DecodeFixed, Mask, Fixed;
    if h.offset + h.size + TRAILER <= |file| {
      var data, n := file[h.offset..h.offset + h.size + TRAILER], h.size;
      assert file[h.offset..h.offset + h.size] == data[..n] && data[n] == file[h.offset + h.size];
      assert data == data[..n] + [data[n]] + data[n + 1..] && data[..n + 1] == data[..n] + [data[n]];
      ChecksumMatches(Crc(crc, data[..n + 1]), data[n + 1..]);
      if |contents| == n {
        SameRaw(contents, data[..n], Fixed(Mask(Crc(crc, contents + [NO_COMPRESSION])), 4), data[n], data[n + 1..]);
      }
    }
  }

  lemma SameRaw(a: Bytes, b: Bytes, sum: Bytes, kind: byte, stored: Bytes)
    requires |a| == |b|
    ensures a + [NO_COMPRESSION] + sum == b + [kind] + stored <==> a == b && kind == NO_COMPRESSION && sum == stored
  {
    var x, y, n := a + [NO_COMPRESSION] + sum, b + [kind] + stored, |a|;
    assert x[..n] == a && y[..n] == b && x[n] == NO_COMPRESSION && y[n] == kind && x[n + 1..] == sum && y[n + 1..] == stored;
  }

  // A file that is opened ends in the magic number, byte by byte; and so does every footer written.
  lemma FooterMagic(file: Bytes, meta: Handle, index: Handle)
    ensures var magic := [0x57, 0xfb, 0x80, 0x8b, 0x24, 0x75, 0x47, 0xdb];
      && (DecodeFooter(file).Some? ==> |file| >= 48 && file[|file| - 8..] == magic)
      && EncodeFooter(meta, index)[40..] == magic
  {
    MagicBytes();
    hide TakeHandle, EncodeHandle;
    if DecodeFooter(file).Some? {
      var input := file[|file| - FOOTER..];
      var low, high := input[MAX_HANDLES..MAX_HANDLES + 4], input[MAX_HANDLES + 4..];
      FixedOfDecoded(low);
      FixedOfDecoded(high);
      assert file[|file| - 8..] == low + high;
    }
  }

  lemma MagicBytes()
    ensures Fixed(MAGIC_LOW, 4) == [0x57, 0xfb, 0x80, 0x8b] && Fixed(MAGIC_HIGH, 4) == [0x24, 0x75, 0x47, 0xdb]
  {
    FourBytes(MAGIC_LOW);
    FourBytes(MAGIC_HIGH);
  }

  lemma FourBytes(v: nat)
    ensures Fixed(v, 4) == [v % 256, v / 256 % 256, v / 256 / 256 % 256, v / 256 / 256 / 256 % 256]
  {
    assert Fixed(v / 256 / 256 / 256 / 256, 0) == [];
    assert Fixed(v / 256 / 256 / 256, 1) == [v / 256 / 256 / 256 % 256];
    assert Fixed(v / 256 / 256, 2) == [v / 256 / 256 % 256, v / 256 / 256 / 256 % 256];
  }

  function First(block: seq<Pair>): Bytes
    requires block != []
  {
    block[0].key
  }

  function Last(block: seq<Pair>): Bytes
    requires block != []
  {
    block[|block| - 1].key
  }

  predicate Less(c: Comparator<Bytes>, a: Bytes, b: Bytes) {
    Lt(InternalOrder(c), a, b)
  }

  // One data block: internal keys in ascending order, at least one.
  ghost predicate BlockOk(c: Comparator<Bytes>, block: seq<Pair>) {
    && block != []
    && (forall i :: 0 <= i < |block| ==> |block[i].key| >= 8)
    && (forall i, j :: 0 <= i < j < |block| ==> Less(c, block[i].key, block[j].key))
  }

  ghost predicate Chain(c: Comparator<Bytes>, blocks: seq<seq<Pair>>) {
    && (forall i :: 0 <= i < |blocks| ==> BlockOk(c, blocks[i]))
    && (forall i :: 0 < i < |blocks| ==> Less(c, Last(blocks[i - 1]), First(blocks[i])))
  }

  // key closes block i: it separates it from the next one, or follows the last one.
  ghost predicate Closes(c: Comparator<Bytes>, blocks: seq<seq<Pair>>, i: nat, key: Bytes)
    requires i < |blocks| && forall j :: 0 <= j < |blocks| ==> blocks[j] != []
  {
    if i + 1 < |blocks| then IsIndexKey(c, Last(blocks[i]), First(blocks[i + 1]), key)
    else key == Last(blocks[i]) || (|key| >= 8 && Lt(c, UserKey(Last(blocks[i])), UserKey(key)))
  }

  // The index keys of the first |index| blocks.
  ghost predicate Indexed(c: Comparator<Bytes>, blocks: seq<seq<Pair>>, index: seq<Pair>)
    requires Chain(c, blocks)
  {
    && |index| <= |blocks|
    && forall i :: 0 <= i < |index| ==> Closes(c, blocks, i, index[i].key)
  }

  ghost predicate InTable(blocks: seq<seq<Pair>>, x: Pair) {
    exists i, j :: 0 <= i < |blocks| && 0 <= j < |blocks[i]| && blocks[i][j] == x
  }

  // What a lookup of k may answer: the least pair not below k; or nothing, when no pair at or
  // after k has k's user key.
  ghost predicate Answers(c: Comparator<Bytes>, blocks: seq<seq<Pair>>, k: Bytes, r: Option<Pair>) {
    match r
    case Some(x) => InTable(blocks, x) && !Less(c, x.key, k)
                    && forall y :: InTable(blocks, y) && !Less(c, y.key, k) ==> !Less(c, y.key, x.key)
    case None => forall y :: InTable(blocks, y) && !Less(c, y.key, k) ==> UserKey(y.key) != UserKey(k)
  }

  lemma InBlock(c: Comparator<Bytes>, block: seq<Pair>, j: nat)
    requires TotalOrder(InternalOrder(c)) && BlockOk(c, block) && j < |block|
    ensures !Less(c, block[j].key, First(block)) && !Less(c, Last(block), block[j].key)
  {
    hide InternalCompare;
    var o := InternalOrder(c);
    assert j > 0 ==> Less(c, First(block), block[j].key);
    assert j < |block| - 1 ==> Less(c, block[j].key, Last(block));
    assert Compare(o, block[j].key, block[j].key) == 0;
    assert Compare(o, block[j].key, First(block)) < 0 <==> Compare(o, First(block), block[j].key) > 0;
    assert Compare(o, block[j].key, Last(block)) < 0 <==> Compare(o, Last(block), block[j].key) > 0;
  }

  lemma {:induction false} BlocksAscend(c: Comparator<Bytes>, blocks: seq<seq<Pair>>, i: nat, j: nat)
    requires TotalOrder(InternalOrder(c)) && Chain(c, blocks) && i < j < |blocks|
    ensures Less(c, Last(blocks[i]), First(blocks[j]))
    ensures i + 1 < j ==> Less(c, First(blocks[i + 1]), First(blocks[j]))
    decreases j
  {
    hide InternalCompare;
    if i + 1 < j {
      BlocksAscend(c, blocks, i, j - 1);
      InBlock(c, blocks[j - 1], |blocks[j - 1]| - 1);
      var o := InternalOrder(c);
      var last := Last(blocks[j - 1]);
      assert Less(c, last, First(blocks[j]));
      assert Compare(o, First(blocks[j - 1]), last) == 0 <==> First(blocks[j - 1]) == last;
      assert Compare(o, First(blocks[j - 1]), last) > 0 <==> Compare(o, last, First(blocks[j - 1])) < 0;
    }
  }

  // What closing a block means for every key k against it and the next block.
  lemma ClosingBounds(c: Comparator<Bytes>, blocks: seq<seq<Pair>>, i: nat, key: Bytes, k: Bytes)
    requires TotalOrder(c) && Chain(c, blocks) && i < |blocks| && Closes(c, blocks, i, key) && |k| >= 8
    ensures !Less(c, key, Last(blocks[i]))
    ensures i + 1 < |blocks| ==> Less(c, key, First(blocks[i + 1]))
    ensures i + 1 < |blocks| && Less(c, Last(blocks[i]), k) && !Less(c, key, k) ==>
              Lt(c, UserKey(k), UserKey(First(blocks[i + 1])))
  {
    InternalAntisymmetric(c, key, Last(blocks[i]));
    InternalAntisymmetric(c, key, k);
    assert |blocks[i][|blocks[i]| - 1].key| >= 8;
    if i + 1 < |blocks| {
      assert |blocks[i + 1][0].key| >= 8;
      assert Less(c, Last(blocks[i]), First(blocks[i + 1]));
      IndexKeySeparates(c, Last(blocks[i]), First(blocks[i + 1]), key, k);
    }
  }

  lemma UserKeysFollow(c: Comparator<Bytes>, u: Bytes, a: Bytes, b: Bytes)
    requires TotalOrder(c) && |a| >= 8 && |b| >= 8 && Lt(c, u, UserKey(a)) && !Less(c, b, a)
    ensures Lt(c, u, UserKey(b))
  {
    InternalAntisymmetric(c, a, b);
    assert Compare(c, UserKey(a), UserKey(b)) < 0 <==> Compare(c, UserKey(b), UserKey(a)) > 0;
    assert Compare(c, UserKey(b), UserKey(a)) < 0 <==> Compare(c, UserKey(a), UserKey(b)) > 0;
    assert Compare(c, UserKey(a), UserKey(b)) == 0 <==> UserKey(a) == UserKey(b);
  }

  lemma LessChain(c: Comparator<Bytes>, a: Bytes, b: Bytes, d: Bytes)
    requires TotalOrder(InternalOrder(c))
    ensures !Less(c, b, a) && Less(c, b, d) ==> Less(c, a, d)
    ensures Less(c, a, b) && !Less(c, d, b) ==> Less(c, a, d)
    ensures !Less(c, b, a) && !Less(c, d, b) ==> !Less(c, d, a)
    ensures Less(c, a, b) ==> !Less(c, b, a)
  {
    hide InternalCompare;
    var o := InternalOrder(c);
    assert Compare(o, a, b) < 0 <==> Compare(o, b, a) > 0;
    assert Compare(o, a, b) > 0 <==> Compare(o, b, a) < 0;
    assert Compare(o, b, d) < 0 <==> Compare(o, d, b) > 0;
    assert Compare(o, b, d) > 0 <==> Compare(o, d, b) < 0;
    assert Compare(o, a, d) > 0 <==> Compare(o, d, a) < 0;
    assert Compare(o, a, b) == 0 <==> a == b;
    assert Compare(o, b, d) == 0 <==> b == d;
  }

  // The index found block b for k: every pair of an earlier block is below k.
  lemma EarlierBlock(c: Comparator<Bytes>, blocks: seq<seq<Pair>>, index: seq<Pair>, k: Bytes, i: nat, j: nat)
    requires TotalOrder(c) && TotalOrder(InternalOrder(c)) && Chain(c, blocks) && Indexed(c, blocks, index) && |k| >= 8
    requires i < |index| && j < |blocks[i]| && Less(c, index[i].key, k)
    ensures Less(c, blocks[i][j].key, k)
  {
    hide Closes, InternalCompare;
    ClosingBounds(c, blocks, i, index[i].key, k);
    InBlock(c, blocks[i], j);
    LessChain(c, blocks[i][j].key, Last(blocks[i]), index[i].key);
    LessChain(c, blocks[i][j].key, index[i].key, k);
  }

  // Every pair of a later block is after block b and, if all of block b is below k, of a user
  // key after k's.
  lemma LaterBlock(c: Comparator<Bytes>, blocks: seq<seq<Pair>>, index: seq<Pair>, k: Bytes, b: nat, i: nat, j: nat)
    requires TotalOrder(c) && TotalOrder(InternalOrder(c)) && Chain(c, blocks) && Indexed(c, blocks, index) && |k| >= 8
    requires b < |index| && b < i < |blocks| && j < |blocks[i]| && !Less(c, index[b].key, k)
    ensures !Less(c, blocks[i][j].key, Last(blocks[b]))
    ensures Less(c, Last(blocks[b]), k) ==> Lt(c, UserKey(k), UserKey(blocks[i][j].key))
  {
    hide Closes, InternalCompare;
    var y := blocks[i][j].key;
    ClosingBounds(c, blocks, b, index[b].key, k);
    BlocksAscend(c, blocks, b, i);
    InBlock(c, blocks[i], j);
    LessChain(c, Last(blocks[b]), First(blocks[i]), y);
    LessChain(c, Last(blocks[b]), y, y);
    assert |y| >= 8 && |blocks[b + 1][0].key| >= 8;
    LessChain(c, First(blocks[b + 1]), First(blocks[i]), y);
    LessChain(c, First(blocks[b + 1]), y, y);
    if Less(c, Last(blocks[b]), k) {
      UserKeysFollow(c, UserKey(k), First(blocks[b + 1]), y);
    }
  }

  // b is where Seek(k) lands in the index.
  ghost predicate Lands(c: Comparator<Bytes>, pairs: seq<Pair>, k: Bytes, b: nat) {
    && b <= |pairs|
    && (forall i :: 0 <= i < b ==> Less(c, pairs[i].key, k))
    && (b < |pairs| ==> !Less(c, pairs[b].key, k))
  }

  // The one data block the index points to decides the lookup, although its index key may be
  // past all of it and k between the two.
  lemma OneBlockSuffices(c: Comparator<Bytes>, blocks: seq<seq<Pair>>, index: seq<Pair>, k: Bytes, b: nat, q: nat)
    requires TotalOrder(c) && TotalOrder(InternalOrder(c)) && Chain(c, blocks) && Indexed(c, blocks, index) && |k| >= 8
    requires |index| == |blocks| && Lands(c, index, k, b)
    requires b < |blocks| ==> Lands(c, blocks[b], k, q)
    ensures Answers(c, blocks, k, if b < |blocks| && q < |blocks[b]| then Some(blocks[b][q]) else None)
  {
    hide InternalCompare, Closes;
    forall i: nat, j: nat | i < |blocks| && j < |blocks[i]| && !Less(c, blocks[i][j].key, k)
      ensures b < |blocks|
      ensures q < |blocks[b]| ==> !Less(c, blocks[i][j].key, blocks[b][q].key)
      ensures q == |blocks[b]| ==> UserKey(blocks[i][j].key) != UserKey(k)
    {
      if i < b {
        EarlierBlock(c, blocks, index, k, i, j);
      }
      var y := blocks[i][j].key;
      if i > b {
        LaterBlock(c, blocks, index, k, b, i, j);
        assert Compare(c, UserKey(k), UserKey(k)) == 0;
        if q < |blocks[b]| {
          InBlock(c, blocks[b], q);
          LessChain(c, blocks[b][q].key, Last(blocks[b]), y);
        }
      } else {
        assert q <= j;
        LessChain(c, blocks[b][q].key, y, y);
        assert q < j ==> Less(c, blocks[b][q].key, y);
      }
    }
  }

  lemma UserKeysBetween(c: Comparator<Bytes>, a: Bytes, b: Bytes, d: Bytes)
    requires TotalOrder(c) && |a| >= 8 && |b| >= 8 && |d| >= 8
    requires !Less(c, b, a) && !Less(c, d, b) && UserKey(a) == UserKey(d)
    ensures UserKey(b) == UserKey(a)
  {
    assert Compare(c, UserKey(a), UserKey(b)) == 0 <==> UserKey(a) == UserKey(b);
    assert Compare(c, UserKey(b), UserKey(a)) < 0 <==> Compare(c, UserKey(a), UserKey(b)) > 0;
    assert Compare(c, UserKey(d), UserKey(b)) < 0 <==> Compare(c, UserKey(b), UserKey(d)) > 0;
    assert Compare(c, UserKey(b), UserKey(a)) == 0 <==> UserKey(a) == UserKey(b);
  }

  // A filter that knows k's user key is not in block b may end the lookup there.
  lemma FilterSuffices(c: Comparator<Bytes>, blocks: seq<seq<Pair>>, index: seq<Pair>, k: Bytes, b: nat)
    requires TotalOrder(c) && TotalOrder(InternalOrder(c)) && Chain(c, blocks) && Indexed(c, blocks, index) && |k| >= 8
    requires |index| == |blocks| && Lands(c, index, k, b) && b < |blocks|
    requires forall j :: 0 <= j < |blocks[b]| ==> UserKey(blocks[b][j].key) != UserKey(k)
    ensures Answers(c, blocks, k, None)
  {
    hide InternalCompare, Closes;
    forall i: nat, j: nat | i < |blocks| && j < |blocks[i]| && !Less(c, blocks[i][j].key, k)
      ensures UserKey(blocks[i][j].key) != UserKey(k)
    {
      if i < b {
        EarlierBlock(c, blocks, index, k, i, j);
      } else if i > b {
        LaterBlock(c, blocks, index, k, b, i, j);
        assert Compare(c, UserKey(k), UserKey(k)) == 0;
        assert |blocks[i][j].key| >= 8 && |blocks[b][|blocks[b]| - 1].key| >= 8;
        if UserKey(blocks[i][j].key) == UserKey(k) {
          UserKeysBetween(c, k, Last(blocks[b]), blocks[i][j].key);
        }
      }
    }
  }

  // ---- Tables as files ----

  // A block written to the file.
  datatype Stored = Stored(handle: Handle, contents: Bytes, pairs: seq<Pair>, starts: seq<nat>)

  ghost predicate StoredOk(crc: Checksum, file: Bytes, s: Stored) {
    HoldsRaw(crc, file, s.handle, s.contents) && Blocks.LaidOut(s.contents, s.pairs, s.starts)
  }

  function PairsOf(stored: seq<Stored>): (blocks: seq<seq<Pair>>)
    ensures |blocks| == |stored|
  {
    seq(|stored|, i requires 0 <= i < |stored| => stored[i].pairs)
  }

  ghost predicate PointsTo(index: seq<Pair>, stored: seq<Stored>) {
    && |index| <= |stored|
    && forall i :: 0 <= i < |index| ==> index[i].value == EncodeHandle(stored[i].handle)
  }

  ghost predicate IsTable(c: Comparator<Bytes>, crc: Checksum, file: Bytes, stored: seq<Stored>, index: Stored) {
    && (forall i :: 0 <= i < |stored| ==> StoredOk(crc, file, stored[i]))
    && StoredOk(crc, file, index)
    && Chain(c, PairsOf(stored)) && Indexed(c, PairsOf(stored), index.pairs)
    && |index.pairs| == |stored| && PointsTo(index.pairs, stored)
  }

  // No 32-bit offset in a block, and no 64-bit offset in the file, has overflowed.
  ghost predicate InRange(file: Bytes, stored: seq<Stored>, index: Stored) {
    && |file| < TWO_64 && |index.contents| < TWO_32
    && forall i :: 0 <= i < |stored| ==> |stored[i].contents| < TWO_32
  }

  lemma BlockSorted(c: Comparator<Bytes>, block: seq<Pair>)
    requires BlockOk(c, block)
    ensures BlockIterator.SortedPairs(InternalOrder(c), block)
  {
    forall i, j | 0 <= i < j < |block| ensures Lt(InternalOrder(c), block[i].key, block[j].key) {
      assert Less(c, block[i].key, block[j].key);
    }
  }

  lemma IndexSorted(c: Comparator<Bytes>, blocks: seq<seq<Pair>>, index: seq<Pair>)
    requires TotalOrder(c) && TotalOrder(InternalOrder(c)) && Chain(c, blocks) && Indexed(c, blocks, index)
    ensures BlockIterator.SortedPairs(InternalOrder(c), index)
  {
    hide InternalCompare, Closes;
    forall i: nat, j: nat | i < j < |index| ensures Lt(InternalOrder(c), index[i].key, index[j].key) {
      var last := Last(blocks[j]);
      assert |blocks[j][|blocks[j]| - 1].key| >= 8;
      ClosingBounds(c, blocks, i, index[i].key, last);
      ClosingBounds(c, blocks, j, index[j].key, last);
      BlocksAscend(c, blocks, i, j);
      InBlock(c, blocks[j], |blocks[j]| - 1);
      LessChain(c, index[i].key, First(blocks[i + 1]), First(blocks[j]));
      LessChain(c, First(blocks[i + 1]), First(blocks[j]), First(blocks[j]));
      LessChain(c, index[i].key, First(blocks[j]), last);
      LessChain(c, index[i].key, last, index[j].key);
      assert Less(c, index[i].key, index[j].key);
    }
  }

  // ---- What a point lookup means ----

  function PairOf(v: Version): Pair {
    Blocks.Pair(Encode(v), v.value)
  }

  // SaveValue in db/version_set.cpp: what the pair delivered, if any, says about user key u.
  function SaveValue(c: Comparator<Bytes>, u: Bytes, r: Option<Pair>): Saved {
    if r.Some? && Compare(c, UserKey(r.value.key), u) == 0 then
      if Tag(r.value.key) % 256 == TYPE_VALUE then Found(r.value.value) else Deleted
    else NotFound
  }

  // The pairs of the table are these versions.
  ghost predicate Represents(blocks: seq<seq<Pair>>, es: set<Version>) {
    && (forall v :: v in es ==> v.seqno <= Entries.MAX_SEQUENCE && InTable(blocks, PairOf(v)))
    && (forall x :: InTable(blocks, x) ==> exists v :: v in es && PairOf(v) == x)
  }

  ghost predicate OneVersionPerNumber(es: set<Version>) {
    forall v, w :: v in es && w in es && v.key == w.key && v.seqno == w.seqno ==> v == w
  }

  lemma VersionLess(c: Comparator<Bytes>, v: Version, w: Version)
    requires TotalOrder(c) && v.seqno <= Entries.MAX_SEQUENCE && w.seqno <= Entries.MAX_SEQUENCE
    ensures Lt(c, v.key, w.key) || (v.key == w.key && v.seqno > w.seqno) ==> Less(c, Encode(v), Encode(w))
  {
    if v.key != w.key || v.seqno != w.seqno {
      EncodeOrders(c, v, w);
    }
    assert Compare(c, v.key, w.key) == 0 <==> v.key == w.key;
  }

  // The pair a lookup delivers is the newest version its snapshot sees, or there is none.
  lemma AnswerIsNewest(c: Comparator<Bytes>, blocks: seq<seq<Pair>>, es: set<Version>, u: Bytes, snap: nat, r: Option<Pair>)
    requires TotalOrder(c) && Represents(blocks, es) && snap <= Entries.MAX_SEQUENCE
    requires Answers(c, blocks, LookupKey(u, snap), r)
    ensures if r.Some? && UserKey(r.value.key) == u
            then exists v :: v in es && PairOf(v) == r.value && Entries.IsNewest(es, u, snap, v)
            else forall v :: v in es ==> !Entries.Candidate(v, u, snap)
  {
    hide InternalCompare, Encode, InTable;
    var k := LookupKey(u, snap);
    Parts(u, Pack(snap, TYPE_VALUE));
    forall o | o in es && Entries.Candidate(o, u, snap) ensures !Less(c, Encode(o), k) && UserKey(Encode(o)) == u {
      LookupSplits(c, o, u, snap);
      EncodedParts(o);
      assert Compare(c, o.key, u) == 0;
    }
    if r.Some? {
      var v :| v in es && PairOf(v) == r.value;
      EncodedParts(v);
      LookupSplits(c, v, u, snap);
      assert Compare(c, v.key, u) < 0 <==> Compare(c, u, v.key) > 0;
      assert Compare(c, v.key, u) == 0 <==> v.key == u;
      forall o | o in es && Entries.Candidate(o, u, snap) ensures v.key == u && o.seqno <= v.seqno {
        assert InTable(blocks, PairOf(o));
        VersionLess(c, o, v);
      }
      if v.key == u {
        assert Entries.IsNewest(es, u, snap, v);
      }
    } else {
      forall o | o in es ensures !Entries.Candidate(o, u, snap) {
        assert InTable(blocks, PairOf(o));
      }
    }
  }

  // So what SaveValue records is what the versions read as.
  lemma SavedIsRead(c: Comparator<Bytes>, blocks: seq<seq<Pair>>, es: set<Version>, u: Bytes, snap: nat, r: Option<Pair>)
    requires TotalOrder(c) && Represents(blocks, es) && OneVersionPerNumber(es) && snap <= Entries.MAX_SEQUENCE
    requires Answers(c, blocks, LookupKey(u, snap), r)
    ensures forall value :: SaveValue(c, u, r) == Found(value) <==> Entries.Reads(es, u, snap, value)
    ensures SaveValue(c, u, r) == NotFound <==> forall v :: v in es ==> !Entries.Candidate(v, u, snap)
  {
    hide InternalCompare, Encode, Answers, Represents, UserKey, Tag, LookupKey;
    AnswerIsNewest(c, blocks, es, u, snap, r);
    if r.Some? {
      assert Compare(c, UserKey(r.value.key), u) == 0 <==> UserKey(r.value.key) == u;
    }
    hide TotalOrder;
    if r.Some? && UserKey(r.value.key) == u {
      var v :| v in es && PairOf(v) == r.value && Entries.IsNewest(es, u, snap, v);
      assert v.seqno <= Entries.MAX_SEQUENCE by { RepresentedNumber(blocks, es, v); }
      TagOfEncoded(v);
      NewestRead(es, u, snap, v);
    }
  }

  lemma TagOfEncoded(v: Version)
    requires v.seqno <= Entries.MAX_SEQUENCE
    ensures Tag(Encode(v)) % 256 == TYPE_VALUE <==> v.kind == Entries.Value
  {
    hide Encode, Tag;
    EncodedParts(v);
  }

  // The newest version alone decides the read.
  lemma NewestRead(es: set<Version>, u: Bytes, snap: nat, v: Version)
    requires OneVersionPerNumber(es) && Entries.IsNewest(es, u, snap, v)
    ensures v in es && Entries.Candidate(v, u, snap)
    ensures forall value :: Entries.Reads(es, u, snap, value) <==> v.kind == Entries.Value && v.value == value
  {
    forall w | w in es && Entries.IsNewest(es, u, snap, w) ensures w == v {
      assert w.seqno == v.seqno;
    }
  }

  lemma RepresentedNumber(blocks: seq<seq<Pair>>, es: set<Version>, v: Version)
    requires Represents(blocks, es) && v in es
    ensures v.seqno <= Entries.MAX_SEQUENCE
  {
  }
}
