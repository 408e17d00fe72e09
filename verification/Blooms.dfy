// util/bloom.cpp: the Bloom filter policy, which probes by double hashing on 32 bits.
module Blooms {
  import opened Coding
  import opened ByteStrings
  import opened Filters

  // BloomHash, as any function of the bytes into 32 bits.
  type Hash = Bytes -> nat

  function HashOf(hash: Hash, key: Bytes): (h: nat)
    ensures h < TWO_32
  {
    hash(key) % TWO_32
  }

  // Rotate right by 17 bits, on 32 bits.
  function Delta(h: nat): nat {
    h / 0x2_0000 + h % 0x2_0000 * 0x8000
  }

  // The hash of the j-th probe: additions wrap around.
  function Probe(h: nat, j: nat): nat {
    if j == 0 then h else (Probe(h, j - 1) + Delta(h)) % TWO_32
  }

  // ---- Bits of a byte ----

  function Pow2(n: nat): (r: nat)
    ensures r >= 1
  {
    if n == 0 then 1 else 2 * Pow2(n - 1)
  }

  // (b & (1 << i)) != 0
  predicate Bit(b: nat, i: nat) {
    if i == 0 then b % 2 == 1 else Bit(b / 2, i - 1)
  }

  // b | (1 << i)
  function WithBit(b: nat, i: nat): nat {
    if i == 0 then b / 2 * 2 + 1 else WithBit(b / 2, i - 1) * 2 + b % 2
  }

  lemma {:induction false} WithBitBits(b: nat, i: nat, j: nat)
    ensures Bit(WithBit(b, i), j) <==> i == j || Bit(b, j)
  {
    if i > 0 && j > 0 {
      WithBitBits(b / 2, i - 1, j - 1);
    }
  }

  lemma HalfFits(b: nat, n: nat)
    requires n > 0
    ensures b < Pow2(n) <==> b / 2 < Pow2(n - 1)
  {
  }

  lemma {:induction false} WithBitFits(b: nat, i: nat, n: nat)
    requires i < n && b < Pow2(n)
    ensures WithBit(b, i) < Pow2(n)
  {
    hide Pow2;
    HalfFits(b, n);
    if i > 0 {
      WithBitFits(b / 2, i - 1, n - 1);
      HalfFits(WithBit(b, i), n);
    } else {
      HalfFits(b / 2 * 2 + 1, n);
    }
  }

  lemma {:induction false} NoBits(j: nat)
    ensures !Bit(0, j)
  {
    if j > 0 {
      NoBits(j - 1);
    }
  }

  // bitArray[p / 8] | (1 << (p % 8)), a byte again.
  function Marked(b: byte, i: nat): (r: byte)
    requires i < 8
  {
    assert Pow2(8) == 16 * Pow2(4) == 256;
    WithBitFits(b, i, 8);
    WithBit(b, i)
  }

  predicate IsSet(a: Bytes, p: nat)
    requires p < 8 * |a|
  {
    Bit(a[p / 8], p % 8)
  }

  function Mark(a: Bytes, p: nat): (r: Bytes)
    requires p < 8 * |a|
    ensures |r| == |a|
  {
    a[p / 8 := Marked(a[p / 8], p % 8)]
  }

  lemma MarkSets(a: Bytes, p: nat, q: nat)
    requires p < 8 * |a| && q < 8 * |a|
    ensures IsSet(Mark(a, p), q) <==> q == p || IsSet(a, q)
  {
    WithBitBits(a[p / 8], p % 8, q % 8);
  }

  function Pos(h: nat, j: nat, bits: nat): (p: nat)
    requires bits > 0
    ensures p < bits
  {
    Probe(h, j) % bits
  }

  // The first n probes of a hash marked.
  function MarkProbes(a: Bytes, h: nat, n: nat): (r: Bytes)
    requires |a| > 0
    ensures |r| == |a|
  {
    if n == 0 then a else Mark(MarkProbes(a, h, n - 1), Pos(h, n - 1, 8 * |a|))
  }

  function MarkKeys(hash: Hash, k: nat, a: Bytes, keys: seq<Bytes>): (r: Bytes)
    requires |a| > 0
    ensures |r| == |a|
  {
    if keys == [] then a
    else MarkProbes(MarkKeys(hash, k, a, keys[..|keys| - 1]), HashOf(hash, keys[|keys| - 1]), k)
  }

  lemma {:induction false} ProbesSet(a: Bytes, h: nat, n: nat, q: nat)
    requires |a| > 0 && q < 8 * |a|
    ensures IsSet(MarkProbes(a, h, n), q) <==> IsSet(a, q) || exists j :: 0 <= j < n && Pos(h, j, 8 * |a|) == q
  {
    hide Pos, Mark, IsSet;
    if n > 0 {
      ProbesSet(a, h, n - 1, q);
      MarkSets(MarkProbes(a, h, n - 1), Pos(h, n - 1, 8 * |a|), q);
    }
  }

  // Position q is probed for a key.
  ghost predicate Probes(hash: Hash, k: nat, bits: nat, key: Bytes, q: nat)
    requires bits > 0
  {
    exists j :: 0 <= j < k && Pos(HashOf(hash, key), j, bits) == q
  }

  ghost predicate ProbedByAny(hash: Hash, k: nat, bits: nat, keys: seq<Bytes>, q: nat)
    requires bits > 0
  {
    exists key :: key in keys && Probes(hash, k, bits, key, q)
  }

  lemma {:induction false} KeysSet(hash: Hash, k: nat, a: Bytes, keys: seq<Bytes>, q: nat)
    requires |a| > 0 && q < 8 * |a|
    ensures IsSet(MarkKeys(hash, k, a, keys), q) <==> IsSet(a, q) || ProbedByAny(hash, k, 8 * |a|, keys, q)
  {
    hide Pos, IsSet, MarkProbes;
    if keys != [] {
      var n := |keys| - 1;
      KeysSet(hash, k, a, keys[..n], q);
      ProbesSet(MarkKeys(hash, k, a, keys[..n]), HashOf(hash, keys[n]), k, q);
      assert keys[n] in keys && Probes(hash, k, 8 * |a|, keys[n], q) ==> ProbedByAny(hash, k, 8 * |a|, keys, q);
      assert forall key :: key in keys <==> key in keys[..n] || key == keys[n];
    }
  }

  // ---- The policy ----

  function FilterBytes(n: nat, bitsPerKey: nat): (bytes: nat)
    ensures bytes >= 8
  {
    var bits := Times(n, bitsPerKey);
    ((if bits < 64 then 64 else bits) + 7) / 8
  }

  // What CreateFilter appends: the bits, and how many probes there are for a key.
  function BloomFilter(hash: Hash, bitsPerKey: nat, k: byte, keys: seq<Bytes>): Bytes {
    MarkKeys(hash, k, Zeros(FilterBytes(|keys|, bitsPerKey)), keys) + [k]
  }

  // KeyMayMatch: all the bits of the key's probes are set; it always does for more than 30 probes.
  predicate BloomMatches(hash: Hash, key: Bytes, filter: Bytes) {
    && |filter| >= 2
    && var n := |filter| - 1;
       filter[n] > 30 || forall j :: 0 <= j < filter[n] ==> IsSet(filter[..n], Pos(HashOf(hash, key), j, 8 * n))
  }

  // Its name stands for "leveldb.BuiltinBloomFilter2".
  function BloomPolicy(name: Bytes, hash: Hash, bitsPerKey: nat, k: byte): FilterPolicy {
    FilterPolicy(name, keys => BloomFilter(hash, bitsPerKey, k, keys), (key, f) => BloomMatches(hash, key, f))
  }

  // A filter matches the keys that went into it, and exactly those others all of whose probes
  // are probes of such keys.
  lemma BloomMatchesExactly(hash: Hash, bitsPerKey: nat, k: byte, keys: seq<Bytes>, key: Bytes)
    requires k <= 30
    ensures var bits := 8 * FilterBytes(|keys|, bitsPerKey);
      BloomMatches(hash, key, BloomFilter(hash, bitsPerKey, k, keys))
      <==> forall j :: 0 <= j < k ==> ProbedByAny(hash, k, bits, keys, Pos(HashOf(hash, key), j, bits))
  {
    hide Pos, IsSet, MarkKeys, ProbedByAny;
    var bytes := FilterBytes(|keys|, bitsPerKey);
    var zeros, f := Zeros(bytes), BloomFilter(hash, bitsPerKey, k, keys);
    assert f[..bytes] == MarkKeys(hash, k, zeros, keys);
    forall j | 0 <= j < k
      ensures var q := Pos(HashOf(hash, key), j, 8 * bytes);
        IsSet(f[..bytes], q) <==> ProbedByAny(hash, k, 8 * bytes, keys, q)
    {
      var q := Pos(HashOf(hash, key), j, 8 * bytes);
      KeysSet(hash, k, zeros, keys, q);
      ZerosUnset(bytes, q);
    }
  }

  lemma ZerosUnset(n: nat, q: nat)
    requires q < 8 * n
    ensures !IsSet(Zeros(n), q)
  {
    NoBits(q % 8);
  }

  lemma BloomIsSound(name: Bytes, hash: Hash, bitsPerKey: nat, k: byte)
    ensures Sound(BloomPolicy(name, hash, bitsPerKey, k))
  {
    hide Pos, BloomMatches, BloomFilter, FilterBytes;
    forall keys: seq<Bytes>, key | key in keys ensures BloomMatches(hash, key, BloomFilter(hash, bitsPerKey, k, keys)) {
      if k <= 30 {
        BloomMatchesExactly(hash, bitsPerKey, k, keys, key);
      } else {
        ManyProbes(hash, bitsPerKey, k, keys, key);
      }
    }
  }

  lemma ManyProbes(hash: Hash, bitsPerKey: nat, k: byte, keys: seq<Bytes>, key: Bytes)
    requires k > 30
    ensures BloomMatches(hash, key, BloomFilter(hash, bitsPerKey, k, keys))
  {
  }

  lemma Unmatched(hash: Hash, key: Bytes, filter: Bytes, j: nat)
    requires |filter| >= 2 && filter[|filter| - 1] <= 30 && j < filter[|filter| - 1]
    requires !IsSet(filter[..|filter| - 1], Pos(HashOf(hash, key), j, 8 * (|filter| - 1)))
    ensures !BloomMatches(hash, key, filter)
  {
    hide IsSet, Pos;
  }

  class BloomFilterPolicy {
    const hash: Hash
    const bitsPerKey: nat
    const k: byte

    // k0 is the rounded product of bits per key and ln 2.
    constructor (hash: Hash, bitsPerKey: nat, k0: nat)
      ensures this.hash == hash && this.bitsPerKey == bitsPerKey
      ensures k == (if k0 < 1 then 1 else if k0 > 30 then 30 else k0)
    {
      this.hash, this.bitsPerKey := hash, bitsPerKey;
      this.k := if k0 < 1 then 1 else if k0 > 30 then 30 else k0;
    }

    method CreateFilter(keys: seq<Bytes>, dst: Bytes) returns (r: Bytes)
      ensures r == dst + BloomFilter(hash, bitsPerKey, k, keys)
    {
      hide Pos, Mark;
      var bits: nat := Times(|keys|, bitsPerKey);
      if bits < 64 {
        bits := 64;
      }
      var bytes := (bits + 7) / 8;
      bits := bytes * 8;
      var bitArray := new byte[bytes](_ => 0);
      assert bitArray[..] == Zeros(bytes);
      var i := 0;
      while i < |keys|
        invariant 0 <= i <= |keys| && bitArray[..] == MarkKeys(hash, k, Zeros(bytes), keys[..i])
      {
        assert keys[..i + 1][..i] == keys[..i];
        AddKey(bitArray, keys[i]);
        i := i + 1;
      }
      assert keys[..i] == keys;
      r := dst + bitArray[..] + [k];
    }

    method AddKey(bitArray: array<byte>, key: Bytes)
      requires bitArray.Length > 0
      modifies bitArray
      ensures bitArray[..] == MarkProbes(old(bitArray[..]), HashOf(hash, key), k)
    {
      var bits := bitArray.Length * 8;
      var h := HashOf(hash, key);
      ghost var h0 := h;
      var delta := Delta(h);
      var j := 0;
      while j < k as int
        invariant 0 <= j <= k && h == Probe(h0, j)
        invariant bitArray[..] == MarkProbes(old(bitArray[..]), h0, j)
      {
        var bitpos := h % bits;
        bitArray[bitpos / 8] := Marked(bitArray[bitpos / 8], bitpos % 8);
        h := (h + delta) % TWO_32;
        j := j + 1;
      }
    }

    method KeyMayMatch(key: Bytes, filter: Bytes) returns (r: bool)
      ensures r == BloomMatches(hash, key, filter)
    {
      var len := |filter|;
      if len < 2 {
        return false;
      }
      var bits := (len - 1) * 8;
      var probes := filter[len - 1];
      if probes > 30 {
        return true;
      }
      var h := HashOf(hash, key);
      ghost var h0 := h;
      var delta := Delta(h);
      var j := 0;
      while j < probes as int
        invariant 0 <= j <= probes && h == Probe(h0, j)
        invariant forall i :: 0 <= i < j ==> IsSet(filter[..len - 1], Pos(h0, i, bits))
      {
        var bitpos := h % bits;
        assert bitpos == Pos(h0, j, bits);
        if !Bit(filter[bitpos / 8], bitpos % 8) {
          Unmatched(hash, key, filter, j);
          return false;
        }
        h := (h + delta) % TWO_32;
        j := j + 1;
      }
      return true;
    }
  }

  // ---- The parameters of a filter ----

  // Probe j is the hash plus j times its rotation by 17 bits, in 32 bits.
  lemma {:induction false} ProbeIs(h: nat, j: nat)
    requires h < TWO_32
    ensures Probe(h, j) == (h + Times(j, Delta(h))) % TWO_32
  {
    hide Times, Delta;
    if j > 0 {
      ProbeIs(h, j - 1);
      TimesNext(j - 1, Delta(h));
      ModSum(h + Times(j - 1, Delta(h)), Delta(h));
    } else {
      NoTimes(Delta(h));
    }
  }

  lemma ModSum(a: nat, b: nat)
    ensures (a % TWO_32 + b) % TWO_32 == (a + b) % TWO_32
  {
  }

  lemma NoTimes(d: nat)
    ensures Times(0, d) == 0
  {
  }

  lemma TimesNext(j: nat, d: nat)
    ensures Times(j + 1, d) == Times(j, d) + d
  {
  }

  lemma DeltaRotates(h: nat)
    requires h < TWO_32
    ensures Delta(h) < TWO_32 && Delta(h) / 0x8000 == h % 0x2_0000 && Delta(h) % 0x8000 == h / 0x2_0000
  {
  }

  // At least 64 bits, and the given number for each key, rounded up to bytes; the number of
  // probes is the last byte. Bits are counted from the least significant one.
  lemma FilterSize(hash: Hash, bitsPerKey: nat, k: byte, keys: seq<Bytes>)
    ensures var f, bits := BloomFilter(hash, bitsPerKey, k, keys), Times(|keys|, bitsPerKey);
      && 8 * (|f| - 1) >= bits && |f| >= 9 && (bits >= 64 ==> 8 * (|f| - 1) < bits + 8) && (bits < 64 ==> |f| == 9)
      && f[|f| - 1] == k
    ensures Marked(0, 0) == 1 && Marked(0, 7) == 128
  {
    HighBit();
  }

  lemma HighBit()
    ensures WithBit(0, 7) == 128
  {
    assert WithBit(0, 3) == 8;
    assert WithBit(0, 7) == 16 * WithBit(0, 3);
  }

  // A filter of fewer than two bytes matches nothing.
  lemma TooShort(hash: Hash, key: Bytes, filter: Bytes)
    requires |filter| < 2
    ensures !BloomMatches(hash, key, filter)
  {
  }
}
