// util/coding.cpp and the masking of util/crc32c.h: integers as bytes.
module Coding {
  import opened Options

  type byte = x: int | 0 <= x < 256

  const TWO_32: nat := 0x1_0000_0000
  const TWO_64: nat := 0x1_0000_0000_0000_0000

  // EncodeFixed32 and EncodeFixed64: n bytes, least significant first.
  function Fixed(v: nat, n: nat): (r: seq<byte>)
    ensures |r| == n
  {
    if n == 0 then [] else [v % 256] + Fixed(v / 256, n - 1)
  }

  function DecodeFixed(s: seq<byte>): nat {
    if |s| == 0 then 0 else s[0] + 256 * DecodeFixed(s[1..])
  }

  function Pow256(n: nat): (p: nat)
    ensures p > 0
  {
    if n == 0 then 1 else 256 * Pow256(n - 1)
  }

  lemma {:induction false} FixedRoundTrip(v: nat, n: nat)
    requires v < Pow256(n)
    ensures DecodeFixed(Fixed(v, n)) == v
  {
    if n > 0 {
      FixedRoundTrip(v / 256, n - 1);
    }
  }

  lemma Fixed32RoundTrip(v: nat)
    requires v < TWO_32
    ensures DecodeFixed(Fixed(v, 4)) == v
  {
    assert Pow256(4) == TWO_32;
    FixedRoundTrip(v, 4);
  }

  lemma Fixed64RoundTrip(v: nat)
    requires v < TWO_64
    ensures DecodeFixed(Fixed(v, 8)) == v
  {
    assert Pow256(8) == 256 * 256 * 256 * 256 * Pow256(4) == TWO_64;
    FixedRoundTrip(v, 8);
  }

  // EncodeVarint32 and EncodeVarint64: seven bits a byte, the top bit saying that more follow.
  function Varint(v: nat): (r: seq<byte>)
    ensures |r| >= 1
  {
    if v < 128 then [v] else [v % 128 + 128] + Varint(v / 128)
  }

  // The value parsed so far with one more digit shifted in; bits beyond the width are lost.
  function WithDigit(acc: nat, digit: nat, scale: nat, width: nat): nat
    requires width > 0
  {
    (acc + Times(scale, digit)) % width
  }

  function Times(a: nat, b: nat): nat {
    assert a * b >= 0;
    a * b
  }

  // The shifting loop of GetVarint32PtrFallback and GetVarint64Ptr over at most max bytes: the
  // value and what follows it.
  function ReadVarint(s: seq<byte>, max: nat, width: nat, scale: nat, acc: nat): (r: Option<(nat, seq<byte>)>)
    requires width > 0
    ensures r.Some? ==> |r.value.1| < |s| && r.value.1 == s[|s| - |r.value.1|..]
  {
    if max == 0 || |s| == 0 then None
    else if s[0] < 128 then Some((WithDigit(acc, s[0], scale, width), s[1..]))
    else ReadVarint(s[1..], max - 1, width, scale * 128, WithDigit(acc, s[0] - 128, scale, width))
  }

  function GetVarint32(s: seq<byte>): (r: Option<(nat, seq<byte>)>)
    ensures r.Some? ==> |r.value.1| < |s|
  {
    ReadVarint(s, 5, TWO_32, 1, 0)
  }

  function GetVarint64(s: seq<byte>): (r: Option<(nat, seq<byte>)>)
    ensures r.Some? ==> |r.value.1| < |s|
  {
    ReadVarint(s, 10, TWO_64, 1, 0)
  }

  // A varint cut off anywhere is no varint.
  lemma {:induction false} CutVarint(v: nat, max: nat, width: nat, scale: nat, acc: nat, m: nat)
    requires width > 0 && m < |Varint(v)|
    ensures ReadVarint(Varint(v)[..m], max, width, scale, acc) == None
    decreases m
  {
    if max > 0 && m > 0 {
      assert v >= 128;
      assert Varint(v)[..m][1..] == Varint(v / 128)[..m - 1];
      CutVarint(v / 128, max - 1, width, scale * 128, WithDigit(acc, v % 128, scale, width), m - 1);
    }
  }

  // v shifted right by k digits.
  function Shifted(v: nat, base: nat, k: nat): nat
    requires base > 0
  {
    if k == 0 then v else Shifted(v, base, k - 1) / base
  }

  lemma {:induction false} ShiftedFirst(v: nat, base: nat, k: nat)
    requires base > 0
    ensures Shifted(v / base, base, k) == Shifted(v, base, k + 1)
  {
    if k > 0 {
      ShiftedFirst(v, base, k - 1);
    } else {
      assert Shifted(v, base, 1) == Shifted(v, base, 0) / base;
    }
  }

  // Byte k of the fixed form is digit k to base 256: least significant first.
  lemma {:induction false} FixedAt(v: nat, n: nat, k: nat)
    requires k < n
    ensures Fixed(v, n)[k] == Shifted(v, 256, k) % 256
    decreases k
  {
    if k > 0 {
      FixedAt(v / 256, n - 1, k - 1);
      ShiftedFirst(v, 256, k - 1);
    }
  }

  // Byte k of a varint is digit k to base 128, with the top bit set on all but the last.
  lemma {:induction false} VarintAt(v: nat, k: nat)
    requires k < |Varint(v)|
    ensures Varint(v)[k] == Shifted(v, 128, k) % 128 + if k + 1 < |Varint(v)| then 128 else 0
    ensures k + 1 == |Varint(v)| ==> Shifted(v, 128, k) < 128
    decreases k
  {
    if k > 0 {
      VarintAt(v / 128, k - 1);
      ShiftedFirst(v, 128, k - 1);
    }
  }

  function Pow128(n: nat): (p: nat)
    ensures p > 0
  {
    if n == 0 then 1 else 128 * Pow128(n - 1)
  }

  // v at this scale, on top of what was parsed, is total.
  predicate Completes(v: nat, scale: nat, acc: nat, total: nat) {
    total == acc + Times(scale, v)
  }

  lemma LowDigit(v: nat, scale: nat)
    ensures Times(scale, v) == Times(scale, v % 128) + Times(scale * 128, v / 128)
  {
    calc {
      Times(scale, v);
      scale * (v % 128 + 128 * (v / 128));
      scale * (v % 128) + scale * (128 * (v / 128));
      scale * (v % 128) + scale * 128 * (v / 128);
    }
  }

  lemma LastDigit(v: nat, width: nat, scale: nat, acc: nat, total: nat)
    requires Completes(v, scale, acc, total) && total < width
    ensures WithDigit(acc, v, scale, width) == total
  {
  }

  lemma OneDigit(v: nat, width: nat, scale: nat, acc: nat, total: nat)
    requires Completes(v, scale, acc, total) && total < width
    ensures Completes(v / 128, scale * 128, WithDigit(acc, v % 128, scale, width), total)
  {
    LowDigit(v, scale);
    LastDigit(v % 128, width, scale, acc, acc + Times(scale, v % 128));
  }

  lemma {:induction false} ReadVarintInverts(v: nat, max: nat, width: nat, scale: nat, acc: nat, total: nat, rest: seq<byte>)
    requires max > 0 && v < Pow128(max) && Completes(v, scale, acc, total) && total < width
    ensures ReadVarint(Varint(v) + rest, max, width, scale, acc) == Some((total, rest))
    decreases max
  {
    hide WithDigit, Times, Completes;
    var s := Varint(v) + rest;
    if v < 128 {
      LastDigit(v, width, scale, acc, total);
      assert s[1..] == rest;
    } else {
      OneDigit(v, width, scale, acc, total);
      assert Pow128(1) == 128 * Pow128(0);
      assert s[1..] == Varint(v / 128) + rest;
      ReadVarintInverts(v / 128, max - 1, width, scale * 128, WithDigit(acc, v % 128, scale, width), total, rest);
    }
  }

  lemma Varint32RoundTrip(v: nat, rest: seq<byte>)
    requires v < TWO_32
    ensures GetVarint32(Varint(v) + rest) == Some((v, rest))
  {
    assert Pow128(5) == 128 * 128 * 128 * 128 * 128 * Pow128(0);
    ReadVarintInverts(v, 5, TWO_32, 1, 0, v, rest);
  }

  lemma Varint64RoundTrip(v: nat, rest: seq<byte>)
    requires v < TWO_64
    ensures GetVarint64(Varint(v) + rest) == Some((v, rest))
  {
    assert Pow128(5) == 128 * 128 * 128 * 128 * 128 * Pow128(0);
    assert Pow128(10) == 128 * 128 * 128 * 128 * 128 * Pow128(5);
    ReadVarintInverts(v, 10, TWO_64, 1, 0, v, rest);
  }

  lemma {:induction false} VarintFits(v: nat, n: nat)
    requires v < Pow128(n) && n > 0
    ensures |Varint(v)| <= n
  {
    if v >= 128 {
      assert Pow128(1) == 128 * Pow128(0);
      VarintFits(v / 128, n - 1);
    }
  }

  function Zeros(n: nat): (s: seq<byte>)
    ensures |s| == n
  {
    seq(n, _ => 0)
  }

  // EncodeVarint32: one branch for each length.
  method EncodeVarint32(v: nat) returns (buf: seq<byte>)
    requires v < TWO_32
    ensures buf == Varint(v)
  {
    if v < 0x80 {
      buf := [v];
    } else if v < 0x4000 {
      buf := [v % 128 + 128, v / 128];
    } else if v < 0x20_0000 {
      buf := [v % 128 + 128, v / 128 % 128 + 128, v / 0x4000];
    } else if v < 0x1000_0000 {
      buf := [v % 128 + 128, v / 128 % 128 + 128, v / 0x4000 % 128 + 128, v / 0x20_0000];
    } else {
      buf := [v % 128 + 128, v / 128 % 128 + 128, v / 0x4000 % 128 + 128, v / 0x20_0000 % 128 + 128, v / 0x1000_0000];
    }
    VarintDigits(v);
    ghost var v1, v2, v3, v4 := v / 128, v / 0x4000, v / 0x20_0000, v / 0x1000_0000;
    assert v4 < 128 && Varint(v4) == [v4];
    assert v3 >= 128 ==> Varint(v3) == [v3 % 128 + 128] + Varint(v4);
    assert v2 >= 128 ==> Varint(v2) == [v2 % 128 + 128] + Varint(v3);
    assert v1 >= 128 ==> Varint(v1) == [v1 % 128 + 128] + Varint(v2);
  }

  lemma VarintDigits(v: nat)
    ensures v / 128 / 128 == v / 0x4000 && v / 0x4000 / 128 == v / 0x20_0000 && v / 0x20_0000 / 128 == v / 0x1000_0000
  {
  }

  method EncodeVarint64(v: nat) returns (buf: seq<byte>)
    ensures buf == Varint(v)
  {
    buf := [];
    var w := v;
    while w >= 128
      invariant Varint(v) == buf + Varint(w)
    {
      buf := buf + [w % 128 + 128];
      w := w / 128;
    }
    buf := buf + [w];
  }

  method VarintLength(v: nat) returns (len: nat)
    ensures len == |Varint(v)|
  {
    len := 1;
    var w := v;
    while w >= 128
      invariant |Varint(v)| == len - 1 + |Varint(w)|
    {
      w := w / 128;
      len := len + 1;
    }
  }

  // GetVarint32PtrFallback (max 5, width 2^32) and GetVarint64Ptr (max 10, width 2^64). p is
  // where the parse ends, -1 for NULL.
  method GetVarintPtr(s: seq<byte>, max: nat, width: nat) returns (p: int, value: nat)
    requires width > 0
    ensures match ReadVarint(s, max, width, 1, 0)
            case None => p == -1
            case Some((v, rest)) => 0 <= p <= |s| && s[p..] == rest && value == v
  {
    hide WithDigit;
    var result: nat, scale: nat, i := 0, 1, 0;
    while i < max && i < |s|
      invariant 0 <= i <= |s| && i <= max
      invariant ReadVarint(s, max, width, 1, 0) == ReadVarint(s[i..], max - i, width, scale, result)
    {
      ghost var left := s[i..];
      var b := s[i];
      i := i + 1;
      assert left[0] == b && left[1..] == s[i..];
      if b < 128 {
        return i, WithDigit(result, b, scale, width);
      }
      result := WithDigit(result, b - 128, scale, width);
      scale := scale * 128;
    }
    return -1, 0;
  }

  function LengthPrefixed(s: seq<byte>): seq<byte> {
    Varint(|s|) + s
  }

  function GetLengthPrefixed(s: seq<byte>): (r: Option<(seq<byte>, seq<byte>)>)
    ensures r.Some? ==> |r.value.1| < |s|
  {
    match GetVarint32(s)
    case None => None
    case Some((n, rest)) => if |rest| >= n then Some((rest[..n], rest[n..])) else None
  }

  lemma LengthPrefixedRoundTrip(s: seq<byte>, rest: seq<byte>)
    requires |s| < TWO_32
    ensures GetLengthPrefixed(LengthPrefixed(s) + rest) == Some((s, rest))
  {
    Varint32RoundTrip(|s|, s + rest);
    assert LengthPrefixed(s) + rest == Varint(|s|) + (s + rest);
  }

  // One cut off anywhere is none.
  lemma CutLengthPrefixed(s: seq<byte>, m: nat)
    requires |s| < TWO_32 && m < |LengthPrefixed(s)|
    ensures GetLengthPrefixed(LengthPrefixed(s)[..m]) == None
  {
    var v := Varint(|s|);
    if m < |v| {
      assert LengthPrefixed(s)[..m] == v[..m];
      CutVarint(|s|, 5, TWO_32, 1, 0, m);
    } else {
      assert LengthPrefixed(s)[..m] == v + s[..m - |v|];
      Varint32RoundTrip(|s|, s[..m - |v|]);
    }
  }

  // crc32c::Value, as any function of the bytes into 32 bits.
  type Checksum = seq<byte> -> nat

  function Crc(crc: Checksum, s: seq<byte>): (r: nat)
    ensures r < TWO_32
  {
    crc(s) % TWO_32
  }

  // crc32c::Mask: rotate right by 15 bits and add a constant, on 32 bits.
  const MASK_DELTA: nat := 0xa282_ead8

  function Mask(crc: nat): (r: nat)
    ensures r < TWO_32
  {
    ((crc / 0x8000 + crc % 0x8000 * 0x2_0000) + MASK_DELTA) % TWO_32
  }

  function Unmask(masked: nat): nat {
    var rot := (masked + TWO_32 - MASK_DELTA) % TWO_32;
    rot / 0x2_0000 + rot % 0x2_0000 * 0x8000
  }

  lemma MaskRoundTrip(crc: nat)
    requires crc < TWO_32
    ensures Unmask(Mask(crc)) == crc
  {
    var hi, lo := crc / 0x8000, crc % 0x8000;
    assert hi < 0x2_0000;
    var rot := hi + lo * 0x2_0000;
    assert rot < TWO_32;
    assert (Mask(crc) + TWO_32 - MASK_DELTA) % TWO_32 == rot;
    assert rot / 0x2_0000 == lo && rot % 0x2_0000 == hi;
  }

  // What the mask adds, and which way it rotates.
  lemma MaskValues()
    ensures Mask(0) == 0xa282_ead8 && Mask(0x8000) == 0xa282_ead9 && Mask(1) == 0xa284_ead8
  {
  }

  lemma UnmaskInRange(masked: nat)
    requires masked < TWO_32
    ensures Unmask(masked) < TWO_32 && Mask(Unmask(masked)) == masked
  {
    var rot := (masked + TWO_32 - MASK_DELTA) % TWO_32;
    var hi, lo := rot / 0x2_0000, rot % 0x2_0000;
    assert hi < 0x8000;
    var crc := Unmask(masked);
    assert crc == hi + lo * 0x8000;
    assert crc / 0x8000 == lo && crc % 0x8000 == hi;
    assert lo + hi * 0x2_0000 == rot;
  }

  lemma {:induction false} DecodeFixedBound(s: seq<byte>)
    ensures DecodeFixed(s) < Pow256(|s|)
  {
    if |s| > 0 {
      DecodeFixedBound(s[1..]);
    }
  }

  // Encoding what was decoded gives the bytes back.
  lemma {:induction false} FixedOfDecoded(s: seq<byte>)
    ensures Fixed(DecodeFixed(s), |s|) == s
  {
    if |s| > 0 {
      FixedOfDecoded(s[1..]);
      assert (s[0] + 256 * DecodeFixed(s[1..])) / 256 == DecodeFixed(s[1..]);
    }
  }

  // A stored checksum is the right one just when its bytes are those that would be written.
  lemma ChecksumMatches(sum: nat, stored: seq<byte>)
    requires sum < TWO_32 && |stored| == 4
    ensures sum == Unmask(DecodeFixed(stored)) <==> stored == Fixed(Mask(sum), 4)
  {
    DecodeFixedBound(stored);
    assert Pow256(4) == TWO_32;
    FixedOfDecoded(stored);
    UnmaskInRange(DecodeFixed(stored));
    Fixed32RoundTrip(Mask(sum));
    MaskRoundTrip(sum);
  }
}
