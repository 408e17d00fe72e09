// util/crc32c.cpp: CRC-32C (section 12.1 of RFC 3720), four bytes at a time.
module Crc32c {

  type Byte = bv8

  const POLYNOMIAL: bv32 := 0x82f6_3b78  // bit-reflected

  function Xor(a: bv32, b: bv32): bv32 {
    a ^ b
  }

  predicate Odd(r: bv32) {
    r & 1 == 1
  }

  function Half(r: bv32): bv32 {
    r >> 1
  }

  // One bit, and one byte, of polynomial division.
  function Step(r: bv32): bv32 {
    if Odd(r) then Xor(Half(r), POLYNOMIAL) else Half(r)
  }

  function Step8(r: bv32): bv32 {
    Step(Step(Step(Step(Step(Step(Step(Step(r))))))))
  }

  // The register after the bytes of s, one byte at a time.
  function Feed(l: bv32, s: seq<Byte>): bv32 {
    if |s| == 0 then l else Step8(Xor(Feed(l, s[..|s| - 1]), s[|s| - 1] as bv32))
  }

  function Extended(crc: bv32, s: seq<Byte>): bv32 {
    Xor(Feed(Xor(crc, 0xffff_ffff), s), 0xffff_ffff)
  }

  // The four lookup tables: entry c of table k is the register after byte c and k zero bytes.
  function Table0(c: bv32): bv32 { Step8(c) }
  function Table1(c: bv32): bv32 { Step8(Table0(c)) }
  function Table2(c: bv32): bv32 { Step8(Table1(c)) }
  function Table3(c: bv32): bv32 { Step8(Table2(c)) }

  // ---- Division is linear ----

  lemma XorAssociates(a: bv32, b: bv32, c: bv32)
    ensures Xor(Xor(a, b), c) == Xor(a, Xor(b, c))
  {
  }

  lemma XorCommutes(a: bv32, b: bv32)
    ensures Xor(a, b) == Xor(b, a)
  {
  }

  lemma XorCancels(a: bv32, b: bv32)
    ensures Xor(Xor(a, b), b) == a
  {
  }

  lemma HalfXor(a: bv32, b: bv32)
    ensures Half(Xor(a, b)) == Xor(Half(a), Half(b))
  {
  }

  lemma OddXor(a: bv32, b: bv32)
    ensures Odd(Xor(a, b)) <==> Odd(a) != Odd(b)
  {
  }

  lemma XorMoves(a: bv32, b: bv32, p: bv32)
    ensures Xor(Xor(a, p), Xor(b, p)) == Xor(a, b)
    ensures Xor(Xor(a, p), b) == Xor(Xor(a, b), p)
    ensures Xor(a, Xor(b, p)) == Xor(Xor(a, b), p)
  {
    hide Xor;
    XorAssociates(a, p, b);
    XorAssociates(a, b, p);
    XorAssociates(a, p, Xor(b, p));
    XorCommutes(p, b);
    XorCommutes(p, Xor(b, p));
    XorCancels(b, p);
  }

  lemma StepXor(a: bv32, b: bv32)
    ensures Step(Xor(a, b)) == Xor(Step(a), Step(b))
  {
    hide Xor, Odd, Half;
    HalfXor(a, b);
    OddXor(a, b);
    XorMoves(Half(a), Half(b), POLYNOMIAL);
  }

  lemma Step4Xor(a: bv32, b: bv32)
    ensures Step(Step(Step(Step(Xor(a, b))))) == Xor(Step(Step(Step(Step(a)))), Step(Step(Step(Step(b)))))
  {
    hide Step, Xor;
    StepXor(a, b);
    StepXor(Step(a), Step(b));
    StepXor(Step(Step(a)), Step(Step(b)));
    StepXor(Step(Step(Step(a))), Step(Step(Step(b))));
  }

  lemma Step8Xor(a: bv32, b: bv32)
    ensures Step8(Xor(a, b)) == Xor(Step8(a), Step8(b))
  {
    hide Step, Xor;
    Step4Xor(a, b);
    Step4Xor(Step(Step(Step(Step(a)))), Step(Step(Step(Step(b)))));
  }

  // ---- The table form of one byte ----

  lemma EvenStep(a: bv32)
    requires a & 1 == 0
    ensures Step(a) == a >> 1
  {
  }

  lemma TwoZeroBits(a: bv32)
    requires a & 3 == 0
    ensures a & 1 == 0 && (a >> 1) & 1 == 0 && (a >> 1) >> 1 == a >> 2
  {
  }

  lemma TwoShifts(a: bv32)
    requires a & 3 == 0
    ensures Step(Step(a)) == a >> 2
  {
    TwoZeroBits(a);
    EvenStep(a);
    EvenStep(a >> 1);
  }

  lemma FourZeroBits(a: bv32)
    requires a & 0xf == 0
    ensures a & 3 == 0 && (a >> 2) & 3 == 0 && (a >> 2) >> 2 == a >> 4
  {
  }

  lemma FourShifts(a: bv32)
    requires a & 0xf == 0
    ensures Step(Step(Step(Step(a)))) == a >> 4
  {
    FourZeroBits(a);
    TwoShifts(a);
    TwoShifts(a >> 2);
  }

  lemma EightZeroBits(a: bv32)
    requires a & 0xff == 0
    ensures a & 0xf == 0 && (a >> 4) & 0xf == 0 && (a >> 4) >> 4 == a >> 8
  {
  }

  // A register whose low byte is zero is only shifted.
  lemma EightShifts(a: bv32)
    requires a & 0xff == 0
    ensures Step8(a) == a >> 8
  {
    EightZeroBits(a);
    FourShifts(a);
    FourShifts(a >> 4);
  }

  lemma LowAndHigh(a: bv32)
    ensures (a & 0xffff_ff00) & 0xff == 0
    ensures Xor(a & 0xffff_ff00, a & 0xff) == a
    ensures (a & 0xffff_ff00) >> 8 == a >> 8
  {
  }

  lemma TableStep(a: bv32, low: bv32, up: bv32)
    requires low == a & 0xff && up == a >> 8
    ensures Step8(a) == Xor(Table0(low), up)
  {
    var high := a & 0xffff_ff00;
    LowAndHigh(a);
    EightShifts(high);
    hide Step8, Xor;
    Step8Xor(high, low);
    XorCommutes(up, Step8(low));
  }

  // ---- Four bytes at once ----

  function LoadLE32(b0: Byte, b1: Byte, b2: Byte, b3: Byte): bv32 {
    (b0 as bv32) | ((b1 as bv32) << 8) | ((b2 as bv32) << 16) | ((b3 as bv32) << 24)
  }

  // x is left of the register with the next byte of the word in; low goes to a table, and up is
  // left.
  predicate Splits(x: bv32, low: bv32, up: bv32) {
    low == x & 0xff && up == x >> 8
  }

  lemma WordByte0(l: bv32, b0: bv32, b1: bv32, b2: bv32, b3: bv32)
    requires b0 <= 0xff
    ensures Splits(Xor(l, b0), (l ^ (b0 | (b1 << 8) | (b2 << 16) | (b3 << 24))) & 0xff, l >> 8)
  {
  }

  lemma WordByte1(l: bv32, b0: bv32, b1: bv32, b2: bv32, b3: bv32)
    requires b0 <= 0xff && b1 <= 0xff
    ensures Splits(Xor(l >> 8, b1), ((l ^ (b0 | (b1 << 8) | (b2 << 16) | (b3 << 24))) >> 8) & 0xff, l >> 16)
  {
  }

  lemma WordByte2(l: bv32, b0: bv32, b1: bv32, b2: bv32, b3: bv32)
    requires b0 <= 0xff && b1 <= 0xff && b2 <= 0xff
    ensures Splits(Xor(l >> 16, b2), ((l ^ (b0 | (b1 << 8) | (b2 << 16) | (b3 << 24))) >> 16) & 0xff, l >> 24)
  {
  }

  lemma WordByte3(l: bv32, b0: bv32, b1: bv32, b2: bv32, b3: bv32)
    requires b0 <= 0xff && b1 <= 0xff && b2 <= 0xff && b3 <= 0xff
    ensures Xor(l >> 24, b3) == (l ^ (b0 | (b1 << 8) | (b2 << 16) | (b3 << 24))) >> 24
  {
  }

  // Feeding byte b to a register held as Xor(t, u), where u is what is left of the register.
  lemma Round(t: bv32, u: bv32, b: bv32, low: bv32, up: bv32)
    requires Splits(Xor(u, b), low, up)
    ensures Step8(Xor(Xor(t, u), b)) == Xor(Xor(Step8(t), Table0(low)), up)
  {
    hide Step8, Xor, Splits;
    TableStepOf(Xor(u, b), low, up);
    XorAssociates(t, u, b);
    Step8Xor(t, Xor(u, b));
    XorAssociates(Step8(t), Step8(low), up);
  }

  // The lookups of the earlier bytes, carried through the later ones, are lookups in the other
  // tables.
  lemma Carry(c0: bv32, c1: bv32, c2: bv32)
    ensures Step8(Xor(Step8(Xor(Step8(Table0(c0)), Table0(c1))), Table0(c2)))
         == Xor(Xor(Table3(c0), Table2(c1)), Table1(c2))
  {
    hide Step8, Xor;
    Step8Xor(Table1(c0), Table0(c1));
    Step8Xor(Xor(Table2(c0), Table1(c1)), Table0(c2));
    Step8Xor(Table2(c0), Table1(c1));
  }

  lemma FourRounds(l: bv32, w0: bv32, w1: bv32, w2: bv32, w3: bv32, u1: bv32, u2: bv32, u3: bv32, c0: bv32, c1: bv32, c2: bv32, c3: bv32)
    requires Splits(Xor(l, w0), c0, u1) && Splits(Xor(u1, w1), c1, u2) && Splits(Xor(u2, w2), c2, u3) && Xor(u3, w3) == c3
    ensures Step8(Xor(Step8(Xor(Step8(Xor(Step8(Xor(l, w0)), w1)), w2)), w3))
         == Xor(Xor(Xor(Table3(c0), Table2(c1)), Table1(c2)), Table0(c3))
  {
    hide Step8, Xor, Splits;
    TableStepOf(Xor(l, w0), c0, u1);
    Round(Table0(c0), u1, w1, c1, u2);
    Round(Xor(Step8(Table0(c0)), Table0(c1)), u2, w2, c2, u3);
    var t3 := Xor(Step8(Xor(Step8(Table0(c0)), Table0(c1))), Table0(c2));
    XorAssociates(t3, u3, w3);
    Step8Xor(t3, c3);
    Carry(c0, c1, c2);
  }

  lemma TableStepOf(a: bv32, low: bv32, up: bv32)
    requires Splits(a, low, up)
    ensures Step8(a) == Xor(Table0(low), up)
  {
    TableStep(a, low, up);
  }

  lemma WordBytes(l: bv32, b0: Byte, b1: Byte, b2: Byte, b3: Byte, c: bv32)
    requires c == l ^ LoadLE32(b0, b1, b2, b3)
    ensures Splits(Xor(l, b0 as bv32), c & 0xff, l >> 8)
    ensures Splits(Xor(l >> 8, b1 as bv32), (c >> 8) & 0xff, l >> 16)
    ensures Splits(Xor(l >> 16, b2 as bv32), (c >> 16) & 0xff, l >> 24)
    ensures Xor(l >> 24, b3 as bv32) == c >> 24
  {
    hide Splits, Xor;
    var w0, w1, w2, w3 := b0 as bv32, b1 as bv32, b2 as bv32, b3 as bv32;
    WordByte0(l, w0, w1, w2, w3);
    WordByte1(l, w0, w1, w2, w3);
    WordByte2(l, w0, w1, w2, w3);
    WordByte3(l, w0, w1, w2, w3);
  }

  // STEP4
  method Step4(l: bv32, b0: Byte, b1: Byte, b2: Byte, b3: Byte) returns (r: bv32)
    ensures r == Feed(l, [b0, b1, b2, b3])
  {
    hide Step8, Xor, Splits, Feed, LoadLE32;
    var c := l ^ LoadLE32(b0, b1, b2, b3);
    r := Xor(Xor(Xor(Table3(c & 0xff), Table2((c >> 8) & 0xff)), Table1((c >> 16) & 0xff)), Table0(c >> 24));
    WordBytes(l, b0, b1, b2, b3, c);
    FourRounds(l, b0 as bv32, b1 as bv32, b2 as bv32, b3 as bv32, l >> 8, l >> 16, l >> 24, c & 0xff, (c >> 8) & 0xff, (c >> 16) & 0xff, c >> 24);
    FeedFour(l, b0, b1, b2, b3);
  }

  lemma FeedFour(l: bv32, b0: Byte, b1: Byte, b2: Byte, b3: Byte)
    ensures Feed(l, [b0, b1, b2, b3])
         == Step8(Xor(Step8(Xor(Step8(Xor(Step8(Xor(l, b0 as bv32)), b1 as bv32)), b2 as bv32)), b3 as bv32))
  {
    hide Step8, Xor;
    assert [b0][..0] == [] && [b0, b1][..1] == [b0] && [b0, b1, b2][..2] == [b0, b1] && [b0, b1, b2, b3][..3] == [b0, b1, b2];
    assert Feed(l, [b0]) == Step8(Xor(l, b0 as bv32));
    assert Feed(l, [b0, b1]) == Step8(Xor(Feed(l, [b0]), b1 as bv32));
    assert Feed(l, [b0, b1, b2]) == Step8(Xor(Feed(l, [b0, b1]), b2 as bv32));
  }

  lemma Step1Bits(l: bv32, b: bv32)
    requires b <= 0xff
    ensures Splits(Xor(l, b), (l & 0xff) ^ b, l >> 8)
  {
  }

  // STEP1
  method Step1(l: bv32, b: Byte) returns (r: bv32)
    ensures r == Feed(l, [b])
  {
    var index := (l & 0xff) ^ (b as bv32);
    r := Xor(Table0(index), l >> 8);
    Step1Bits(l, b as bv32);
    hide Step8, Xor, Splits;
    TableStepOf(Xor(l, b as bv32), index, l >> 8);
    assert [b][..0] == [];
  }

  // ---- Buffers ----

  lemma {:induction false} FeedAppends(l: bv32, s: seq<Byte>, t: seq<Byte>)
    ensures Feed(l, s + t) == Feed(Feed(l, s), t)
  {
    hide Step8, Xor;
    if t == [] {
      assert s + t == s;
    } else {
      var n := |t| - 1;
      assert (s + t)[..|s + t| - 1] == s + t[..n];
      FeedAppends(l, s, t[..n]);
    }
  }

  // Extending in two calls is extending once.
  lemma ExtendComposes(crc: bv32, s: seq<Byte>, t: seq<Byte>)
    ensures Extended(Extended(crc, s), t) == Extended(crc, s + t)
  {
    hide Feed, Step8;
    XorCancels(Feed(Xor(crc, 0xffff_ffff), s), 0xffff_ffff);
    FeedAppends(Xor(crc, 0xffff_ffff), s, t);
  }

  lemma FedOn(l0: bv32, buf: seq<Byte>, p: nat, q: nat)
    requires p <= q <= |buf|
    ensures Feed(l0, buf[..q]) == Feed(Feed(l0, buf[..p]), buf[p..q])
  {
    assert buf[..q] == buf[..p] + buf[p..q];
    FeedAppends(l0, buf[..p], buf[p..q]);
  }

  // Whatever the address of the buffer modulo 4, the register after it is the bytewise one.
  method Extend(crc: bv32, buf: seq<Byte>, address: nat) returns (r: bv32)
    ensures r == Extended(crc, buf)
  {
    hide Feed, Step8;
    var e := |buf|;
    var p := 0;
    var l := Xor(crc, 0xffff_ffff);
    ghost var l0 := l;
    assert buf[..0] == [];
    FeedNone(l0);
    // The first 4-byte aligned byte.
    var x := (address + 3) / 4 * 4 - address;
    if x <= e {
      l, p := Bytewise(l, buf, p, x, l0);
    }
    while e - p >= 16
      invariant p <= e && l == Feed(l0, buf[..p])
    {
      l, p := Word(l, buf, p, l0);
      l, p := Word(l, buf, p, l0);
      l, p := Word(l, buf, p, l0);
      l, p := Word(l, buf, p, l0);
    }
    while e - p >= 4
      invariant p <= e && l == Feed(l0, buf[..p])
    {
      l, p := Word(l, buf, p, l0);
    }
    l, p := Bytewise(l, buf, p, e, l0);
    assert buf[..e] == buf;
    r := Xor(l, 0xffff_ffff);
  }

  lemma FeedNone(l: bv32)
    ensures Feed(l, []) == l
  {
  }

  // STEP4 at p.
  method Word(l: bv32, buf: seq<Byte>, p: nat, ghost l0: bv32) returns (l': bv32, p': nat)
    requires p + 4 <= |buf| && l == Feed(l0, buf[..p])
    ensures p' == p + 4 && l' == Feed(l0, buf[..p'])
  {
    hide Feed;
    l' := Step4(l, buf[p], buf[p + 1], buf[p + 2], buf[p + 3]);
    p' := p + 4;
    assert buf[p..p'] == [buf[p], buf[p + 1], buf[p + 2], buf[p + 3]];
    FedOn(l0, buf, p, p');
  }

  // STEP1 up to x.
  method Bytewise(l: bv32, buf: seq<Byte>, p: nat, x: nat, ghost l0: bv32) returns (l': bv32, p': nat)
    requires p <= x <= |buf| && l == Feed(l0, buf[..p])
    ensures p' == x && l' == Feed(l0, buf[..x])
  {
    hide Feed;
    l', p' := l, p;
    while p' != x
      invariant p <= p' <= x && l' == Feed(l0, buf[..p'])
      decreases x - p'
    {
      FedOn(l0, buf, p', p' + 1);
      assert buf[p'..p' + 1] == [buf[p']];
      l' := Step1(l', buf[p']);
      p' := p' + 1;
    }
  }

  // ---- Known values ----

  // What a byte c picks of eight words, one for each bit, least significant first.
  function Pick(c: bv32, m: bv32, v: bv32): bv32 {
    if c & m == m then v else 0
  }

  function Mix(c: bv32, v0: bv32, v1: bv32, v2: bv32, v3: bv32, v4: bv32, v5: bv32, v6: bv32, v7: bv32): bv32 {
    Xor(Xor(Xor(Xor(Xor(Xor(Xor(Pick(c, 1, v0), Pick(c, 2, v1)), Pick(c, 4, v2)), Pick(c, 8, v3)),
                    Pick(c, 16, v4)), Pick(c, 32, v5)), Pick(c, 64, v6)), Pick(c, 128, v7))
  }

  lemma PickStep(c: bv32, m: bv32, v: bv32)
    ensures Step8(Pick(c, m, v)) == Pick(c, m, Step8(v))
  {
    assert Step8(0) == 0;
    hide Step8;
  }

  lemma MixStep(c: bv32, v0: bv32, v1: bv32, v2: bv32, v3: bv32, v4: bv32, v5: bv32, v6: bv32, v7: bv32)
    ensures Step8(Mix(c, v0, v1, v2, v3, v4, v5, v6, v7))
         == Mix(c, Step8(v0), Step8(v1), Step8(v2), Step8(v3), Step8(v4), Step8(v5), Step8(v6), Step8(v7))
  {
    hide Step8, Xor, Pick;
    var p0, p1, p2, p3 := Pick(c, 1, v0), Pick(c, 2, v1), Pick(c, 4, v2), Pick(c, 8, v3);
    var p4, p5, p6, p7 := Pick(c, 16, v4), Pick(c, 32, v5), Pick(c, 64, v6), Pick(c, 128, v7);
    PickStep(c, 1, v0);
    PickStep(c, 2, v1);
    PickStep(c, 4, v2);
    PickStep(c, 8, v3);
    PickStep(c, 16, v4);
    PickStep(c, 32, v5);
    PickStep(c, 64, v6);
    PickStep(c, 128, v7);
    var q := Xor(Xor(Xor(p0, p1), p2), p3);
    Step8Xor(p0, p1);
    Step8Xor(Xor(p0, p1), p2);
    Step8Xor(Xor(Xor(p0, p1), p2), p3);
    Step8Xor(q, p4);
    Step8Xor(Xor(q, p4), p5);
    Step8Xor(Xor(Xor(q, p4), p5), p6);
    Step8Xor(Xor(Xor(Xor(q, p4), p5), p6), p7);
  }

  lemma MixBits(c: bv32)
    requires c <= 0xff
    ensures Mix(c, 1, 2, 4, 8, 16, 32, 64, 128) == c
  {
  }

  // The entries of table0_: combinations of those at the powers of two.
  lemma Table0Is(c: bv32)
    requires c <= 0xff
    ensures Table0(c) == Mix(c, 0xf26b_8303, 0xe13b_70f7, 0xc79a_971f, 0x8ad9_58cf,
                           0x105e_c76f, 0x20bd_8ede, 0x417b_1dbc, 0x82f6_3b78)
  {
    assert Step8(1) == 0xf26b_8303;
    assert Step8(2) == 0xe13b_70f7;
    assert Step8(4) == 0xc79a_971f;
    assert Step8(8) == 0x8ad9_58cf;
    assert Step8(16) == 0x105e_c76f;
    assert Step8(32) == 0x20bd_8ede;
    assert Step8(64) == 0x417b_1dbc;
    assert Step8(128) == 0x82f6_3b78;
    hide Step8, Mix;
    MixBits(c);
    MixStep(c, 1, 2, 4, 8, 16, 32, 64, 128);
  }

  // The entries of table1_: combinations of those at the powers of two.
  lemma Table1Is(c: bv32)
    requires c <= 0xff
    ensures Table1(c) == Mix(c, 0x13a2_9877, 0x2745_30ee, 0x4e8a_61dc, 0x9d14_c3b8,
                           0x3fc5_f181, 0x7f8b_e302, 0xff17_c604, 0xfbc3_faf9)
  {
    assert Step8(0xf26b_8303) == 0x13a2_9877;
    assert Step8(0xe13b_70f7) == 0x2745_30ee;
    assert Step8(0xc79a_971f) == 0x4e8a_61dc;
    assert Step8(0x8ad9_58cf) == 0x9d14_c3b8;
    assert Step8(0x105e_c76f) == 0x3fc5_f181;
    assert Step8(0x20bd_8ede) == 0x7f8b_e302;
    assert Step8(0x417b_1dbc) == 0xff17_c604;
    assert Step8(0x82f6_3b78) == 0xfbc3_faf9;
    hide Step8, Mix;
    Table0Is(c);
    MixStep(c, 0xf26b_8303, 0xe13b_70f7, 0xc79a_971f, 0x8ad9_58cf, 0x105e_c76f, 0x20bd_8ede, 0x417b_1dbc, 0x82f6_3b78);
  }

  // The entries of table2_: combinations of those at the powers of two.
  lemma Table2Is(c: bv32)
    requires c <= 0xff
    ensures Table2(c) == Mix(c, 0xa541_927e, 0x4f6f_520d, 0x9ede_a41a, 0x3851_3ec5,
                           0x70a2_7d8a, 0xe144_fb14, 0xc765_80d9, 0x8b27_7743)
  {
    assert Step8(0x13a2_9877) == 0xa541_927e;
    assert Step8(0x2745_30ee) == 0x4f6f_520d;
    assert Step8(0x4e8a_61dc) == 0x9ede_a41a;
    assert Step8(0x9d14_c3b8) == 0x3851_3ec5;
    assert Step8(0x3fc5_f181) == 0x70a2_7d8a;
    assert Step8(0x7f8b_e302) == 0xe144_fb14;
    assert Step8(0xff17_c604) == 0xc765_80d9;
    assert Step8(0xfbc3_faf9) == 0x8b27_7743;
    hide Step8, Mix;
    Table1Is(c);
    MixStep(c, 0x13a2_9877, 0x2745_30ee, 0x4e8a_61dc, 0x9d14_c3b8, 0x3fc5_f181, 0x7f8b_e302, 0xff17_c604, 0xfbc3_faf9);
  }

  // The entries of table3_: combinations of those at the powers of two.
  lemma Table3Is(c: bv32)
    requires c <= 0xff
    ensures Table3(c) == Mix(c, 0xdd45_aab8, 0xbf67_2381, 0x7b22_31f3, 0xf644_63e6,
                           0xe964_b13d, 0xd725_148b, 0xaba6_5fe7, 0x52a0_c93f)
  {
    assert Step8(0xa541_927e) == 0xdd45_aab8;
    assert Step8(0x4f6f_520d) == 0xbf67_2381;
    assert Step8(0x9ede_a41a) == 0x7b22_31f3;
    assert Step8(0x3851_3ec5) == 0xf644_63e6;
    assert Step8(0x70a2_7d8a) == 0xe964_b13d;
    assert Step8(0xe144_fb14) == 0xd725_148b;
    assert Step8(0xc765_80d9) == 0xaba6_5fe7;
    assert Step8(0x8b27_7743) == 0x52a0_c93f;
    hide Step8, Mix;
    Table2Is(c);
    MixStep(c, 0xa541_927e, 0x4f6f_520d, 0x9ede_a41a, 0x3851_3ec5, 0x70a2_7d8a, 0xe144_fb14, 0xc765_80d9, 0x8b27_7743);
  }

  lemma FeedNext(l: bv32, s: seq<Byte>, r: bv32, b: Byte, r': bv32)
    requires Feed(l, s) == r && Step8(Xor(r, b as bv32)) == r'
    ensures Feed(l, s + [b]) == r'
  {
    hide Step8, Xor;
    assert (s + [b])[..|s|] == s;
  }

  const DIGITS: seq<Byte> := [0x31, 0x32, 0x33, 0x34, 0x35, 0x36, 0x37, 0x38, 0x39]

  lemma DigitFed(k: nat, r: bv32, b: bv32, r': bv32)
    requires k < |DIGITS| && DIGITS[k] as bv32 == b && Feed(0xffff_ffff, DIGITS[..k]) == r && Step8(Xor(r, b)) == r'
    ensures Feed(0xffff_ffff, DIGITS[..k + 1]) == r'
  {
    hide Feed, Step8, Xor;
    FeedNext(0xffff_ffff, DIGITS[..k], r, DIGITS[k], r');
    assert DIGITS[..k] + [DIGITS[k]] == DIGITS[..k + 1];
  }

  lemma DigitSteps5()
    ensures Step8(Xor(0xffff_ffff, 0x31)) == 0x6f0a_661c
    ensures Step8(Xor(0x6f0a_661c, 0x32)) == 0x8caa_3b9f
    ensures Step8(Xor(0x8caa_3b9f, 0x33)) == 0xef84_d04d
    ensures Step8(Xor(0xef84_d04d, 0x34)) == 0x09c5_0b11
    ensures Step8(Xor(0x09c5_0b11, 0x35)) == 0xe72e_dcca
  {
  }

  lemma DigitsFed5()
    ensures Feed(0xffff_ffff, DIGITS[..5]) == 0xe72e_dcca
  {
    hide Step8, Xor;
    DigitSteps5();
    assert DIGITS[..0] == [];
    FeedNone(0xffff_ffff);
    hide Feed;
    DigitFed(0, 0xffff_ffff, 0x31, 0x6f0a_661c);
    DigitFed(1, 0x6f0a_661c, 0x32, 0x8caa_3b9f);
    DigitFed(2, 0x8caa_3b9f, 0x33, 0xef84_d04d);
    DigitFed(3, 0xef84_d04d, 0x34, 0x09c5_0b11);
    DigitFed(4, 0x09c5_0b11, 0x35, 0xe72e_dcca);
  }

  lemma DigitSteps9()
    ensures Step8(Xor(0xe72e_dcca, 0x36)) == 0xbeca_8e79
    ensures Step8(Xor(0xbeca_8e79, 0x37)) == 0xedbd_6815
    ensures Step8(Xor(0xedbd_6815, 0x38)) == 0x9f78_7f65
    ensures Step8(Xor(0x9f78_7f65, 0x39)) == 0x1cf9_6d7c
  {
  }

  lemma DigitsFed9()
    ensures Feed(0xffff_ffff, DIGITS[..9]) == 0x1cf9_6d7c
  {
    hide Step8, Xor, Feed;
    DigitSteps9();
    DigitsFed5();
    DigitFed(5, 0xe72e_dcca, 0x36, 0xbeca_8e79);
    DigitFed(6, 0xbeca_8e79, 0x37, 0xedbd_6815);
    DigitFed(7, 0xedbd_6815, 0x38, 0x9f78_7f65);
    DigitFed(8, 0x9f78_7f65, 0x39, 0x1cf9_6d7c);
  }

  // The check value of CRC-32C: that of the digits 1 to 9.
  lemma CheckValue()
    ensures Extended(0, DIGITS) == 0xe306_9283
  {
    hide Feed;
    DigitsFed9();
    assert DIGITS[..9] == DIGITS;
  }

  function ZeroBytes(n: nat): (s: seq<Byte>)
    ensures |s| == n
  {
    seq(n, _ => 0)
  }

  lemma ZeroFed(n: nat, r: bv32, r': bv32)
    requires Feed(0xffff_ffff, ZeroBytes(n)) == r && Step8(Xor(r, 0)) == r'
    ensures Feed(0xffff_ffff, ZeroBytes(n + 1)) == r'
  {
    hide Feed, Step8, Xor;
    FeedNext(0xffff_ffff, ZeroBytes(n), r, 0, r');
    assert ZeroBytes(n) + [0] == ZeroBytes(n + 1);
  }

  lemma ZerosFed8()
    ensures Feed(0xffff_ffff, ZeroBytes(8)) == 0x73d7_4d75
  {
    assert Step8(Xor(0xffff_ffff, 0)) == 0xad82_acae;
    assert Step8(Xor(0xad82_acae, 0)) == 0x0e9e_882d;
    assert Step8(Xor(0x0e9e_882d, 0)) == 0x9f9b_5c85;
    assert Step8(Xor(0x9f9b_5c85, 0)) == 0xb798_b438;
    assert Step8(Xor(0xb798_b438, 0)) == 0xba8d_89ca;
    assert Step8(Xor(0xba8d_89ca, 0)) == 0xa8d5_8375;
    assert Step8(Xor(0xa8d5_8375, 0)) == 0x44c1_9592;
    assert Step8(Xor(0x44c1_9592, 0)) == 0x73d7_4d75;
    assert ZeroBytes(0) == [];
    FeedNone(0xffff_ffff);
    hide Feed, Step8, Xor;
    ZeroFed(0, 0xffff_ffff, 0xad82_acae);
    ZeroFed(1, 0xad82_acae, 0x0e9e_882d);
    ZeroFed(2, 0x0e9e_882d, 0x9f9b_5c85);
    ZeroFed(3, 0x9f9b_5c85, 0xb798_b438);
    ZeroFed(4, 0xb798_b438, 0xba8d_89ca);
    ZeroFed(5, 0xba8d_89ca, 0xa8d5_8375);
    ZeroFed(6, 0xa8d5_8375, 0x44c1_9592);
    ZeroFed(7, 0x44c1_9592, 0x73d7_4d75);
  }

  lemma ZerosFed16()
    ensures Feed(0xffff_ffff, ZeroBytes(16)) == 0xbd8f_6515
  {
    assert Step8(Xor(0x73d7_4d75, 0)) == 0x441a_975c;
    assert Step8(Xor(0x441a_975c, 0)) == 0x1c22_0f94;
    assert Step8(Xor(0x1c22_0f94, 0)) == 0x552e_4907;
    assert Step8(Xor(0x552e_4907, 0)) == 0xd49f_4aa2;
    assert Step8(Xor(0xd49f_4aa2, 0)) == 0x43a4_5a1b;
    assert Step8(Xor(0x43a4_5a1b, 0)) == 0x8994_c80e;
    assert Step8(Xor(0x8994_c80e, 0)) == 0xacf1_2bef;
    assert Step8(Xor(0xacf1_2bef, 0)) == 0xbd8f_6515;
    ZerosFed8();
    hide Feed, Step8, Xor;
    ZeroFed(8, 0x73d7_4d75, 0x441a_975c);
    ZeroFed(9, 0x441a_975c, 0x1c22_0f94);
    ZeroFed(10, 0x1c22_0f94, 0x552e_4907);
    ZeroFed(11, 0x552e_4907, 0xd49f_4aa2);
    ZeroFed(12, 0xd49f_4aa2, 0x43a4_5a1b);
    ZeroFed(13, 0x43a4_5a1b, 0x8994_c80e);
    ZeroFed(14, 0x8994_c80e, 0xacf1_2bef);
    ZeroFed(15, 0xacf1_2bef, 0xbd8f_6515);
  }

  lemma ZerosFed24()
    ensures Feed(0xffff_ffff, ZeroBytes(24)) == 0x7b04_1311
  {
    assert Step8(Xor(0xbd8f_6515, 0)) == 0x2512_5c16;
    assert Step8(Xor(0x2512_5c16, 0)) == 0x36da_32db;
    assert Step8(Xor(0x36da_32db, 0)) == 0x4a6c_90a2;
    assert Step8(Xor(0x4a6c_90a2, 0)) == 0x433a_a9c1;
    assert Step8(Xor(0x433a_a9c1, 0)) == 0x31a5_9f6e;
    assert Step8(Xor(0x31a5_9f6e, 0)) == 0xcd8f_89da;
    assert Step8(Xor(0xcd8f_89da, 0)) == 0xb8fc_461a;
    assert Step8(Xor(0xb8fc_461a, 0)) == 0x7b04_1311;
    ZerosFed16();
    hide Feed, Step8, Xor;
    ZeroFed(16, 0xbd8f_6515, 0x2512_5c16);
    ZeroFed(17, 0x2512_5c16, 0x36da_32db);
    ZeroFed(18, 0x36da_32db, 0x4a6c_90a2);
    ZeroFed(19, 0x4a6c_90a2, 0x433a_a9c1);
    ZeroFed(20, 0x433a_a9c1, 0x31a5_9f6e);
    ZeroFed(21, 0x31a5_9f6e, 0xcd8f_89da);
    ZeroFed(22, 0xcd8f_89da, 0xb8fc_461a);
    ZeroFed(23, 0xb8fc_461a, 0x7b04_1311);
  }

  lemma ZerosFed32()
    ensures Feed(0xffff_ffff, ZeroBytes(32)) == 0x756e_c955
  {
    assert Step8(Xor(0x7b04_1311, 0)) == 0xe24e_407f;
    assert Step8(Xor(0xe24e_407f, 0)) == 0x2f69_2669;
    assert Step8(Xor(0x2f69_2669, 0)) == 0x195b_2188;
    assert Step8(Xor(0x195b_2188, 0)) == 0x0836_3896;
    assert Step8(Xor(0x0836_3896, 0)) == 0xb401_2dc7;
    assert Step8(Xor(0xb401_2dc7, 0)) == 0x17f3_4302;
    assert Step8(Xor(0x17f3_4302, 0)) == 0xe12c_83b4;
    assert Step8(Xor(0xe12c_83b4, 0)) == 0x756e_c955;
    ZerosFed24();
    hide Feed, Step8, Xor;
    ZeroFed(24, 0x7b04_1311, 0xe24e_407f);
    ZeroFed(25, 0xe24e_407f, 0x2f69_2669);
    ZeroFed(26, 0x2f69_2669, 0x195b_2188);
    ZeroFed(27, 0x195b_2188, 0x0836_3896);
    ZeroFed(28, 0x0836_3896, 0xb401_2dc7);
    ZeroFed(29, 0xb401_2dc7, 0x17f3_4302);
    ZeroFed(30, 0x17f3_4302, 0xe12c_83b4);
    ZeroFed(31, 0xe12c_83b4, 0x756e_c955);
  }

  // The value section B.4 of RFC 3720 gives for 32 bytes of zeros.
  lemma ZerosValue()
    ensures Extended(0, ZeroBytes(32)) == 0x8a91_36aa
  {
    hide Feed;
    ZerosFed32();
  }
}
