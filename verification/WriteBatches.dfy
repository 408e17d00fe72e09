// db/write_batch.cpp: a batch of updates as the bytes of one log record.
module WriteBatches {
  import opened Options
  import opened Coding

  datatype Op = Put(key: seq<byte>, value: seq<byte>) | Delete(key: seq<byte>)

  datatype Status = Ok | TooSmall | BadPut | BadDelete | UnknownTag | WrongCount

  const HEADER: nat := 12
  const TYPE_DELETION: byte := 0
  const TYPE_VALUE: byte := 1
  // The count is handled as a 32-bit int.
  const TWO_31: nat := 0x8000_0000

  // Slices are written with a 32-bit length.
  predicate Fits(op: Op) {
    |op.key| < TWO_32 && (op.Put? ==> |op.value| < TWO_32)
  }

  ghost predicate AllFit(ops: seq<Op>) {
    forall i :: 0 <= i < |ops| ==> Fits(ops[i])
  }

  lemma AllFitConcat(a: seq<Op>, b: seq<Op>)
    requires AllFit(a) && AllFit(b)
    ensures AllFit(a + b)
  {
  }

  function EncodeOp(op: Op): (s: seq<byte>)
    ensures |s| > 0
  {
    match op
    case Put(key, value) => [TYPE_VALUE] + LengthPrefixed(key) + LengthPrefixed(value)
    case Delete(key) => [TYPE_DELETION] + LengthPrefixed(key)
  }

  function EncodeOps(ops: seq<Op>): seq<byte> {
    if |ops| == 0 then [] else EncodeOp(ops[0]) + EncodeOps(ops[1..])
  }

  // rep_: sequence number, count, operations.
  function Contents(first: nat, ops: seq<Op>): (s: seq<byte>)
    ensures |s| >= HEADER
  {
    Fixed(first, 8) + Fixed(|ops|, 4) + EncodeOps(ops)
  }

  lemma {:induction false} EncodeOpsConcat(a: seq<Op>, b: seq<Op>)
    ensures EncodeOps(a + b) == EncodeOps(a) + EncodeOps(b)
  {
    if |a| == 0 {
      assert a + b == b;
    } else {
      assert (a + b)[1..] == a[1..] + b;
      EncodeOpsConcat(a[1..], b);
    }
  }

  // One turn of Iterate's loop: the operation handed to the handler, and what is left.
  datatype Parsed = Parsed(op: Op, rest: seq<byte>) | Failed(status: Status)

  function ParseOp(input: seq<byte>): (p: Parsed)
    requires |input| > 0
    ensures p.Parsed? ==> |p.rest| < |input|
    ensures p.Failed? ==> p.status != Ok
  {
    if input[0] == TYPE_VALUE then
      match GetLengthPrefixed(input[1..])
      case None => Failed(BadPut)
      case Some((key, rest)) =>
        match GetLengthPrefixed(rest)
        case None => Failed(BadPut)
        case Some((value, rest')) => Parsed(Put(key, value), rest')
    else if input[0] == TYPE_DELETION then
      match GetLengthPrefixed(input[1..])
      case None => Failed(BadDelete)
      case Some((key, rest)) => Parsed(Delete(key), rest)
    else Failed(UnknownTag)
  }

  // What Iterate hands to its handler, and whether every tag and length was good.
  function ParseOps(input: seq<byte>): (r: (seq<Op>, Status))
    decreases |input|
  {
    if |input| == 0 then ([], Ok)
    else match ParseOp(input)
      case Failed(status) => ([], status)
      case Parsed(op, rest) => var (ops, status) := ParseOps(rest); ([op] + ops, status)
  }

  function CountOf(rep: seq<byte>): int
    requires |rep| >= HEADER
  {
    var n := DecodeFixed(rep[8..12]);
    if n < TWO_31 then n else n - TWO_32
  }

  function SequenceOf(rep: seq<byte>): nat
    requires |rep| >= HEADER
  {
    DecodeFixed(rep[..8])
  }

  function Body(rep: seq<byte>): seq<byte>
    requires |rep| >= HEADER
  {
    rep[HEADER..]
  }

  function WithCount(rep: seq<byte>, n: nat): seq<byte>
    requires |rep| >= HEADER
  {
    rep[..8] + Fixed(n, 4) + rep[HEADER..]
  }

  function Iterated(rep: seq<byte>): (seq<Op>, Status) {
    if |rep| < HEADER then ([], TooSmall)
    else
      var (ops, status) := ParseOps(rep[HEADER..]);
      if status == Ok && |ops| != CountOf(rep) then (ops, WrongCount) else (ops, status)
  }

  lemma ParseOpInverts(op: Op, rest: seq<byte>)
    requires Fits(op)
    ensures ParseOp(EncodeOp(op) + rest) == Parsed(op, rest)
  {
    hide LengthPrefixed, GetLengthPrefixed;
    var s := EncodeOp(op) + rest;
    match op
    case Delete(key) =>
      LengthPrefixedRoundTrip(key, rest);
      assert s[1..] == LengthPrefixed(key) + rest;
    case Put(key, value) =>
      LengthPrefixedRoundTrip(key, LengthPrefixed(value) + rest);
      LengthPrefixedRoundTrip(value, rest);
      assert s[1..] == LengthPrefixed(key) + (LengthPrefixed(value) + rest);
  }

  lemma {:induction false} ParseOpsInverts(ops: seq<Op>)
    requires AllFit(ops)
    ensures ParseOps(EncodeOps(ops)) == (ops, Ok)
  {
    hide ParseOp, EncodeOp, Fits;
    if |ops| > 0 {
      ParseOpInverts(ops[0], EncodeOps(ops[1..]));
      ParseOpsInverts(ops[1..]);
      assert ops == [ops[0]] + ops[1..];
    }
  }

  // A batch read back hands over the operations added to it, under the numbers it was given.
  lemma ContentsRoundTrip(first: nat, ops: seq<Op>)
    requires AllFit(ops) && first < TWO_64 && |ops| < TWO_31
    ensures Iterated(Contents(first, ops)) == (ops, Ok)
    ensures SequenceOf(Contents(first, ops)) == first && CountOf(Contents(first, ops)) == |ops|
  {
    var rep := Contents(first, ops);
    ContentsParts(first, ops);
    Fixed64RoundTrip(first);
    Fixed32RoundTrip(|ops|);
    ParseOpsInverts(ops);
  }

  class WriteBatch {
    var rep: seq<byte>
    // The operations added, and the number of the first.
    ghost var first: nat
    ghost var ops: seq<Op>

    constructor ()
      ensures Valid() && first == 0 && ops == []
    {
      rep := Zeros(HEADER);
      first := 0;
      ops := [];
      ZeroHeader();
    }

    ghost predicate Valid()
      reads this
    {
      rep == Contents(first, ops) && AllFit(ops) && |ops| < TWO_31 && first < TWO_64
    }

    function Count(): int
      requires |rep| >= HEADER
      reads this
    {
      CountOf(rep)
    }

    function Sequence(): nat
      requires |rep| >= HEADER
      reads this
    {
      SequenceOf(rep)
    }

    method SetCount(n: nat)
      requires |rep| >= HEADER
      modifies this`rep
      ensures rep == WithCount(old(rep), n)
    {
      rep := rep[..8] + Fixed(n, 4) + rep[HEADER..];
    }

    method SetSequence(n: nat)
      requires Valid() && n < TWO_64
      modifies this
      ensures Valid() && first == n && ops == old(ops)
    {
      rep := Fixed(n, 8) + rep[8..];
      first := n;
      assert rep == Contents(first, ops);
    }

    method Clear()
      modifies this
      ensures Valid() && first == 0 && ops == []
    {
      rep := Zeros(HEADER);
      first := 0;
      ops := [];
      ZeroHeader();
    }

    method Put(key: seq<byte>, value: seq<byte>)
      requires Valid() && |ops| + 1 < TWO_31 && Fits(Op.Put(key, value))
      modifies this
      ensures Valid() && first == old(first) && ops == old(ops) + [Op.Put(key, value)]
    {
      hide CountOf, Contents, LengthPrefixed, WithCount, Fits;
      ContentsRoundTrip(first, ops);
      GrownByOne(first, ops, Op.Put(key, value));
      SetCount(Count() + 1);
      Regroup(rep, [TYPE_VALUE], LengthPrefixed(key), LengthPrefixed(value));
      rep := rep + [TYPE_VALUE];
      rep := rep + LengthPrefixed(key);
      rep := rep + LengthPrefixed(value);
      ops := ops + [Op.Put(key, value)];
    }

    method Delete(key: seq<byte>)
      requires Valid() && |ops| + 1 < TWO_31 && Fits(Op.Delete(key))
      modifies this
      ensures Valid() && first == old(first) && ops == old(ops) + [Op.Delete(key)]
    {
      hide CountOf, Contents, LengthPrefixed, WithCount, Fits;
      ContentsRoundTrip(first, ops);
      GrownByOne(first, ops, Op.Delete(key));
      SetCount(Count() + 1);
      Regroup(rep, [TYPE_DELETION], LengthPrefixed(key), []);
      rep := rep + [TYPE_DELETION];
      rep := rep + LengthPrefixed(key);
      ops := ops + [Op.Delete(key)];
    }

    method Append(src: WriteBatch)
      requires Valid() && src.Valid() && src != this && |ops| + |src.ops| < TWO_31
      modifies this
      ensures Valid() && first == old(first) && ops == old(ops) + src.ops
    {
      hide CountOf, Contents, WithCount, AllFit, Body, Iterated, SequenceOf;
      ContentsRoundTrip(first, ops);
      ContentsRoundTrip(src.first, src.ops);
      Grown(first, ops, src.first, src.ops);
      AllFitConcat(ops, src.ops);
      SetCount(Count() + src.Count());
      rep := rep + Body(src.rep);
      ops := ops + src.ops;
    }

    // Calls the handler for each operation in turn: handled is what it was called with.
    method Iterate() returns (handled: seq<Op>, status: Status)
      ensures (handled, status) == Iterated(rep)
    {
      hide GetLengthPrefixed, CountOf;
      handled := [];
      if |rep| < HEADER {
        return [], TooSmall;
      }
      var input := rep[HEADER..];
      var found := 0;
      assert [] + ParseOps(input).0 == ParseOps(input).0;
      while |input| > 0
        invariant found == |handled|
        invariant var (rest, s) := ParseOps(input); ParseOps(rep[HEADER..]) == (handled + rest, s)
        decreases |input|
      {
        ghost var was := input;
        assert handled + [] == handled;
        found := found + 1;
        var tag := input[0];
        input := input[1..];
        if tag == TYPE_VALUE {
          var k := GetLengthPrefixed(input);
          var v := if k.Some? then GetLengthPrefixed(k.value.1) else None;
          if v.None? {
            return handled, BadPut;
          }
          handled := handled + [Op.Put(k.value.0, v.value.0)];
          input := v.value.1;
        } else if tag == TYPE_DELETION {
          var k := GetLengthPrefixed(input);
          if k.None? {
            return handled, BadDelete;
          }
          handled := handled + [Op.Delete(k.value.0)];
          input := k.value.1;
        } else {
          return handled, UnknownTag;
        }
        ghost var op := handled[|handled| - 1];
        assert ParseOp(was) == Parsed(op, input);
        ghost var rest := ParseOps(input).0;
        assert handled + rest == handled[..|handled| - 1] + ([op] + rest);
      }
      assert handled + [] == handled;
      status := if found != CountOf(rep) then WrongCount else Ok;
    }
  }

  lemma ZeroHeader()
    ensures Zeros(HEADER) == Contents(0, [])
  {
    FixedZero(8);
    FixedZero(4);
  }

  lemma {:induction false} FixedZero(n: nat)
    ensures Fixed(0, n) == Zeros(n)
  {
    if n > 0 {
      FixedZero(n - 1);
    }
  }

  lemma Grown(first: nat, ops: seq<Op>, srcFirst: nat, more: seq<Op>)
    ensures Contents(first, ops + more)
         == WithCount(Contents(first, ops), |ops| + |more|) + Body(Contents(srcFirst, more))
  {
    hide EncodeOps, Fixed;
    EncodeOpsConcat(ops, more);
    ContentsParts(first, ops);
    ContentsParts(srcFirst, more);
    Regroup(Fixed(first, 8), Fixed(|ops| + |more|, 4), EncodeOps(ops), EncodeOps(more));
  }

  lemma ContentsParts(first: nat, ops: seq<Op>)
    ensures Contents(first, ops)[..8] == Fixed(first, 8) && Contents(first, ops)[8..HEADER] == Fixed(|ops|, 4)
    ensures Contents(first, ops)[HEADER..] == EncodeOps(ops)
  {
  }

  lemma GrownByOne(first: nat, ops: seq<Op>, op: Op)
    ensures Contents(first, ops + [op])
         == WithCount(Contents(first, ops), |ops| + 1) + EncodeOp(op)
  {
    Grown(first, ops, 0, [op]);
    assert EncodeOps([op]) == EncodeOp(op);
    assert Body(Contents(0, [op])) == EncodeOp(op);
  }

  lemma Regroup(a: seq<byte>, b: seq<byte>, c: seq<byte>, d: seq<byte>)
    ensures a + b + c + d == a + (b + c + d) == a + b + (c + d)
    ensures d == [] ==> a + b + c == a + (b + c)
  {
  }

  // ---- The layout, and damaged batches ----

  lemma FixedOne()
    ensures Fixed(1, 4) == [1, 0, 0, 0]
  {
    FixedZero(3);
    assert Zeros(3) == [0, 0, 0];
  }

  // An operation is tag 1 with key and value, or tag 0 with the key.
  lemma OpLayout(key: seq<byte>, value: seq<byte>)
    requires |key| < 128 && |value| < 128
    ensures EncodeOps([Put(key, value)]) == [1, |key|] + key + [|value|] + value
    ensures EncodeOps([Delete(key)]) == [0, |key|] + key
  {
    assert [Put(key, value)][1..] == [] && [Delete(key)][1..] == [];
    hide LengthPrefixed;
    assert LengthPrefixed(key) == [|key|] + key by { ShortPrefix(key); }
    assert LengthPrefixed(value) == [|value|] + value by { ShortPrefix(value); }
    assert EncodeOps([]) == [];
    assert EncodeOp(Put(key, value)) == [1] + ([|key|] + key) + ([|value|] + value) == [1, |key|] + key + [|value|] + value;
    assert EncodeOp(Delete(key)) == [0] + ([|key|] + key) == [0, |key|] + key;
  }

  lemma ShortPrefix(s: seq<byte>)
    requires |s| < 128
    ensures LengthPrefixed(s) == [|s|] + s
  {
  }

  // A batch is eight bytes of sequence number, four of count, and its operations.
  lemma Layout(first: nat, op: Op)
    ensures Contents(first, [op]) == Fixed(first, 8) + [1, 0, 0, 0] + EncodeOps([op])
  {
    hide Fixed, EncodeOps;
    FixedOne();
  }

  lemma CutOp(op: Op, m: nat)
    requires Fits(op) && 0 < m < |EncodeOp(op)|
    ensures ParseOp(EncodeOp(op)[..m]).Failed?
  {
    hide GetLengthPrefixed, LengthPrefixed, Varint;
    var s := EncodeOp(op)[..m];
    var key := LengthPrefixed(op.key);
    if m - 1 < |key| {
      assert s[1..] == key[..m - 1];
      CutLengthPrefixed(op.key, m - 1);
    } else {
      var value := LengthPrefixed(op.value);
      assert s[1..] == key + value[..m - 1 - |key|];
      LengthPrefixedRoundTrip(op.key, value[..m - 1 - |key|]);
      CutLengthPrefixed(op.value, m - 1 - |key|);
    }
  }

  lemma {:induction false} CutOps(ops: seq<Op>, m: nat)
    requires AllFit(ops) && m < |EncodeOps(ops)|
    ensures var (parsed, status) := ParseOps(EncodeOps(ops)[..m]); status == Ok ==> |parsed| < |ops|
    decreases |ops|
  {
    hide ParseOp, EncodeOp;
    var n := |EncodeOp(ops[0])|;
    var s := EncodeOps(ops)[..m];
    if 0 < m < n {
      assert s == EncodeOp(ops[0])[..m];
      CutOp(ops[0], m);
    } else if n <= m {
      assert s == EncodeOp(ops[0]) + EncodeOps(ops[1..])[..m - n];
      ParseOpInverts(ops[0], EncodeOps(ops[1..])[..m - n]);
      CutOps(ops[1..], m - n);
    }
  }

  // A batch cut off anywhere is found to be corrupt.
  lemma CutBatchIsCorrupt(first: nat, ops: seq<Op>, m: nat)
    requires AllFit(ops) && first < TWO_64 && |ops| < TWO_31 && m < |Contents(first, ops)|
    ensures Iterated(Contents(first, ops)[..m]).1 != Ok
  {
    hide ParseOps, EncodeOps, Fixed, DecodeFixed;
    if m >= HEADER {
      var s := Contents(first, ops)[..m];
      ContentsParts(first, ops);
      assert s[HEADER..] == EncodeOps(ops)[..m - HEADER];
      assert s[8..12] == Fixed(|ops|, 4);
      Fixed32RoundTrip(|ops|);
      CutOps(ops, m - HEADER);
    }
  }
}
