// db/log_format.h, db/log_writer.cpp and db/log_reader.cpp: the fragmented write-ahead log.
module Log {
  import opened Coding

  const BLOCK: nat := 32768
  const HEADER: nat := 7

  // Physical record types, and the two codes ReadPhysicalRecord adds to them.
  const ZERO: byte := 0
  const FULL: byte := 1
  const FIRST: byte := 2
  const MIDDLE: byte := 3
  const LAST: byte := 4
  const END_OF_FILE: byte := 5
  const BAD_RECORD: byte := 6

  // ---- What the writer puts in the file ----

  // The trailer skipped before a record at pos: a block has no room for a header.
  function Pad(pos: nat): (n: nat)
    ensures n < HEADER && (pos + n) % BLOCK <= BLOCK - HEADER
    ensures n > 0 ==> (pos + n) % BLOCK == 0
  {
    var leftover := BLOCK - pos % BLOCK;
    if leftover < HEADER then leftover else 0
  }

  // Payload bytes that fit in the block after a header at pos.
  function Available(pos: nat): nat {
    BLOCK - (pos + Pad(pos)) % BLOCK - HEADER
  }

  function FragmentLength(pos: nat, data: seq<byte>): (n: nat)
    ensures n <= |data| && n < BLOCK
  {
    if |data| < Available(pos) then |data| else Available(pos)
  }

  function Kind(begin: bool, end: bool): byte {
    if begin && end then FULL else if begin then FIRST else if end then LAST else MIDDLE
  }

  function PhysicalRecord(crc: Checksum, kind: byte, payload: seq<byte>): (s: seq<byte>)
    requires |payload| < BLOCK
    ensures |s| == HEADER + |payload|
  {
    Fixed(Mask(Crc(crc, [kind] + payload)), 4) + [|payload| % 256, |payload| / 256, kind] + payload
  }

  // Where the fragment of data written at pos ends.
  function FragmentEnd(pos: nat, data: seq<byte>): nat {
    pos + Pad(pos) + HEADER + FragmentLength(pos, data)
  }

  // The bytes AddRecord appends to a file of pos bytes: one fragment for each block reached.
  function Emit(crc: Checksum, pos: nat, data: seq<byte>, begin: bool): (s: seq<byte>)
    ensures |s| >= HEADER
    decreases |data|, if Available(pos) == 0 then 1 else 0
  {
    var n := FragmentLength(pos, data);
    if n == |data| then Head(crc, pos, data, begin)
    else
      NextBlock(pos, data);
      Head(crc, pos, data, begin) + Emit(crc, FragmentEnd(pos, data), data[n..], false)
  }

  // The first fragment, with the trailer before it.
  function Head(crc: Checksum, pos: nat, data: seq<byte>, begin: bool): (s: seq<byte>)
    ensures |s| == FragmentEnd(pos, data) - pos
  {
    var n := FragmentLength(pos, data);
    Zeros(Pad(pos)) + PhysicalRecord(crc, Kind(begin, n == |data|), data[..n])
  }

  lemma EmitStep(crc: Checksum, pos: nat, data: seq<byte>, begin: bool)
    ensures var n := FragmentLength(pos, data);
            Emit(crc, pos, data, begin)
            == if n == |data| then Head(crc, pos, data, begin)
               else Head(crc, pos, data, begin) + Emit(crc, FragmentEnd(pos, data), data[n..], false)
    ensures FragmentLength(pos, data) == 0 < |data| ==> Available(pos) == 0
  {
  }

  // A fragment that is not the last fills its block.
  lemma NextBlock(pos: nat, data: seq<byte>)
    requires FragmentLength(pos, data) < |data|
    ensures FragmentEnd(pos, data) % BLOCK == 0 && Available(FragmentEnd(pos, data)) > 0
  {
  }

  // The file after AddRecord was called for each record, over any number of sessions.
  function Written(crc: Checksum, records: seq<seq<byte>>): seq<byte> {
    if |records| == 0 then []
    else
      var before := Written(crc, records[..|records| - 1]);
      before + Emit(crc, |before|, records[|records| - 1], true)
  }

  // A block offset the writer may hold in a file of pos bytes: at a block's end, its start will do.
  predicate OffsetOf(offset: nat, pos: nat) {
    offset <= BLOCK && offset % BLOCK == pos % BLOCK
  }

  lemma SwitchBlock(offset: nat, pos: nat)
    requires OffsetOf(offset, pos)
    ensures Pad(pos) == if BLOCK - offset < HEADER then BLOCK - offset else 0
    ensures var start := if BLOCK - offset < HEADER then 0 else offset;
            OffsetOf(start, pos + Pad(pos)) && Available(pos) == BLOCK - start - HEADER
  {
  }

  lemma Advance(offset: nat, pos: nat, n: nat)
    requires OffsetOf(offset, pos) && offset + n <= BLOCK
    ensures OffsetOf(offset + n, pos + n)
  {
  }

  lemma Regroup(a: seq<byte>, b: seq<byte>, c: seq<byte>)
    ensures (a + b) + c == a + (b + c)
  {
  }

  // The bytes added by an attempt to append data, and where the writer then takes the file to
  // end. A trailer may be lost in part, unnoticed. A fragment that fails is there in part, and
  // ends the attempt.
  ghost predicate Attempted(crc: Checksum, pos: nat, data: seq<byte>, begin: bool, added: seq<byte>, end: nat, ok: bool)
    decreases |data|, if Available(pos) == 0 then 1 else 0, 1
  {
    exists p :: 0 <= p <= Pad(pos) && p <= |added| && added[..p] == Zeros(p)
                && AfterTrailer(crc, pos, data, begin, added[p..], end, ok)
  }

  ghost predicate AfterTrailer(crc: Checksum, pos: nat, data: seq<byte>, begin: bool, added: seq<byte>, end: nat, ok: bool)
    decreases |data|, if Available(pos) == 0 then 1 else 0, 0
  {
    var n := FragmentLength(pos, data);
    var record := PhysicalRecord(crc, Kind(begin, n == |data|), data[..n]);
    || (!ok && end == FragmentEnd(pos, data) && added <= record)
    || (n == |data| && ok && end == FragmentEnd(pos, data) && added == record)
    || (n < |data| && record <= added && NextLess(pos, data)
        && Attempted(crc, FragmentEnd(pos, data), data[n..], false, added[|record|..], end, ok))
  }

  // True; what makes the recursion above end.
  predicate NextLess(pos: nat, data: seq<byte>)
    requires FragmentLength(pos, data) < |data|
    ensures FragmentEnd(pos, data) % BLOCK == 0 && Available(FragmentEnd(pos, data)) > 0
  {
    NextBlock(pos, data);
    FragmentLength(pos, data) < |data|
  }

  // An attempt adds no more than the record's bytes. When it succeeds and none of them was lost,
  // it added just them.
  lemma {:induction false} AttemptBounds(crc: Checksum, pos: nat, data: seq<byte>, begin: bool, added: seq<byte>, end: nat, ok: bool)
    requires Attempted(crc, pos, data, begin, added, end, ok)
    ensures pos + |added| <= end <= pos + |Emit(crc, pos, data, begin)|
    ensures ok ==> end == pos + |Emit(crc, pos, data, begin)|
    ensures ok && pos + |added| == end ==> added == Emit(crc, pos, data, begin)
    decreases |data|, if Available(pos) == 0 then 1 else 0
  {
    hide PhysicalRecord, Available, FragmentLength, Pad, Emit, Head;
    var n := FragmentLength(pos, data);
    var record := PhysicalRecord(crc, Kind(begin, n == |data|), data[..n]);
    EmitStep(crc, pos, data, begin);
    HeadIs(crc, pos, data, begin);
    var p :| 0 <= p <= Pad(pos) && p <= |added| && added[..p] == Zeros(p)
             && AfterTrailer(crc, pos, data, begin, added[p..], end, ok);
    var rest := added[p..];
    assert added == Zeros(p) + rest;
    if n < |data| && record <= rest && Attempted(crc, FragmentEnd(pos, data), data[n..], false, rest[|record|..], end, ok) {
      NextBlock(pos, data);
      AttemptBounds(crc, FragmentEnd(pos, data), data[n..], false, rest[|record|..], end, ok);
      WholeFragment(p, Pad(pos), record, rest, Emit(crc, FragmentEnd(pos, data), data[n..], false));
    } else {
      LastFragment(p, Pad(pos), record, rest);
    }
  }

  lemma WholeFragment(p: nat, pad: nat, record: seq<byte>, rest: seq<byte>, more: seq<byte>)
    requires p <= pad && record <= rest
    ensures |Zeros(p) + rest| <= pad + |record| + |rest[|record|..]|
    ensures |Zeros(p) + rest| == pad + |record| + |rest[|record|..]| ==> p == pad
    ensures rest[|record|..] == more ==> Zeros(pad) + rest == Zeros(pad) + record + more
  {
    assert rest == record + rest[|record|..];
    Regroup(Zeros(pad), record, more);
  }

  lemma LastFragment(p: nat, pad: nat, record: seq<byte>, part: seq<byte>)
    requires p <= pad && part <= record
    ensures |Zeros(p) + part| <= pad + |record|
    ensures |Zeros(p) + part| == pad + |record| ==> p == pad && part == record
  {
  }

  lemma HeadIs(crc: Checksum, pos: nat, data: seq<byte>, begin: bool)
    ensures var n := FragmentLength(pos, data);
            Head(crc, pos, data, begin) == Zeros(Pad(pos)) + PhysicalRecord(crc, Kind(begin, n == |data|), data[..n])
  {
  }

  // Appending sofar, and then anything that an attempt to append left may add, is an attempt to
  // append data.
  ghost predicate Leads(crc: Checksum, pos: nat, data: seq<byte>, sofar: seq<byte>, pos': nat, left: seq<byte>, begin: bool) {
    forall added: seq<byte>, end: nat, ok: bool {:trigger Attempted(crc, pos', left, begin, added, end, ok)} ::
      Attempted(crc, pos', left, begin, added, end, ok) ==> Attempted(crc, pos, data, true, sofar + added, end, ok)
  }

  lemma LeadsStart(crc: Checksum, pos: nat, data: seq<byte>)
    ensures Leads(crc, pos, data, [], pos, data, true)
  {
    hide Attempted;
    forall added: seq<byte>, end: nat, ok: bool | Attempted(crc, pos, data, true, added, end, ok)
      ensures Attempted(crc, pos, data, true, [] + added, end, ok)
    {
      assert [] + added == added;
    }
  }

  lemma Parts(sofar: seq<byte>, z: seq<byte>, record: seq<byte>, added: seq<byte>)
    ensures var whole := z + (record + added);
      && whole[..|z|] == z && whole[|z|..] == record + added
      && (record + added)[|record|..] == added && record <= record + added
      && sofar + (z + record) + added == sofar + whole
  {
  }

  // A fragment that is complete, but for its trailer, and not the last.
  lemma LeadsOn(crc: Checksum, pos: nat, data: seq<byte>, sofar: seq<byte>, pos': nat, left: seq<byte>, begin: bool, p: nat)
    requires Leads(crc, pos, data, sofar, pos', left, begin) && p <= Pad(pos') && FragmentLength(pos', left) < |left|
    ensures var n := FragmentLength(pos', left);
            Leads(crc, pos, data, sofar + (Zeros(p) + PhysicalRecord(crc, Kind(begin, false), left[..n])),
                  FragmentEnd(pos', left), left[n..], false)
  {
    hide PhysicalRecord, Pad, Available, FragmentLength, FragmentEnd;
    var n := FragmentLength(pos', left);
    var record := PhysicalRecord(crc, Kind(begin, false), left[..n]);
    forall added: seq<byte>, end: nat, ok: bool | Attempted(crc, FragmentEnd(pos', left), left[n..], false, added, end, ok)
      ensures Attempted(crc, pos, data, true, sofar + (Zeros(p) + record) + added, end, ok)
    {
      var whole := Zeros(p) + (record + added);
      Parts(sofar, Zeros(p), record, added);
      assert AfterTrailer(crc, pos', left, begin, whole[p..], end, ok);
      assert Attempted(crc, pos', left, begin, whole, end, ok);
    }
  }

  // A fragment that fails, or is the last.
  lemma LeadsToEnd(crc: Checksum, pos: nat, data: seq<byte>, sofar: seq<byte>, pos': nat, left: seq<byte>, begin: bool, p: nat, part: seq<byte>, ok: bool)
    requires Leads(crc, pos, data, sofar, pos', left, begin) && p <= Pad(pos')
    requires var n := FragmentLength(pos', left); var record := PhysicalRecord(crc, Kind(begin, n == |left|), left[..n]);
             part <= record && (ok ==> n == |left| && part == record)
    ensures Attempted(crc, pos, data, true, sofar + (Zeros(p) + part), FragmentEnd(pos', left), ok)
  {
    hide PhysicalRecord, Pad, Available, FragmentLength, FragmentEnd;
    var whole := Zeros(p) + part;
    assert whole[..p] == Zeros(p) && whole[p..] == part;
    assert Attempted(crc, pos', left, begin, whole, FragmentEnd(pos', left), ok);
  }

  // log::Writer. pos is where it takes the file to end; after a failure the file may be shorter.
  class Writer {
    const crc: Checksum
    var dest: seq<byte>
    var blockOffset: nat
    ghost var pos: nat

    // dest is the file as earlier sessions left it: destLength is its length.
    constructor (crc: Checksum, dest: seq<byte>)
      ensures Valid() && this.dest == dest && this.crc == crc && pos == |dest|
    {
      this.crc := crc;
      this.dest := dest;
      this.blockOffset := |dest| % BLOCK;
      this.pos := |dest|;
    }

    ghost predicate Valid()
      reads this
    {
      OffsetOf(blockOffset, pos)
    }

    // WritableFile::Append and Flush: a failure may leave any part of the data in the file.
    method Append(data: seq<byte>) returns (ok: bool)
      modifies this`dest
      ensures old(dest) <= dest && dest <= old(dest) + data
      ensures ok ==> dest == old(dest) + data
    {
      var m: nat :| m <= |data|;
      ok := *;
      dest := dest + if ok then data else data[..m];
    }

    method AddRecord(data: seq<byte>) returns (ok: bool)
      requires Valid()
      modifies this
      ensures Valid() && old(dest) <= dest
      ensures Attempted(crc, old(pos), data, true, dest[|old(dest)|..], pos, ok)
    {
      hide Pad, FragmentLength, Available, FragmentEnd, Attempted, PhysicalRecord;
      var left, begin := data, true;
      ghost var sofar := [];
      LeadsStart(crc, pos, data);
      ok := true;
      var more := true;
      while more
        invariant Valid() && dest == old(dest) + sofar
        invariant more ==> ok && Leads(crc, old(pos), data, sofar, pos, left, begin)
        invariant !more ==> Attempted(crc, old(pos), data, true, sofar, pos, ok)
        decreases more, |left|, Available(pos) == 0
      {
        ghost var pos', p, part := pos, 0, [];
        var n;
        n, ok, p, part := EmitFragment(left, begin);
        FragmentAt(pos', left);
        if ok && n < |left| {
          NextBlock(pos', left);
          LeadsOn(crc, old(pos), data, sofar, pos', left, begin, p);
        } else {
          LeadsToEnd(crc, old(pos), data, sofar, pos', left, begin, p, part, ok);
        }
        sofar := sofar + (Zeros(p) + part);
        left := left[n..];
        begin := false;
        more := ok && |left| > 0;
      }
      assert dest[|old(dest)|..] == sofar;
    }

    // One round of AddRecord's loop: the trailer, then the fragment that fits.
    method EmitFragment(left: seq<byte>, begin: bool) returns (n: nat, ok: bool, ghost p: nat, ghost part: seq<byte>)
      requires Valid()
      modifies this
      ensures Valid() && n == FragmentLength(old(pos), left) && pos == FragmentEnd(old(pos), left)
      ensures p <= Pad(old(pos)) && dest == old(dest) + (Zeros(p) + part)
      ensures var record := PhysicalRecord(crc, Kind(begin, n == |left|), left[..n]);
              part <= record && (ok ==> part == record)
    {
      hide PhysicalRecord;
      ghost var pos', was := pos, dest;
      SwitchBlock(blockOffset, pos);
      var leftover := BLOCK - blockOffset;
      p := 0;
      if leftover < HEADER {
        // The status is not looked at.
        var _ := Append(Zeros(leftover));
        p := |dest| - |was|;
        blockOffset := 0;
        pos := pos + leftover;
      }
      assert dest == was + Zeros(p);
      var avail := BLOCK - blockOffset - HEADER;
      n := if |left| < avail then |left| else avail;
      var end := |left| == n;
      var kind := if begin && end then FULL else if begin then FIRST else if end then LAST else MIDDLE;
      ok, part := EmitPhysicalRecord(kind, left[..n]);
      Regroup(was, Zeros(p), part);
    }

    method EmitPhysicalRecord(kind: byte, payload: seq<byte>) returns (ok: bool, ghost part: seq<byte>)
      requires Valid() && blockOffset + HEADER + |payload| <= BLOCK
      modifies this
      ensures Valid() && blockOffset == old(blockOffset) + HEADER + |payload| && pos == old(pos) + HEADER + |payload|
      ensures dest == old(dest) + part && part <= PhysicalRecord(crc, kind, payload)
      ensures ok ==> part == PhysicalRecord(crc, kind, payload)
    {
      Advance(blockOffset, pos, HEADER + |payload|);
      var n := |payload|;
      var checksum := Mask(Crc(crc, [kind] + payload));
      var header := Fixed(checksum, 4) + [n % 256, n / 256, kind];
      assert header + payload == PhysicalRecord(crc, kind, payload);
      ok := Append(header);
      if ok {
        ok := Append(payload);
        Regroup(old(dest), header, payload);
        if ok {
          ok := Append([]);   // Flush
        }
      }
      blockOffset := blockOffset + HEADER + n;
      pos := pos + HEADER + n;
      part := dest[|old(dest)|..];
    }
  }

  lemma FragmentAt(pos: nat, left: seq<byte>)
    ensures FragmentLength(pos, left) == 0 < |left| ==> Available(pos) == 0
  {
  }

  // ---- What the reader returns ----

  // rest is the part of the file not read yet.
  datatype ReaderState = ReaderState(rest: seq<byte>, buffer: seq<byte>, eof: bool)

  function Remaining(s: ReaderState): nat {
    |s.rest| + |s.buffer|
  }

  // The outcome of a physical read; drops are the byte counts reported as corrupted.
  datatype Physical = Physical(kind: byte, fragment: seq<byte>, state: ReaderState, drops: seq<int>)

  function Fill(s: ReaderState): ReaderState {
    var n := if |s.rest| < BLOCK then |s.rest| else BLOCK;
    ReaderState(s.rest[n..], s.rest[..n], n < BLOCK)
  }

  function HeaderLength(header: seq<byte>): nat
    requires |header| >= HEADER
  {
    header[4] as int + 256 * (header[5] as int)
  }

  function ReadPhysical(crc: Checksum, checksum: bool, s: ReaderState): (p: Physical)
    ensures p.kind != END_OF_FILE ==> Remaining(p.state) < Remaining(s)
    decreases |s.rest|, !s.eof
  {
    var cleared := s.(buffer := []);
    if |s.buffer| < HEADER then
      if s.eof then Physical(END_OF_FILE, [], cleared, []) else ReadPhysical(crc, checksum, Fill(s))
    else
      var length := HeaderLength(s.buffer);
      var kind := s.buffer[6];
      if HEADER + length > |s.buffer| then
        if s.eof then Physical(END_OF_FILE, [], cleared, []) else Physical(BAD_RECORD, [], cleared, [|s.buffer|])
      else if kind == ZERO && length == 0 then Physical(BAD_RECORD, [], cleared, [])
      else if checksum && Crc(crc, s.buffer[6..HEADER + length]) != Unmask(DecodeFixed(s.buffer[..4])) then
        Physical(BAD_RECORD, [], cleared, [|s.buffer|])
      else
        Physical(kind, s.buffer[HEADER..HEADER + length], s.(buffer := s.buffer[HEADER + length..]), [])
  }

  datatype Logical = Record(data: seq<byte>, state: ReaderState, drops: seq<int>)
                   | Finished(state: ReaderState, drops: seq<int>)

  function Reporting(drops: seq<int>, l: Logical): Logical {
    l.(drops := drops + l.drops)
  }

  lemma ReportingTwice(a: seq<int>, b: seq<int>, l: Logical)
    ensures Reporting(a, Reporting(b, l)) == Reporting(a + b, l)
  {
    assert a + (b + l.drops) == a + b + l.drops;
  }

  // The partial record given up when a new one starts: an empty one is not reported.
  function Abandoned(inFragment: bool, scratch: seq<byte>): seq<int> {
    if inFragment && scratch != [] then [|scratch|] else []
  }

  // What one physical record does to the record being assembled: it ends the call, or the loop
  // goes round again.
  datatype Turn = Return(result: Logical) | Again(inFragment: bool, scratch: seq<byte>, drops: seq<int>)

  function Assemble(p: Physical, inFragment: bool, scratch: seq<byte>): Turn {
    if p.kind == END_OF_FILE then Return(Finished(p.state, p.drops))
    else if p.kind == FULL then Return(Record(p.fragment, p.state, p.drops + Abandoned(inFragment, scratch)))
    else if p.kind == FIRST then Again(true, p.fragment, p.drops + Abandoned(inFragment, scratch))
    else if p.kind == MIDDLE && inFragment then Again(true, scratch + p.fragment, p.drops)
    else if p.kind == LAST && inFragment then Return(Record(scratch + p.fragment, p.state, p.drops))
    else if p.kind == MIDDLE || p.kind == LAST then Again(false, scratch, p.drops + [|p.fragment|])
    else if p.kind == BAD_RECORD && inFragment then Again(false, [], p.drops + [|scratch|])
    else if p.kind == BAD_RECORD then Again(false, scratch, p.drops)
    else Again(false, [], p.drops + [|p.fragment| + if inFragment then |scratch| else 0])
  }

  function ReadLogical(crc: Checksum, checksum: bool, s: ReaderState, inFragment: bool, scratch: seq<byte>): (l: Logical)
    ensures l.Record? ==> Remaining(l.state) < Remaining(s)
    decreases Remaining(s)
  {
    var p := ReadPhysical(crc, checksum, s);
    match Assemble(p, inFragment, scratch)
    case Return(l) => l
    case Again(i, t, drops) => Reporting(drops, ReadLogical(crc, checksum, p.state, i, t))
  }

  // log::Reader reading a file from its start. A read of the file is short only at its end.
  class Reader {
    const crc: Checksum
    const checksum: bool
    var rest: seq<byte>
    var buffer: seq<byte>
    var eof: bool
    // The byte counts passed to Reporter::Corruption.
    var drops: seq<int>

    constructor (crc: Checksum, checksum: bool, file: seq<byte>)
      ensures this.crc == crc && this.checksum == checksum
      ensures State() == Opened(file) && drops == []
    {
      this.crc := crc;
      this.checksum := checksum;
      this.rest := file;
      this.buffer := [];
      this.eof := false;
      this.drops := [];
    }

    function State(): ReaderState
      reads this
    {
      ReaderState(rest, buffer, eof)
    }

    method ReadPhysicalRecord() returns (kind: byte, fragment: seq<byte>)
      modifies this
      ensures Physical(kind, fragment, State(), drops)
           == var p := ReadPhysical(crc, checksum, old(State())); p.(drops := old(drops) + p.drops)
    {
      hide Crc, DecodeFixed, Unmask;
      fragment := [];
      while |buffer| < HEADER
        invariant ReadPhysical(crc, checksum, State()) == ReadPhysical(crc, checksum, old(State()))
        invariant drops == old(drops)
        decreases |rest|, !eof
      {
        if eof {
          buffer := [];
          return END_OF_FILE, [];
        }
        var n := if |rest| < BLOCK then |rest| else BLOCK;
        buffer, rest := rest[..n], rest[n..];
        if |buffer| < BLOCK {
          eof := true;
        }
      }
      var length := HeaderLength(buffer);
      kind := buffer[6];
      if HEADER + length > |buffer| {
        var dropSize := |buffer|;
        buffer := [];
        if !eof {
          drops := drops + [dropSize];
          return BAD_RECORD, [];
        }
        return END_OF_FILE, [];
      }
      if kind == ZERO && length == 0 {
        buffer := [];
        return BAD_RECORD, [];
      }
      if checksum {
        var expected := Unmask(DecodeFixed(buffer[..4]));
        var actual := Crc(crc, buffer[6..HEADER + length]);
        if actual != expected {
          drops := drops + [|buffer|];
          buffer := [];
          return BAD_RECORD, [];
        }
      }
      fragment := buffer[HEADER..HEADER + length];
      buffer := buffer[HEADER + length..];
    }

    method ReadRecord() returns (ok: bool, record: seq<byte>)
      modifies this
      ensures match ReadLogical(crc, checksum, old(State()), false, [])
              case Record(data, state, d) => ok && record == data && State() == state && drops == old(drops) + d
              case Finished(state, d) => !ok && State() == state && drops == old(drops) + d
    {
      var inFragment, scratch := false, [];
      record := [];
      hide ReadPhysical;
      ghost var goal := Reporting(drops, ReadLogical(crc, checksum, State(), false, []));
      while true
        invariant Reporting(drops, ReadLogical(crc, checksum, State(), inFragment, scratch)) == goal
        decreases Remaining(State())
      {
        ghost var reported := drops;
        ghost var p := ReadPhysical(crc, checksum, State());
        ghost var turn := Assemble(p, inFragment, scratch);
        var kind, fragment := ReadPhysicalRecord();
        if kind == FULL {
          if inFragment {
            if scratch == [] {
              inFragment := false;
            } else {
              drops := drops + [|scratch|];
            }
          }
          assert turn.Return? && drops == reported + turn.result.drops;
          return true, fragment;
        } else if kind == FIRST {
          if inFragment {
            if scratch == [] {
              inFragment := false;
            } else {
              drops := drops + [|scratch|];
            }
          }
          scratch := fragment;
          inFragment := true;
        } else if kind == MIDDLE {
          if !inFragment {
            drops := drops + [|fragment|];
          } else {
            scratch := scratch + fragment;
          }
        } else if kind == LAST {
          if !inFragment {
            drops := drops + [|fragment|];
          } else {
            scratch := scratch + fragment;
            return true, scratch;
          }
        } else if kind == END_OF_FILE {
          return false, [];
        } else if kind == BAD_RECORD {
          if inFragment {
            drops := drops + [|scratch|];
            inFragment := false;
            scratch := [];
          }
        } else {
          drops := drops + [|fragment| + if inFragment then |scratch| else 0];
          inFragment := false;
          scratch := [];
        }
        assert drops == reported + turn.drops;
        assert turn == Again(inFragment, scratch, turn.drops);
        ReportingTwice(reported, turn.drops, ReadLogical(crc, checksum, State(), inFragment, scratch));
      }
    }
  }

  function Opened(file: seq<byte>): ReaderState {
    ReaderState(file, [], false)
  }

  // Everything a caller looping over ReadRecord gets, and everything reported.
  function ReadAll(crc: Checksum, checksum: bool, s: ReaderState): (seq<seq<byte>>, seq<int>)
    decreases Remaining(s)
  {
    match ReadLogical(crc, checksum, s, false, [])
    case Finished(_, drops) => ([], drops)
    case Record(data, state, drops) =>
      var (records, more) := ReadAll(crc, checksum, state);
      ([data] + records, drops + more)
  }

  // ---- A log cut off anywhere reads as the records wholly inside it ----

  function BlockEnd(pos: nat): nat {
    pos - pos % BLOCK + BLOCK
  }

  function Min(a: nat, b: nat): nat {
    if a < b then a else b
  }

  // The reader with the block of pos in its buffer, everything before pos consumed.
  function Loaded(file: seq<byte>, pos: nat): ReaderState
    requires pos <= |file|
  {
    var e := Min(BlockEnd(pos), |file|);
    ReaderState(file[e..], file[pos..e], BlockEnd(pos) > |file|)
  }

  // The reader once everything before pos is consumed: it loads a block only when asked for more.
  function Consumed(file: seq<byte>, pos: nat): ReaderState
    requires pos <= |file|
  {
    if pos % BLOCK == 0 then ReaderState(file[pos..], [], false) else Loaded(file, pos)
  }

  lemma FillLoads(file: seq<byte>, pos: nat)
    requires pos <= |file| && pos % BLOCK == 0
    ensures Fill(ReaderState(file[pos..], [], false)) == Loaded(file, pos)
  {
    var n := Min(BLOCK, |file| - pos);
    assert file[pos..][n..] == file[pos + n..];
    assert file[pos..][..n] == file[pos..pos + n];
  }

  // The trailer of a block is skipped; a file that ends in it reads as ended.
  lemma SkipTrailer(crc: Checksum, checksum: bool, file: seq<byte>, pos: nat)
    requires pos <= |file|
    ensures var start := pos + Pad(pos); var p := ReadPhysical(crc, checksum, Consumed(file, pos));
            if start <= |file| then p == ReadPhysical(crc, checksum, Loaded(file, start))
            else p.kind == END_OF_FILE && p.drops == []
  {
    var start := pos + Pad(pos);
    if pos % BLOCK == 0 {
      FillLoads(file, pos);
    } else if start != pos {
      assert start == BlockEnd(pos);
      if start <= |file| {
        FillLoads(file, start);
        assert ReadPhysical(crc, checksum, Consumed(file, pos)) == ReadPhysical(crc, checksum, Fill(Consumed(file, pos)));
      }
    }
  }

  lemma {:induction false} HeaderReads(crc: Checksum, checksum: bool, kind: byte, payload: seq<byte>, rest: seq<byte>)
    requires |payload| < BLOCK && kind != ZERO
    ensures var s := PhysicalRecord(crc, kind, payload) + rest;
            && HeaderLength(s) == |payload| && s[6] == kind && s[HEADER..HEADER + |payload|] == payload
            && s[HEADER + |payload|..] == rest
            && Unmask(DecodeFixed(s[..4])) == Crc(crc, s[6..HEADER + |payload|])
  {
    var s := PhysicalRecord(crc, kind, payload) + rest;
    var sum := Crc(crc, [kind] + payload);
    assert s[..4] == Fixed(Mask(sum), 4);
    assert s[6..HEADER + |payload|] == [kind] + payload;
    Fixed32RoundTrip(Mask(sum));
    MaskRoundTrip(sum);
  }

  // whole holds a physical record at start.
  ghost predicate RecordAt(crc: Checksum, whole: seq<byte>, start: nat, kind: byte, payload: seq<byte>) {
    && start % BLOCK + HEADER + |payload| <= BLOCK
    && start + HEADER + |payload| <= |whole|
    && whole[start..start + HEADER + |payload|] == PhysicalRecord(crc, kind, payload)
  }

  lemma ReadWholeRecord(crc: Checksum, checksum: bool, file: seq<byte>, start: nat, kind: byte, payload: seq<byte>)
    requires RecordAt(crc, file, start, kind, payload) && kind != ZERO
    ensures ReadPhysical(crc, checksum, Loaded(file, start))
         == Physical(kind, payload, Consumed(file, start + HEADER + |payload|), [])
  {
    hide PhysicalRecord, Crc, Unmask, DecodeFixed, BlockEnd;
    var s := Loaded(file, start);
    var end := start + HEADER + |payload|;
    var e := Min(BlockEnd(start), |file|);
    SameBlock(start, end);
    assert s.buffer == PhysicalRecord(crc, kind, payload) + file[end..e];
    HeaderReads(crc, checksum, kind, payload, file[end..e]);
    assert ReadPhysical(crc, checksum, s) == Physical(kind, payload, s.(buffer := file[end..e]), []);
  }

  // A record's end lies in its block, or at the block's end.
  lemma SameBlock(start: nat, end: nat)
    requires start < end <= start - start % BLOCK + BLOCK
    ensures end <= BlockEnd(start) && start < BlockEnd(start)
    ensures if end % BLOCK == 0 then end == BlockEnd(start) else BlockEnd(end) == BlockEnd(start)
  {
  }

  // A record the file is cut off in reads as the end of the file, and nothing is reported.
  lemma ReadCutRecord(crc: Checksum, checksum: bool, whole: seq<byte>, m: nat, start: nat, kind: byte, payload: seq<byte>)
    requires RecordAt(crc, whole, start, kind, payload) && kind != ZERO
    requires start <= m < start + HEADER + |payload|
    ensures var p := ReadPhysical(crc, checksum, Loaded(whole[..m], start)); p.kind == END_OF_FILE && p.drops == []
  {
    var s := Loaded(whole[..m], start);
    var end := start + HEADER + |payload|;
    assert BlockEnd(start) >= end;
    assert s.buffer == whole[start..m] && s.eof;
    if |s.buffer| >= HEADER {
      var record := PhysicalRecord(crc, kind, payload);
      HeaderReads(crc, checksum, kind, payload, []);
      assert s.buffer == whole[start..end][..m - start];
      assert s.buffer[4] == record[4] && s.buffer[5] == record[5];
      assert HeaderLength(s.buffer) == |payload|;
    }
  }

  lemma HeadFits(pos: nat, data: seq<byte>)
    ensures (pos + Pad(pos)) % BLOCK + HEADER + FragmentLength(pos, data) <= BLOCK
    ensures FragmentEnd(pos, data) == pos + Pad(pos) + HEADER + FragmentLength(pos, data)
  {
  }

  lemma HeadLies(crc: Checksum, whole: seq<byte>, pos: nat, data: seq<byte>, begin: bool)
    requires FragmentEnd(pos, data) <= |whole| && whole[pos..FragmentEnd(pos, data)] == Head(crc, pos, data, begin)
    ensures var n := FragmentLength(pos, data); RecordAt(crc, whole, pos + Pad(pos), Kind(begin, n == |data|), data[..n])
  {
    hide PhysicalRecord, Pad, Available, FragmentLength, FragmentEnd;
    HeadFits(pos, data);
    var start, end := pos + Pad(pos), FragmentEnd(pos, data);
    assert whole[start..end] == whole[pos..end][Pad(pos)..];
  }

  lemma RecordWithin(crc: Checksum, whole: seq<byte>, m: nat, start: nat, kind: byte, payload: seq<byte>)
    requires RecordAt(crc, whole, start, kind, payload) && start + HEADER + |payload| <= m <= |whole|
    ensures RecordAt(crc, whole[..m], start, kind, payload)
  {
    hide PhysicalRecord;
    var end := start + HEADER + |payload|;
    assert whole[..m][start..end] == whole[start..end];
  }

  lemma ReadHead(crc: Checksum, checksum: bool, whole: seq<byte>, m: nat, pos: nat, data: seq<byte>, begin: bool)
    requires pos <= m <= |whole| && FragmentEnd(pos, data) <= |whole|
    requires whole[pos..FragmentEnd(pos, data)] == Head(crc, pos, data, begin)
    ensures var p := ReadPhysical(crc, checksum, Consumed(whole[..m], pos));
            var n := FragmentLength(pos, data);
            var end := FragmentEnd(pos, data);
            if end <= m then p == Physical(Kind(begin, n == |data|), data[..n], Consumed(whole[..m], end), [])
            else p.kind == END_OF_FILE && p.drops == []
  {
    hide ReadPhysical, Consumed, Loaded, BlockEnd, Pad, Available, FragmentLength, FragmentEnd, RecordAt, Head;
    var n := FragmentLength(pos, data);
    HeadFits(pos, data);
    HeadLies(crc, whole, pos, data, begin);
    var start, end := pos + Pad(pos), FragmentEnd(pos, data);
    var kind := Kind(begin, n == |data|);
    SkipTrailer(crc, checksum, whole[..m], pos);
    if end <= m {
      RecordWithin(crc, whole, m, start, kind, data[..n]);
      ReadWholeRecord(crc, checksum, whole[..m], start, kind, data[..n]);
    } else if start <= m {
      ReadCutRecord(crc, checksum, whole, m, start, kind, data[..n]);
    }
  }

  // The fragments of one record are put together again, unless the file is cut off in them.
  lemma {:induction false} ReadEmitted(crc: Checksum, checksum: bool, whole: seq<byte>, m: nat, pos: nat,
                                       data: seq<byte>, begin: bool, scratch: seq<byte>, end: nat)
    requires pos <= m <= |whole| && end == pos + |Emit(crc, pos, data, begin)| <= |whole|
    requires whole[pos..end] == Emit(crc, pos, data, begin)
    requires begin ==> scratch == []
    ensures var l := ReadLogical(crc, checksum, Consumed(whole[..m], pos), !begin, scratch);
            if end <= m then l == Record(scratch + data, Consumed(whole[..m], end), [])
            else l.Finished? && l.drops == []
    decreases |data|, if Available(pos) == 0 then 1 else 0
  {
    hide ReadPhysical, Consumed, Head;
    var n, mid := FragmentLength(pos, data), FragmentEnd(pos, data);
    var head := Head(crc, pos, data, begin);
    assert whole[pos..mid] == whole[pos..end][..|head|] == head;
    ReadHead(crc, checksum, whole, m, pos, data, begin);
    var p := ReadPhysical(crc, checksum, Consumed(whole[..m], pos));
    assert mid > m ==> Assemble(p, !begin, scratch) == Return(Finished(p.state, []));
    if n < |data| {
      assert mid <= m ==> Assemble(p, !begin, scratch) == Again(true, scratch + data[..n], []);
      NextBlock(pos, data);
      assert whole[mid..end] == whole[pos..end][|head|..] == Emit(crc, mid, data[n..], false);
      if mid <= m {
        ReadEmitted(crc, checksum, whole, m, mid, data[n..], false, scratch + data[..n], end);
        assert scratch + data[..n] + data[n..] == scratch + data;
      }
    } else {
      assert data[..n] == data;
    }
  }

  lemma WrittenNone(crc: Checksum, records: seq<seq<byte>>)
    ensures Written(crc, records[..0]) == []
  {
  }

  lemma {:induction false} WrittenPrefix(crc: Checksum, records: seq<seq<byte>>, k: nat)
    requires k <= |records|
    ensures Written(crc, records[..k]) <= Written(crc, records)
  {
    if k == |records| {
      assert records[..k] == records;
    } else {
      var shorter := records[..|records| - 1];
      assert shorter[..k] == records[..k];
      WrittenPrefix(crc, shorter, k);
      assert Written(crc, shorter) <= Written(crc, records);
    }
  }

  // Record k of the log, and where it lies.
  lemma WrittenAt(crc: Checksum, records: seq<seq<byte>>, k: nat)
    requires k < |records|
    ensures var pos, end := |Written(crc, records[..k])|, |Written(crc, records[..k + 1])|;
            && pos < end <= |Written(crc, records)|
            && Written(crc, records)[pos..end] == Emit(crc, pos, records[k], true)
  {
    var upTo := records[..k + 1];
    assert upTo[..k] == records[..k];
    assert Written(crc, upTo) == Written(crc, records[..k]) + Emit(crc, |Written(crc, records[..k])|, records[k], true);
    WrittenPrefix(crc, records, k + 1);
    var pos, end := |Written(crc, records[..k])|, |Written(crc, upTo)|;
    assert Written(crc, records)[pos..end] == Written(crc, upTo)[pos..];
  }

  // The first m bytes of the log of these records hold just the first j of them whole.
  ghost predicate HoldsJust(crc: Checksum, records: seq<seq<byte>>, m: nat, j: nat) {
    && m <= |Written(crc, records)| && j <= |records|
    && |Written(crc, records[..j])| <= m
    && (j < |records| ==> m < |Written(crc, records[..j + 1])|)
  }

  lemma WrittenGrows(crc: Checksum, records: seq<seq<byte>>, j: nat, k: nat)
    requires j <= k <= |records|
    ensures |Written(crc, records[..j])| <= |Written(crc, records[..k])|
  {
    WrittenPrefix(crc, records[..k], j);
    assert records[..k][..j] == records[..j];
  }

  lemma WholeRecordsInside(crc: Checksum, records: seq<seq<byte>>, m: nat, j: nat, k: nat)
    requires HoldsJust(crc, records, m, j) && k <= |records| && |Written(crc, records[..k])| <= m
    ensures k <= j
  {
    if j < k {
      WrittenGrows(crc, records, j + 1, k);
    }
  }

  lemma {:induction false} ReadsFrom(crc: Checksum, checksum: bool, records: seq<seq<byte>>, m: nat, k: nat, j: nat)
    requires HoldsJust(crc, records, m, j) && k <= j
    requires |Written(crc, records[..k])| <= m
    ensures ReadAll(crc, checksum, Consumed(Written(crc, records)[..m], |Written(crc, records[..k])|)) == (records[k..j], [])
    decreases j - k
  {
    hide ReadLogical, Consumed, Emit, Written;
    var pos := |Written(crc, records[..k])|;
    if k < |records| {
      var end := |Written(crc, records[..k + 1])|;
      WrittenAt(crc, records, k);
      ReadEmitted(crc, checksum, Written(crc, records), m, pos, records[k], true, [], end);
      if k < j {
        WrittenPrefix(crc, records[..j], k + 1);
        assert records[..j][..k + 1] == records[..k + 1];
        assert end <= m;
        ReadsFrom(crc, checksum, records, m, k + 1, j);
        assert [] + records[k] == records[k];
        var next := Consumed(Written(crc, records)[..m], end);
        assert ReadLogical(crc, checksum, Consumed(Written(crc, records)[..m], pos), false, []) == Record(records[k], next, []);
        assert ReadAll(crc, checksum, next) == (records[k + 1..j], []);
        assert [] + ReadAll(crc, checksum, next).1 == [];
        assert [records[k]] + records[k + 1..j] == records[k..j];
      } else {
        assert records[k..j] == [];
      }
    } else {
      assert records[..k] == records && records[k..j] == [];
      assert Written(crc, records)[..m] == Written(crc, records);
      ReadsAtEnd(crc, checksum, records, m);
    }
  }

  lemma ReadsAtEnd(crc: Checksum, checksum: bool, records: seq<seq<byte>>, m: nat)
    requires m == |Written(crc, records)|
    ensures var l := ReadLogical(crc, checksum, Consumed(Written(crc, records), m), false, []); l.Finished? && l.drops == []
  {
    SkipTrailer(crc, checksum, Written(crc, records), m);
  }

  // Whatever records were appended, and wherever the file was then cut off, reading it gives
  // the records wholly inside it, in order, and reports nothing as corrupted.
  lemma CrashPrefix(crc: Checksum, checksum: bool, records: seq<seq<byte>>, m: nat, j: nat)
    requires HoldsJust(crc, records, m, j)
    ensures ReadAll(crc, checksum, Opened(Written(crc, records)[..m])) == (records[..j], [])
  {
    assert Written(crc, records[..0]) == [];
    hide ReadAll, Written, Emit;
    ReadsFrom(crc, checksum, records, m, 0, j);
    assert Written(crc, records)[..m][0..] == Written(crc, records)[..m];
  }

  // Every length cuts the log after some number of whole records, so CrashPrefix always applies.
  lemma {:induction false} CutSomewhere(crc: Checksum, records: seq<seq<byte>>, m: nat, i: nat) returns (j: nat)
    requires i <= |records| && |Written(crc, records[..i])| <= m <= |Written(crc, records)|
    ensures HoldsJust(crc, records, m, j)
    decreases |records| - i
  {
    hide Written, Emit;
    if i == |records| || m < |Written(crc, records[..i + 1])| {
      j := i;
    } else {
      j := CutSomewhere(crc, records, m, i + 1);
    }
  }

  // ---- The format ----

  // A record that fits in what is left of a block is one physical record of type 1: masked
  // checksum of type and data, length in two bytes, low one first, type, data.
  lemma ShortRecord(crc: Checksum, pos: nat, data: seq<byte>)
    requires pos % 32768 + 7 + |data| <= 32768
    ensures Emit(crc, pos, data, true)
         == Fixed(Mask(Crc(crc, [1] + data)), 4) + [|data| % 256, |data| / 256, 1] + data
  {
    EmitStep(crc, pos, data, true);
    HeadIs(crc, pos, data, true);
    assert Pad(pos) == 0 && FragmentLength(pos, data) == |data| && data[..|data|] == data;
    assert Zeros(0) == [];
  }

  // A longer one begins with a record of type 2 that fills the block; the rest of it is written
  // from the next block on, of type 3 as long as there is more, and 4 at the end.
  lemma LongRecord(crc: Checksum, pos: nat, data: seq<byte>, begin: bool)
    requires pos % 32768 + 7 <= 32768 < pos % 32768 + 7 + |data|
    ensures var n := 32768 - pos % 32768 - 7;
      Emit(crc, pos, data, begin)
      == PhysicalRecord(crc, if begin then 2 else 3, data[..n]) + Emit(crc, pos + 7 + n, data[n..], false)
      && (pos + 7 + n) % 32768 == 0
  {
    hide PhysicalRecord, Emit, Head, Pad, FragmentLength, FragmentEnd, Zeros;
    LongFragment(pos, data);
    EmitStep(crc, pos, data, begin);
    HeadIs(crc, pos, data, begin);
    NoZeros();
    var n := 32768 - pos % 32768 - 7;
    var record := PhysicalRecord(crc, if begin then 2 else 3, data[..n]);
    assert [] + record == record;
  }

  lemma LongFragment(pos: nat, data: seq<byte>)
    requires pos % 32768 + 7 <= 32768 < pos % 32768 + 7 + |data|
    ensures var n := 32768 - pos % 32768 - 7;
            Pad(pos) == 0 && FragmentLength(pos, data) == n && FragmentEnd(pos, data) == pos + 7 + n && (pos + 7 + n) % 32768 == 0
  {
  }

  lemma LastRecord(crc: Checksum, pos: nat, data: seq<byte>)
    requires pos % 32768 + 7 + |data| <= 32768
    ensures Emit(crc, pos, data, false) == PhysicalRecord(crc, 4, data)
  {
    hide PhysicalRecord;
    EmitStep(crc, pos, data, false);
    HeadIs(crc, pos, data, false);
    assert Pad(pos) == 0 && FragmentLength(pos, data) == |data| && data[..|data|] == data;
    assert Zeros(0) == [] && [] + PhysicalRecord(crc, 4, data) == PhysicalRecord(crc, 4, data);
  }

  // Where fewer than seven bytes are left in a block, zeros come first.
  lemma TrailerFirst(crc: Checksum, pos: nat, data: seq<byte>)
    requires pos % 32768 + 7 > 32768
    ensures var n := 32768 - pos % 32768;
            Emit(crc, pos, data, true) == Zeros(n) + Emit(crc, pos + n, data, true) && (pos + n) % 32768 == 0
  {
    hide PhysicalRecord, Zeros;
    var n := 32768 - pos % 32768;
    EmitStep(crc, pos, data, true);
    EmitStep(crc, pos + n, data, true);
    HeadIs(crc, pos, data, true);
    HeadIs(crc, pos + n, data, true);
    assert Pad(pos) == n && Pad(pos + n) == 0 && FragmentLength(pos, data) == FragmentLength(pos + n, data);
    NoZeros();
    var f := FragmentLength(pos, data);
    var record := PhysicalRecord(crc, Kind(true, f == |data|), data[..f]);
    assert Zeros(0) + record == record;
    if f < |data| {
      Regroup(Zeros(n), record, Emit(crc, FragmentEnd(pos, data), data[f..], false));
    }
  }

  lemma NoZeros()
    ensures Zeros(0) == []
  {
  }
}
