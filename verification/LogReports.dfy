// db/log_reader.cpp: what is reported as corrupted.
module LogReports {
  import opened Coding
  import opened Log
  import opened LogFailures

  // Everything reported from here on, with this much of a record assembled.
  function Reports(crc: Checksum, checksum: bool, s: ReaderState, i: bool, t: seq<byte>): seq<int> {
    match ReadLogical(crc, checksum, s, i, t)
    case Finished(_, drops) => drops
    case Record(_, state, drops) => drops + ReadAll(crc, checksum, state).1
  }

  lemma AllReports(crc: Checksum, checksum: bool, s: ReaderState)
    ensures ReadAll(crc, checksum, s).1 == Reports(crc, checksum, s, false, [])
  {
    hide ReadLogical;
  }

  // One physical record: what it makes the reader report comes first.
  lemma ReportsOn(crc: Checksum, checksum: bool, s: ReaderState, i: bool, t: seq<byte>)
    ensures var p := ReadPhysical(crc, checksum, s);
      match Assemble(p, i, t)
      case Again(i', t', drops) => Reports(crc, checksum, s, i, t) == drops + Reports(crc, checksum, p.state, i', t')
      case Return(Record(_, state, drops)) => Reports(crc, checksum, s, i, t) == drops + Reports(crc, checksum, state, false, [])
      case Return(Finished(_, drops)) => Reports(crc, checksum, s, i, t) == drops
  {
    hide ReadPhysical;
    var p := ReadPhysical(crc, checksum, s);
    match Assemble(p, i, t)
    case Again(i', t', drops) =>
      var l := ReadLogical(crc, checksum, p.state, i', t');
      if l.Record? {
        assert drops + (l.drops + ReadAll(crc, checksum, l.state).1) == drops + l.drops + ReadAll(crc, checksum, l.state).1;
      }
    case Return(l) =>
      if l.Record? {
        AllReports(crc, checksum, l.state);
      }
  }

  // No header here is a record's: its length runs past a whole block, or its checksum is wrong.
  predicate Corrupt(crc: Checksum, whole: seq<byte>, at: nat)
    requires at <= |whole|
  {
    var b := Loaded(whole, at).buffer;
    && |b| >= HEADER
    && if HEADER + HeaderLength(b) > |b| then BlockEnd(at) <= |whole|
       else !(b[6] == ZERO && HeaderLength(b) == 0) && Crc(crc, b[6..HEADER + HeaderLength(b)]) != Unmask(DecodeFixed(b[..4]))
  }

  lemma CorruptReported(crc: Checksum, whole: seq<byte>, at: nat, i: bool, t: seq<byte>)
    requires at <= |whole| && Pad(at) == 0 && Corrupt(crc, whole, at)
    ensures Reports(crc, true, Consumed(whole, at), i, t) != []
  {
    hide Crc, DecodeFixed, Unmask;
    SkipTrailer(crc, true, whole, at);
    var p := ReadPhysical(crc, true, Consumed(whole, at));
    assert p.kind == BAD_RECORD && |p.drops| == 1;
    hide ReadPhysical, Consumed, Loaded;
    ReportsOn(crc, true, Consumed(whole, at), i, t);
  }

  // The record being assembled after one turn of a reader that does not stop, and after the turns
  // that take it to the end of a file.
  function Turned(crc: Checksum, checksum: bool, whole: seq<byte>, at: nat, i: bool, t: seq<byte>): (bool, seq<byte>)
    requires at <= |whole|
  {
    if !Complete(crc, checksum, whole, at) then (false, if i then [] else t)
    else
      match Assemble(RecordRead(crc, checksum, whole, at), i, t)
      case Again(i', t', _) => (i', t')
      case Return(_) => (false, [])
  }

  lemma ArrivesStep(crc: Checksum, checksum: bool, file: seq<byte>, q: nat)
    requires q < |file| && Arrives(crc, checksum, file, q) && q + Pad(q) != |file|
    ensures q + Pad(q) < |file| && NextStop(crc, checksum, file, q + Pad(q)) <= |file|
    ensures q < NextStop(crc, checksum, file, q + Pad(q)) && Arrives(crc, checksum, file, NextStop(crc, checksum, file, q + Pad(q)))
  {
    hide Complete, Loaded, Pad;
    var at := q + Pad(q);
    NextBoundary(q);
    if Complete(crc, checksum, file, at) {
      CompleteInside(crc, checksum, file, at);
    }
  }

  // Where the reader goes on from this place.
  function NextStop(crc: Checksum, checksum: bool, file: seq<byte>, at: nat): nat
    requires at <= |file|
  {
    if Complete(crc, checksum, file, at) then
      CompleteInside(crc, checksum, file, at);
      EndOf(file, at)
    else BlockEnd(at)
  }

  ghost function Carried(crc: Checksum, checksum: bool, file: seq<byte>, q: nat, i: bool, t: seq<byte>): (bool, seq<byte>)
    requires q <= |file| && Arrives(crc, checksum, file, q)
    decreases |file| - q
  {
    var at := q + Pad(q);
    if q == |file| || at == |file| then (i, t)
    else
      ArrivesStep(crc, checksum, file, q);
      var (i', t') := Turned(crc, checksum, file, at, i, t);
      Carried(crc, checksum, file, NextStop(crc, checksum, file, at), i', t')
  }

  // What one turn leaves to be reported.
  lemma ReportsGoOn(crc: Checksum, checksum: bool, whole: seq<byte>, q: nat, i: bool, t: seq<byte>)
    requires q + Pad(q) < |whole|
    requires var at := q + Pad(q);
             if Complete(crc, checksum, whole, at) then RecordRead(crc, checksum, whole, at).kind != END_OF_FILE else BlockEnd(at) <= |whole|
    ensures var at := q + Pad(q); var on := Complete(crc, checksum, whole, at);
            && (on ==> |Loaded(whole, at).buffer| >= HEADER && EndOf(whole, at) <= |whole|)
            && var (i', t') := Turned(crc, checksum, whole, at, i, t);
               Reports(crc, checksum, Consumed(whole, if on then EndOf(whole, at) else BlockEnd(at)), i', t') != [] ==>
                 Reports(crc, checksum, Consumed(whole, q), i, t) != []
  {
    hide ReadPhysical, Complete, Loaded, Consumed, Reports, Pad;
    var at := q + Pad(q);
    NextBoundary(q);
    SkipTrailer(crc, checksum, whole, q);
    PhysicalAt(crc, checksum, whole, at);
    ReportsOn(crc, checksum, Consumed(whole, q), i, t);
    if Complete(crc, checksum, whole, at) {
      CompleteInside(crc, checksum, whole, at);
    }
  }

  // What is reported once the reader is at the end of file is reported of all that begins with it.
  lemma {:induction false} ReportsReach(crc: Checksum, checksum: bool, file: seq<byte>, whole: seq<byte>, q: nat, i: bool, t: seq<byte>)
    requires q <= |file| && file <= whole && |file| < |whole| && Arrives(crc, checksum, file, q) && Pad(|file|) == 0
    requires var (i', t') := Carried(crc, checksum, file, q, i, t); Reports(crc, checksum, Consumed(whole, |file|), i', t') != []
    ensures Reports(crc, checksum, Consumed(whole, q), i, t) != []
    decreases |file| - q
  {
    hide Complete, RecordRead, Loaded, Reports, Pad, Consumed;
    var at := q + Pad(q);
    if q != |file| && at == |file| {
      SameReports(crc, checksum, whole, q, i, t);
    } else if q != |file| {
      NextBoundary(q);
      CompleteMore(crc, checksum, file, whole, at);
      if Complete(crc, checksum, file, at) {
        CompleteInside(crc, checksum, file, at);
        KindOf(crc, checksum, file, at);
      }
      SameTurn(crc, checksum, file, whole, at, i, t);
      ReportsGoOn(crc, checksum, whole, q, i, t);
      var (i2, t2) := Turned(crc, checksum, file, at, i, t);
      ReportsReach(crc, checksum, file, whole, if Complete(crc, checksum, file, at) then EndOf(file, at) else BlockEnd(at), i2, t2);
    }
  }

  lemma SameTurn(crc: Checksum, checksum: bool, file: seq<byte>, whole: seq<byte>, at: nat, i: bool, t: seq<byte>)
    requires at <= |file| && file <= whole && (Complete(crc, checksum, whole, at) ==> Complete(crc, checksum, file, at))
    ensures Turned(crc, checksum, file, at, i, t) == Turned(crc, checksum, whole, at, i, t)
  {
    hide Complete, RecordRead, Loaded;
    CompleteMore(crc, checksum, file, whole, at);
  }

  lemma SameReports(crc: Checksum, checksum: bool, whole: seq<byte>, q: nat, i: bool, t: seq<byte>)
    requires q + Pad(q) <= |whole|
    ensures Reports(crc, checksum, Consumed(whole, q), i, t) == Reports(crc, checksum, Consumed(whole, q + Pad(q)), i, t)
  {
    hide ReadPhysical, Consumed, Loaded;
    NextBoundary(q);
    SkipTrailer(crc, checksum, whole, q);
    SkipTrailer(crc, checksum, whole, q + Pad(q));
    hide Pad;
    var a, b := Consumed(whole, q), Consumed(whole, q + Pad(q));
    assert ReadPhysical(crc, checksum, a) == ReadPhysical(crc, checksum, b);
    assert ReadLogical(crc, checksum, a, i, t) == ReadLogical(crc, checksum, b, i, t);
  }

  // A record that cannot stand where it does: one that goes on where none was begun, one that
  // begins where another has not ended, or one of a type there is not.
  predicate OutOfPlace(kind: byte, i: bool, t: seq<byte>) {
    || (kind in {3, 4} && !i)
    || (kind in {1, 2} && i && t != [])
    || kind !in {1, 2, 3, 4, 5, 6}
  }

  lemma OutOfPlaceReported(crc: Checksum, whole: seq<byte>, at: nat, i: bool, t: seq<byte>)
    requires at <= |whole| && Pad(at) == 0 && Complete(crc, true, whole, at)
    requires OutOfPlace(RecordRead(crc, true, whole, at).kind, i, t)
    ensures Reports(crc, true, Consumed(whole, at), i, t) != []
  {
    hide ReadPhysical, Consumed, Loaded, Complete, RecordRead, Reports;
    SkipTrailer(crc, true, whole, at);
    PhysicalAt(crc, true, whole, at);
    ReportsOn(crc, true, Consumed(whole, at), i, t);
    CompleteInside(crc, true, whole, at);
    NoDrops(crc, true, whole, at);
  }

  lemma NoDrops(crc: Checksum, checksum: bool, file: seq<byte>, at: nat)
    requires at <= |file| && Complete(crc, checksum, file, at)
    ensures RecordRead(crc, checksum, file, at).drops == []
  {
  }

  // A header of zeros, which is passed over, but not in the middle of a record.
  predicate ZeroHeader(whole: seq<byte>, at: nat)
    requires at <= |whole|
  {
    var b := Loaded(whole, at).buffer;
    |b| >= HEADER && b[6] == 0 && HeaderLength(b) == 0
  }

  lemma ZeroInRecordReported(crc: Checksum, whole: seq<byte>, at: nat, t: seq<byte>)
    requires at <= |whole| && Pad(at) == 0 && ZeroHeader(whole, at)
    ensures Reports(crc, true, Consumed(whole, at), true, t) != []
  {
    hide Crc, DecodeFixed, Unmask;
    SkipTrailer(crc, true, whole, at);
    var p := ReadPhysical(crc, true, Consumed(whole, at));
    assert p.kind == BAD_RECORD && p.drops == [];
    hide ReadPhysical, Consumed, Loaded;
    ReportsOn(crc, true, Consumed(whole, at), true, t);
  }

  // What a reader gets to and cannot use is reported: a header that cannot be a record's, zeros in
  // the middle of a record, or a record out of place. A file with one is never read as if it were whole.
  lemma CorruptionIsReported(crc: Checksum, whole: seq<byte>, at: nat)
    requires at < |whole| && Pad(at) == 0 && Arrives(crc, true, whole[..at], 0)
    requires var (i, t) := Carried(crc, true, whole[..at], 0, false, []);
             Corrupt(crc, whole, at) || (i && ZeroHeader(whole, at)) || (Complete(crc, true, whole, at) && OutOfPlace(RecordRead(crc, true, whole, at).kind, i, t))
    ensures ReadAll(crc, true, Opened(whole)).1 != []
  {
    hide Arrives, Carried, Corrupt, ZeroHeader, Reports, Pad, ReadAll, OutOfPlace, Complete, RecordRead;
    var (i, t) := Carried(crc, true, whole[..at], 0, false, []);
    if Corrupt(crc, whole, at) {
      CorruptReported(crc, whole, at, i, t);
    } else if i && ZeroHeader(whole, at) {
      ZeroInRecordReported(crc, whole, at, t);
    } else {
      OutOfPlaceReported(crc, whole, at, i, t);
    }
    ReportsReach(crc, true, whole[..at], whole, 0, false, []);
    AllReports(crc, true, Opened(whole));
    assert whole[0..] == whole;
  }

  // ---- Zeros behind the records ----

  // The bytes from pos on are zeros.
  ghost predicate ZerosFrom(whole: seq<byte>, pos: nat) {
    forall k :: pos <= k < |whole| ==> whole[k] == 0
  }

  lemma ZerosPhysical(crc: Checksum, checksum: bool, whole: seq<byte>, at: nat)
    requires at <= |whole| && Pad(at) == 0 && ZerosFrom(whole, at)
    ensures var p := ReadPhysical(crc, checksum, Loaded(whole, at));
            && p.drops == []
            && (p.kind == END_OF_FILE
                || (p.kind == BAD_RECORD && if BlockEnd(at) <= |whole| then p.state == Consumed(whole, BlockEnd(at)) else p.state.eof && p.state.buffer == []))
  {
    hide Crc, DecodeFixed, Unmask;
    NextBoundary(at);
    var s := Loaded(whole, at);
    if |s.buffer| >= HEADER {
      assert s.buffer[4] == whole[at + 4] == 0 && s.buffer[5] == whole[at + 5] == 0 && s.buffer[6] == whole[at + 6] == 0;
    }
  }

  lemma {:induction false} ZerosRead(crc: Checksum, checksum: bool, whole: seq<byte>, q: nat)
    requires q <= |whole| && ZerosFrom(whole, q)
    ensures var l := ReadLogical(crc, checksum, Consumed(whole, q), false, []); l.Finished? && l.drops == []
    decreases |whole| - q
  {
    hide ReadPhysical, Loaded, Consumed;
    var at := q + Pad(q);
    NextBoundary(q);
    SkipTrailer(crc, checksum, whole, q);
    if at <= |whole| {
      ZerosPhysical(crc, checksum, whole, at);
      var p := ReadPhysical(crc, checksum, Consumed(whole, q));
      if p.kind == BAD_RECORD {
        if BlockEnd(at) <= |whole| {
          ZerosRead(crc, checksum, whole, BlockEnd(at));
        } else {
          QuietEnd(crc, checksum, p.state);
        }
      }
    }
  }

  lemma QuietEnd(crc: Checksum, checksum: bool, s: ReaderState)
    requires s.eof && s.buffer == []
    ensures var l := ReadLogical(crc, checksum, s, false, []); l.Finished? && l.drops == []
  {
  }

  lemma {:induction false} RecordsThenZeros(crc: Checksum, checksum: bool, records: seq<seq<byte>>, whole: seq<byte>, k: nat)
    requires Written(crc, records) <= whole && ZerosFrom(whole, |Written(crc, records)|) && k <= |records|
    requires |Written(crc, records[..k])| <= |whole|
    ensures ReadAll(crc, checksum, Consumed(whole, |Written(crc, records[..k])|)) == (records[k..], [])
    decreases |records| - k
  {
    hide ReadLogical, Consumed, Emit, Written;
    var pos := |Written(crc, records[..k])|;
    if k == |records| {
      assert records[..k] == records && records[k..] == [];
      ZerosRead(crc, checksum, whole, pos);
    } else {
      var end := |Written(crc, records[..k + 1])|;
      WrittenAt(crc, records, k);
      assert whole[pos..end] == Written(crc, records)[pos..end] && whole[..|whole|] == whole;
      ReadEmitted(crc, checksum, whole, |whole|, pos, records[k], true, [], end);
      assert [] + records[k] == records[k];
      RecordsThenZeros(crc, checksum, records, whole, k + 1);
      var next := Consumed(whole, end);
      assert ReadLogical(crc, checksum, Consumed(whole, pos), false, []) == Record(records[k], next, []);
      assert [] + ReadAll(crc, checksum, next).1 == [];
      assert [records[k]] + records[k + 1..] == records[k..];
    }
  }

  // Zeros behind the records, as a file allocated ahead has them, are passed over in silence.
  lemma ZerosAreSilent(crc: Checksum, checksum: bool, records: seq<seq<byte>>, n: nat)
    ensures ReadAll(crc, checksum, Opened(Written(crc, records) + Zeros(n))) == (records, [])
  {
    hide ReadAll, Written, Emit;
    var whole := Written(crc, records) + Zeros(n);
    WrittenNone(crc, records);
    RecordsThenZeros(crc, checksum, records, whole, 0);
    assert whole[0..] == whole && records[0..] == records;
  }
}
