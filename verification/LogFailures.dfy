// db/log_writer.cpp and db/log_reader.cpp after a failure: just when a writer may go on appending
// to a file that an earlier writer, a failed append or a crash left behind.
module LogFailures {
  import opened Coding
  import opened Log

  // ---- Reading by position ----

  function Length(file: seq<byte>, at: nat): nat
    requires at <= |file| && |Loaded(file, at).buffer| >= HEADER
  {
    HeaderLength(Loaded(file, at).buffer)
  }

  // A physical record lies at this place, all of it within its block and the file, and its
  // checksum is right.
  predicate Complete(crc: Checksum, checksum: bool, file: seq<byte>, at: nat)
    requires at <= |file|
  {
    CompleteIn(crc, checksum, Loaded(file, at).buffer)
  }

  predicate CompleteIn(crc: Checksum, checksum: bool, b: seq<byte>) {
    && |b| >= HEADER && HEADER + HeaderLength(b) <= |b|
    && !(b[6] == ZERO && HeaderLength(b) == 0)
    && (checksum ==> Crc(crc, b[6..HEADER + HeaderLength(b)]) == Unmask(DecodeFixed(b[..4])))
  }

  // Where it ends, and what reading it gives.
  function EndOf(file: seq<byte>, at: nat): (end: nat)
    requires at <= |file| && |Loaded(file, at).buffer| >= HEADER
    ensures end >= at + HEADER
  {
    at + HEADER + Length(file, at)
  }

  function RecordRead(crc: Checksum, checksum: bool, file: seq<byte>, at: nat): (p: Physical)
    requires at <= |file| && Complete(crc, checksum, file, at)
  {
    var b := Loaded(file, at).buffer;
    CompleteInside(crc, checksum, file, at);
    Physical(b[6], b[HEADER..HEADER + HeaderLength(b)], Consumed(file, EndOf(file, at)), [])
  }

  lemma CompleteInside(crc: Checksum, checksum: bool, file: seq<byte>, at: nat)
    requires at <= |file| && Complete(crc, checksum, file, at)
    ensures |Loaded(file, at).buffer| >= HEADER
    ensures EndOf(file, at) <= |file| && EndOf(file, at) <= BlockEnd(at)
  {
  }

  // The reader from position q on: the records it returns, each with the offset that
  // LastRecordOffset gives it, of its first physical record.
  function Scan(crc: Checksum, checksum: bool, file: seq<byte>, q: nat, inFragment: bool, scratch: seq<byte>, start: nat): seq<(nat, seq<byte>)>
    requires q <= |file|
    decreases |file| - q
  {
    var at := q + Pad(q);
    if at > |file| then []
    else if !Complete(crc, checksum, file, at) then
      NextBoundary(q);
      if BlockEnd(at) <= |file| then Scan(crc, checksum, file, BlockEnd(at), false, if inFragment then [] else scratch, start) else []
    else
      var p := RecordRead(crc, checksum, file, at);
      CompleteInside(crc, checksum, file, at);
      var end := EndOf(file, at);
      match Assemble(p, inFragment, scratch)
      case Return(l) =>
        if l.Record? then [(if p.kind == FULL then at else start, l.data)] + Scan(crc, checksum, file, end, false, [], start) else []
      case Again(i, t, _) => Scan(crc, checksum, file, end, i, t, if p.kind == FIRST then at else start)
  }

  lemma NextBoundary(q: nat)
    ensures BlockEnd(q + Pad(q)) > q && BlockEnd(q + Pad(q)) % BLOCK == 0
    ensures Pad(q) > 0 ==> (q + Pad(q)) % BLOCK == 0
    ensures BlockEnd(q + Pad(q)) - (q + Pad(q)) >= HEADER
    ensures Pad(q + Pad(q)) == 0
  {
  }

  function Data(rs: seq<(nat, seq<byte>)>): (r: seq<seq<byte>>)
    ensures |r| == |rs|
  {
    seq(|rs|, i requires 0 <= i < |rs| => rs[i].1)
  }

  // What the buffered reader does at a place.
  lemma PhysicalAt(crc: Checksum, checksum: bool, file: seq<byte>, at: nat)
    requires at <= |file| && Pad(at) == 0
    ensures var p := ReadPhysical(crc, checksum, Loaded(file, at));
      if Complete(crc, checksum, file, at) then p == RecordRead(crc, checksum, file, at)
      else p.kind == END_OF_FILE
           || (p.kind == BAD_RECORD && p.fragment == []
               && if BlockEnd(at) <= |file| then p.state == Consumed(file, BlockEnd(at)) else p.state.eof && p.state.buffer == [])
    ensures BlockEnd(at) <= |file| ==> |Loaded(file, at).buffer| >= HEADER
    ensures !Complete(crc, checksum, file, at) && BlockEnd(at) <= |file| ==> ReadPhysical(crc, checksum, Loaded(file, at)).kind == BAD_RECORD
  {
    hide Crc, Unmask, DecodeFixed;
    NextBoundary(at);
    var s := Loaded(file, at);
    var e := Min(BlockEnd(at), |file|);
    assert |s.buffer| == e - at;
    if |s.buffer| >= HEADER && HEADER + HeaderLength(s.buffer) <= |s.buffer| {
      var end := EndOf(file, at);
      SameBlock(at, end);
      assert s.buffer[HEADER + HeaderLength(s.buffer)..] == file[end..e];
      assert s.(buffer := file[end..e]) == Consumed(file, end) by { RestOfBlock(file, at, end); }
    }
    assert s.rest == file[e..];
  }

  lemma RestOfBlock(file: seq<byte>, at: nat, end: nat)
    requires at < end <= Min(BlockEnd(at), |file|)
    ensures ReaderState(file[Min(BlockEnd(at), |file|)..], file[end..Min(BlockEnd(at), |file|)], BlockEnd(at) > |file|) == Consumed(file, end)
  {
    SameBlock(at, end);
  }

  lemma EndedReads(crc: Checksum, checksum: bool, s: ReaderState, inFragment: bool, scratch: seq<byte>)
    requires s.eof && s.buffer == []
    ensures ReadLogical(crc, checksum, s, inFragment, scratch).Finished?
  {
  }

  // The scan's first record is what ReadRecord returns.
  ghost predicate Agrees(crc: Checksum, checksum: bool, file: seq<byte>, q: nat, inFragment: bool, scratch: seq<byte>, start: nat)
    requires q <= |file|
  {
    match ReadLogical(crc, checksum, Consumed(file, q), inFragment, scratch)
    case Finished(_, _) => Scan(crc, checksum, file, q, inFragment, scratch, start) == []
    case Record(data, s, _) => exists q', at, st :: FoundNext(crc, checksum, file, q, inFragment, scratch, start, data, s, q', at, st)
  }

  ghost predicate FoundNext(crc: Checksum, checksum: bool, file: seq<byte>, q: nat, inFragment: bool, scratch: seq<byte>, start: nat,
                            data: seq<byte>, s: ReaderState, q': nat, at: nat, st: nat)
    requires q <= |file|
  {
    && q < q' <= |file| && s == Consumed(file, q')
    && Scan(crc, checksum, file, q, inFragment, scratch, start) == [(at, data)] + Scan(crc, checksum, file, q', false, [], st)
  }

  lemma {:induction false} ScanIsRead(crc: Checksum, checksum: bool, file: seq<byte>, q: nat, inFragment: bool, scratch: seq<byte>, start: nat)
    requires q <= |file|
    ensures Agrees(crc, checksum, file, q, inFragment, scratch, start)
    decreases |file| - q
  {
    hide ReadPhysical, Complete, RecordRead, Loaded, Agrees;
    var at := q + Pad(q);
    var p := ReadPhysical(crc, checksum, Consumed(file, q));
    SkipTrailer(crc, checksum, file, q);
    NextBoundary(q);
    if at > |file| {
      AgreesAtEnd(crc, checksum, file, q, inFragment, scratch, start);
    } else {
      PhysicalAt(crc, checksum, file, at);
      if Complete(crc, checksum, file, at) {
        CompleteInside(crc, checksum, file, at);
        ScanTurn(crc, checksum, file, q, inFragment, scratch, start);
      } else if p.kind == BAD_RECORD && BlockEnd(at) <= |file| {
        ScanIsRead(crc, checksum, file, BlockEnd(at), false, if inFragment then [] else scratch, start);
        AgreesOn(crc, checksum, file, q, inFragment, scratch, start, BlockEnd(at), false, if inFragment then [] else scratch, start);
      } else {
        AgreesAtEnd(crc, checksum, file, q, inFragment, scratch, start);
      }
    }
  }

  lemma AgreesAtEnd(crc: Checksum, checksum: bool, file: seq<byte>, q: nat, inFragment: bool, scratch: seq<byte>, start: nat)
    requires q <= |file| && Scan(crc, checksum, file, q, inFragment, scratch, start) == []
    requires var p := ReadPhysical(crc, checksum, Consumed(file, q));
             p.kind == END_OF_FILE || (p.kind == BAD_RECORD && p.state.eof && p.state.buffer == [])
    ensures Agrees(crc, checksum, file, q, inFragment, scratch, start)
  {
    hide Consumed, Complete;
    var p := ReadPhysical(crc, checksum, Consumed(file, q));
    if p.kind == BAD_RECORD {
      EndedReads(crc, checksum, p.state, false, if inFragment then [] else scratch);
    }
    hide ReadPhysical;
  }

  // One turn on, the two go on together.
  lemma AgreesOn(crc: Checksum, checksum: bool, file: seq<byte>, q: nat, inFragment: bool, scratch: seq<byte>, start: nat,
                 q': nat, i: bool, t: seq<byte>, st: nat)
    requires q < q' <= |file| && Agrees(crc, checksum, file, q', i, t, st)
    requires Scan(crc, checksum, file, q, inFragment, scratch, start) == Scan(crc, checksum, file, q', i, t, st)
    requires var p := ReadPhysical(crc, checksum, Consumed(file, q));
             p.state == Consumed(file, q') && Assemble(p, inFragment, scratch).Again?
             && Assemble(p, inFragment, scratch).inFragment == i && Assemble(p, inFragment, scratch).scratch == t
    ensures Agrees(crc, checksum, file, q, inFragment, scratch, start)
  {
    hide ReadPhysical, Scan, Consumed, Assemble;
    var l := ReadLogical(crc, checksum, Consumed(file, q'), i, t);
    if l.Record? {
      var q2, a, s2 :| FoundNext(crc, checksum, file, q', i, t, st, l.data, l.state, q2, a, s2);
      assert FoundNext(crc, checksum, file, q, inFragment, scratch, start, l.data, l.state, q2, a, s2);
    }
  }

  lemma {:induction false} ScanTurn(crc: Checksum, checksum: bool, file: seq<byte>, q: nat, inFragment: bool, scratch: seq<byte>, start: nat)
    requires q + Pad(q) <= |file| && Complete(crc, checksum, file, q + Pad(q))
    requires ReadPhysical(crc, checksum, Consumed(file, q)) == RecordRead(crc, checksum, file, q + Pad(q))
    ensures Agrees(crc, checksum, file, q, inFragment, scratch, start)
    decreases |file| - q, 0
  {
    hide ReadPhysical, Complete, Loaded, Consumed, Agrees;
    var at := q + Pad(q);
    CompleteInside(crc, checksum, file, at);
    var p, end := RecordRead(crc, checksum, file, at), EndOf(file, at);
    match Assemble(p, inFragment, scratch)
    case Return(l) => ReturnAgrees(crc, checksum, file, q, inFragment, scratch, start, end, if p.kind == FULL then at else start);
    case Again(i, t, _) =>
      ScanIsRead(crc, checksum, file, end, i, t, if p.kind == FIRST then at else start);
      AgreesOn(crc, checksum, file, q, inFragment, scratch, start, end, i, t, if p.kind == FIRST then at else start);
  }

  lemma ReturnAgrees(crc: Checksum, checksum: bool, file: seq<byte>, q: nat, inFragment: bool, scratch: seq<byte>, start: nat,
                     end: nat, at: nat)
    requires q < end <= |file| && Assemble(ReadPhysical(crc, checksum, Consumed(file, q)), inFragment, scratch).Return?
    requires ReadPhysical(crc, checksum, Consumed(file, q)).state == Consumed(file, end)
    requires var l := Assemble(ReadPhysical(crc, checksum, Consumed(file, q)), inFragment, scratch).result;
             Scan(crc, checksum, file, q, inFragment, scratch, start)
             == if l.Record? then [(at, l.data)] + Scan(crc, checksum, file, end, false, [], start) else []
    ensures Agrees(crc, checksum, file, q, inFragment, scratch, start)
  {
    hide ReadPhysical, Scan, Consumed;
    var l := Assemble(ReadPhysical(crc, checksum, Consumed(file, q)), inFragment, scratch).result;
    if l.Record? {
      assert FoundNext(crc, checksum, file, q, inFragment, scratch, start, l.data, l.state, end, at, start);
    }
  }

  // What a scan from the start of a file returns is what the caller of ReadRecord gets.
  lemma {:induction false} ScanIsReadAll(crc: Checksum, checksum: bool, file: seq<byte>, q: nat, start: nat)
    requires q <= |file|
    ensures Data(Scan(crc, checksum, file, q, false, [], start)) == ReadAll(crc, checksum, Consumed(file, q)).0
    decreases |file| - q
  {
    hide ReadLogical, Scan, Consumed;
    ScanIsRead(crc, checksum, file, q, false, [], start);
    var l := ReadLogical(crc, checksum, Consumed(file, q), false, []);
    if l.Record? {
      var q', at, st :| FoundNext(crc, checksum, file, q, false, [], start, l.data, l.state, q', at, st);
      ScanIsReadAll(crc, checksum, file, q', st);
      DataCons(at, l.data, Scan(crc, checksum, file, q', false, [], st));
    } else {
      assert Data([]) == [];
    }
  }

  lemma DataCons(at: nat, data: seq<byte>, rest: seq<(nat, seq<byte>)>)
    ensures Data([(at, data)] + rest) == [data] + Data(rest)
  {
  }

  // ---- Appending to whatever is there ----

  // What a writer at this offset adds for these records, and where in the file they begin.
  function Appends(crc: Checksum, pos: nat, records: seq<seq<byte>>): seq<byte>
    decreases |records|
  {
    if |records| == 0 then []
    else
      var e := Emit(crc, pos, records[0], true);
      e + Appends(crc, pos + |e|, records[1..])
  }

  function Places(crc: Checksum, pos: nat, at: nat, records: seq<seq<byte>>): seq<(nat, seq<byte>)>
    decreases |records|
  {
    if |records| == 0 then []
    else
      var e := Emit(crc, pos, records[0], true);
      [(at + Pad(pos), records[0])] + Places(crc, pos + |e|, at + |e|, records[1..])
  }

  // The records appended are read back, all of them, where they were written and in order.
  ghost predicate ReadsBack(crc: Checksum, checksum: bool, file: seq<byte>, offset: nat, records: seq<seq<byte>>) {
    exists before :: Scan(crc, checksum, file + Appends(crc, offset, records), 0, false, [], 0)
                     == before + Places(crc, offset, |file|, records)
  }

  // The file with the trailer of its last block, which the next record will not use.
  function Padded(file: seq<byte>): seq<byte> {
    file + Zeros(Pad(|file|))
  }

  // From q on the reader gets through the file to its very end.
  ghost predicate Arrives(crc: Checksum, checksum: bool, file: seq<byte>, q: nat)
    requires q <= |file|
    decreases |file| - q
  {
    var at := q + Pad(q);
    || q == |file|
    || at == |file|
    || (at < |file| && ArrivesFrom(crc, checksum, file, q, at))
  }

  ghost predicate ArrivesFrom(crc: Checksum, checksum: bool, file: seq<byte>, q: nat, at: nat)
    requires q <= at == q + Pad(q) < |file|
    decreases |file| - q, 0
  {
    NextBoundary(q);
    if Complete(crc, checksum, file, at) then
      CompleteInside(crc, checksum, file, at);
      Loaded(file, at).buffer[6] != END_OF_FILE && Arrives(crc, checksum, file, EndOf(file, at))
    else BlockEnd(at) <= |file| && Arrives(crc, checksum, file, BlockEnd(at))
  }

  // The writer's offset is the file's, and the reader gets to the end.
  ghost predicate Ready(crc: Checksum, checksum: bool, file: seq<byte>, offset: nat) {
    offset % BLOCK == |file| % BLOCK && Arrives(crc, checksum, Padded(file), 0)
  }

  // ---- Ready files ----

  lemma BufferMore(file: seq<byte>, more: seq<byte>, at: nat)
    requires at <= |file| && file <= more
    ensures Loaded(file, at).buffer <= Loaded(more, at).buffer
    ensures BlockEnd(at) <= |file| ==> Loaded(file, at).buffer == Loaded(more, at).buffer
    ensures |Loaded(file, at).buffer| == Min(BlockEnd(at), |file|) - at
  {
  }

  lemma CompleteInMore(crc: Checksum, checksum: bool, b: seq<byte>, c: seq<byte>)
    requires b <= c
    ensures CompleteIn(crc, checksum, b) ==> CompleteIn(crc, checksum, c) && HeaderLength(b) == HeaderLength(c)
                                              && b[HEADER..HEADER + HeaderLength(b)] == c[HEADER..HEADER + HeaderLength(c)]
    ensures CompleteIn(crc, checksum, c) && HEADER + HeaderLength(c) <= |b| ==> CompleteIn(crc, checksum, b)
  {
    if |b| >= HEADER {
      assert b[..4] == c[..4] && HeaderLength(b) == HeaderLength(c);
      var end := HEADER + HeaderLength(b);
      if end <= |b| {
        assert b[6..end] == c[6..end] && b[HEADER..end] == c[HEADER..end];
      }
    }
  }

  // A record complete in a file is complete in a longer one; and the other way round, if it ends
  // in the file or its block does.
  lemma CompleteMore(crc: Checksum, checksum: bool, file: seq<byte>, more: seq<byte>, at: nat)
    requires at <= |file| && file <= more
    ensures Complete(crc, checksum, file, at) ==>
              && Complete(crc, checksum, more, at) && EndOf(more, at) == EndOf(file, at)
              && RecordRead(crc, checksum, more, at).kind == RecordRead(crc, checksum, file, at).kind
              && RecordRead(crc, checksum, more, at).fragment == RecordRead(crc, checksum, file, at).fragment
    ensures Complete(crc, checksum, more, at) && (BlockEnd(at) <= |file| || EndOf(more, at) <= |file|) ==> Complete(crc, checksum, file, at)
  {
    hide CompleteIn, Loaded;
    BufferMore(file, more, at);
    CompleteInMore(crc, checksum, Loaded(file, at).buffer, Loaded(more, at).buffer);
    if Complete(crc, checksum, more, at) {
      CompleteInside(crc, checksum, more, at);
    }
    if Complete(crc, checksum, file, at) {
      CompleteInside(crc, checksum, file, at);
    }
  }

  // The trailer makes no difference.
  lemma SameScan(crc: Checksum, checksum: bool, file: seq<byte>, q: nat, i: bool, t: seq<byte>, st: nat)
    requires q + Pad(q) <= |file|
    ensures Scan(crc, checksum, file, q, i, t, st) == Scan(crc, checksum, file, q + Pad(q), i, t, st)
  {
    hide Complete, RecordRead;
    NextBoundary(q);
  }

  lemma {:induction false} ReachEnd(crc: Checksum, checksum: bool, file: seq<byte>, whole: seq<byte>, q: nat, i: bool, t: seq<byte>, st: nat)
    returns (before: seq<(nat, seq<byte>)>, i': bool, t': seq<byte>, st': nat)
    requires q <= |file| && file <= whole && Arrives(crc, checksum, file, q)
    ensures Scan(crc, checksum, whole, q, i, t, st) == before + Scan(crc, checksum, whole, |file|, i', t', st')
    decreases |file| - q
  {
    hide Complete, RecordRead, Loaded, Scan, Pad;
    var at := q + Pad(q);
    before, i', t', st' := [], i, t, st;
    if q != |file| && at == |file| {
      SameScan(crc, checksum, whole, q, i, t, st);
    } else if q != |file| {
      NextBoundary(q);
      CompleteMore(crc, checksum, file, whole, at);
      if Complete(crc, checksum, file, at) {
        CompleteInside(crc, checksum, file, at);
        KindOf(crc, checksum, file, at);
      }
      var head, i2, t2, st2 := ScanGoesOn(crc, checksum, whole, q, i, t, st);
      before, i', t', st' := ReachEnd(crc, checksum, file, whole, if Complete(crc, checksum, file, at) then EndOf(file, at) else BlockEnd(at), i2, t2, st2);
      before := head + before;
    }
  }

  // One turn of a reader that does not stop.
  lemma ScanGoesOn(crc: Checksum, checksum: bool, whole: seq<byte>, q: nat, i: bool, t: seq<byte>, st: nat)
    returns (head: seq<(nat, seq<byte>)>, i': bool, t': seq<byte>, st': nat)
    requires q + Pad(q) < |whole|
    requires var at := q + Pad(q);
             if Complete(crc, checksum, whole, at) then RecordRead(crc, checksum, whole, at).kind != END_OF_FILE else BlockEnd(at) <= |whole|
    ensures var at := q + Pad(q); var on := Complete(crc, checksum, whole, at);
            && (on ==> |Loaded(whole, at).buffer| >= HEADER && EndOf(whole, at) <= |whole|)
            && Scan(crc, checksum, whole, q, i, t, st) == head + Scan(crc, checksum, whole, if on then EndOf(whole, at) else BlockEnd(at), i', t', st')
  {
    hide Complete, RecordRead, Loaded, Pad;
    var at := q + Pad(q);
    NextBoundary(q);
    head, i', t', st' := [], false, if i then [] else t, st;
    if Complete(crc, checksum, whole, at) {
      CompleteInside(crc, checksum, whole, at);
      var p := RecordRead(crc, checksum, whole, at);
      match Assemble(p, i, t) {
        case Return(l) => head, t' := [(if p.kind == FULL then at else st, l.data)], [];
        case Again(i2, t2, _) => i', t', st' := i2, t2, if p.kind == FIRST then at else st;
      }
    }
  }

  lemma KindOf(crc: Checksum, checksum: bool, file: seq<byte>, at: nat)
    requires at <= |file| && Complete(crc, checksum, file, at)
    ensures |Loaded(file, at).buffer| >= HEADER && RecordRead(crc, checksum, file, at).kind == Loaded(file, at).buffer[6]
  {
  }

  // A record written is complete.
  lemma WrittenComplete(crc: Checksum, checksum: bool, file: seq<byte>, at: nat, kind: byte, payload: seq<byte>)
    requires RecordAt(crc, file, at, kind, payload) && kind != ZERO
    ensures at <= |file| && Complete(crc, checksum, file, at) && EndOf(file, at) == at + HEADER + |payload|
    ensures RecordRead(crc, checksum, file, at).kind == kind && RecordRead(crc, checksum, file, at).fragment == payload
  {
    hide PhysicalRecord, Crc, Unmask, DecodeFixed, BlockEnd;
    var end := at + HEADER + |payload|;
    var e := Min(BlockEnd(at), |file|);
    SameBlock(at, end);
    assert Loaded(file, at).buffer == PhysicalRecord(crc, kind, payload) + file[end..e];
    HeaderReads(crc, checksum, kind, payload, file[end..e]);
  }

  // One fragment of a record, read from where it was written.
  lemma FragmentScan(crc: Checksum, checksum: bool, whole: seq<byte>, pos: nat, begin: bool, last: bool, payload: seq<byte>,
                     i: bool, t: seq<byte>, st: nat, end: nat)
    requires RecordAt(crc, whole, pos + Pad(pos), Kind(begin, last), payload) && end == pos + Pad(pos) + HEADER + |payload| <= |whole|
    requires begin || i
    ensures var first := if begin then pos + Pad(pos) else st; var sofar := if begin then payload else t + payload;
            Scan(crc, checksum, whole, pos, i, t, st)
            == if last then [(first, sofar)] + Scan(crc, checksum, whole, end, false, [], st)
               else Scan(crc, checksum, whole, end, true, sofar, first)
  {
    hide Complete, RecordRead, RecordAt, Pad;
    var at := pos + Pad(pos);
    WrittenComplete(crc, checksum, whole, at, Kind(begin, last), payload);
    var p := RecordRead(crc, checksum, whole, at);
    assert begin ==> p.kind == (if last then FULL else FIRST);
    assert !begin ==> p.kind == (if last then LAST else MIDDLE);
  }

  // An emitted record is read from where it was written, whatever was being assembled before it.
  lemma {:induction false} EmittedScan(crc: Checksum, checksum: bool, whole: seq<byte>, pos: nat, data: seq<byte>, begin: bool,
                                       i: bool, t: seq<byte>, st: nat, end: nat)
    returns (st': nat)
    requires end == pos + |Emit(crc, pos, data, begin)| <= |whole| && whole[pos..end] == Emit(crc, pos, data, begin)
    requires begin || i
    ensures Scan(crc, checksum, whole, pos, i, t, st)
         == [if begin then (pos + Pad(pos), data) else (st, t + data)] + Scan(crc, checksum, whole, end, false, [], st')
    decreases |data|, if Available(pos) == 0 then 1 else 0
  {
    hide Scan, Head, PhysicalRecord, Emit, Pad, Available, FragmentLength, RecordAt;
    var n, mid, at := FragmentLength(pos, data), FragmentEnd(pos, data), pos + Pad(pos);
    var last, rest := n == |data|, if n == |data| then [] else Emit(crc, mid, data[n..], false);
    FragmentLies(crc, whole, pos, data, begin, end, rest);
    FragmentScan(crc, checksum, whole, pos, begin, last, data[..n], i, t, st, mid);
    st' := if begin then at else st;
    if !last {
      NextBlock(pos, data);
      var sofar := if begin then data[..n] else t + data[..n];
      st' := EmittedScan(crc, checksum, whole, mid, data[n..], false, true, sofar, st', end);
      assert sofar + data[n..] == if begin then data else t + data;
    } else {
      assert data[..n] == data;
      st' := st;
    }
  }

  lemma FragmentLies(crc: Checksum, whole: seq<byte>, pos: nat, data: seq<byte>, begin: bool, end: nat, rest: seq<byte>)
    requires end == pos + |Emit(crc, pos, data, begin)| <= |whole| && whole[pos..end] == Emit(crc, pos, data, begin)
    requires var n := FragmentLength(pos, data);
             rest == if n == |data| then [] else Emit(crc, FragmentEnd(pos, data), data[n..], false)
    ensures var n, mid := FragmentLength(pos, data), FragmentEnd(pos, data);
            && RecordAt(crc, whole, pos + Pad(pos), Kind(begin, n == |data|), data[..n])
            && mid <= end && end == mid + |rest| && whole[mid..end] == rest
            && (n == 0 < |data| ==> Available(pos) == 0)
  {
    hide PhysicalRecord, Emit, Pad, Head, FragmentLength, Available;
    hide FragmentEnd;
    EmitIs(crc, pos, data, begin, rest);
    HeadFits(pos, data);
    var n := FragmentLength(pos, data);
    var record := PhysicalRecord(crc, Kind(begin, n == |data|), data[..n]);
    Inside(whole, pos, end, Zeros(Pad(pos)), record, rest);
  }

  lemma EmitIs(crc: Checksum, pos: nat, data: seq<byte>, begin: bool, rest: seq<byte>)
    requires var n := FragmentLength(pos, data);
             rest == if n == |data| then [] else Emit(crc, FragmentEnd(pos, data), data[n..], false)
    ensures var n := FragmentLength(pos, data);
            Emit(crc, pos, data, begin) == Zeros(Pad(pos)) + PhysicalRecord(crc, Kind(begin, n == |data|), data[..n]) + rest
    ensures FragmentLength(pos, data) == 0 < |data| ==> Available(pos) == 0
  {
    hide PhysicalRecord, Emit, Pad, Head, FragmentLength, FragmentEnd, Available;
    EmitStep(crc, pos, data, begin);
    HeadIs(crc, pos, data, begin);
    var head := Head(crc, pos, data, begin);
    assert head + [] == head;
  }

  lemma Inside(whole: seq<byte>, pos: nat, end: nat, a: seq<byte>, b: seq<byte>, c: seq<byte>)
    requires pos <= end <= |whole| && whole[pos..end] == a + b + c
    ensures end == pos + |a| + |b| + |c|
    ensures whole[pos + |a|..pos + |a| + |b|] == b && whole[pos + |a| + |b|..end] == c
  {
    Within(whole, pos, end, |a|, |a| + |b|);
    Within(whole, pos, end, |a| + |b|, end - pos);
    assert (a + b + c)[|a|..|a| + |b|] == b && (a + b + c)[|a| + |b|..end - pos] == c;
  }

  lemma Within(whole: seq<byte>, pos: nat, end: nat, i: nat, j: nat)
    requires pos <= end <= |whole| && i <= j <= end - pos
    ensures whole[pos..end][i..j] == whole[pos + i..pos + j]
  {
    var a, b := whole[pos..end][i..j], whole[pos + i..pos + j];
    assert |a| == |b|;
    forall k | 0 <= k < |a| ensures a[k] == b[k] {
      assert a[k] == whole[pos..end][i + k] == whole[pos + i + k];
    }
  }

  lemma {:induction false} AppendsScan(crc: Checksum, checksum: bool, whole: seq<byte>, pos: nat, records: seq<seq<byte>>, i: bool, t: seq<byte>, st: nat)
    requires pos <= |whole| && whole[pos..] == Appends(crc, pos, records)
    ensures Scan(crc, checksum, whole, pos, i, t, st) == Places(crc, pos, pos, records)
    decreases |records|
  {
    hide Complete, RecordRead, Emit;
    if |records| == 0 {
      NothingMore(crc, checksum, whole, i, t, st);
    } else {
      var e := Emit(crc, pos, records[0], true);
      assert whole[pos..pos + |e|] == whole[pos..][..|e|] == e;
      assert whole[pos + |e|..] == whole[pos..][|e|..];
      var st' := EmittedScan(crc, checksum, whole, pos, records[0], true, i, t, st, pos + |e|);
      AppendsScan(crc, checksum, whole, pos + |e|, records[1..], false, [], st');
    }
  }

  lemma NothingMore(crc: Checksum, checksum: bool, whole: seq<byte>, i: bool, t: seq<byte>, st: nat)
    ensures Scan(crc, checksum, whole, |whole|, i, t, st) == []
  {
    NextBoundary(|whole|);
  }

  // Only the place in the block matters to a writer.
  lemma {:induction false} EmitModulo(crc: Checksum, a: nat, b: nat, data: seq<byte>, begin: bool)
    requires a % BLOCK == b % BLOCK
    ensures Pad(a) == Pad(b) && Emit(crc, a, data, begin) == Emit(crc, b, data, begin)
    decreases |data|, if Available(a) == 0 then 1 else 0
  {
    hide PhysicalRecord, Emit;
    EmitStep(crc, a, data, begin);
    EmitStep(crc, b, data, begin);
    SameFragment(a, b, data);
    HeadIs(crc, a, data, begin);
    HeadIs(crc, b, data, begin);
    if FragmentLength(a, data) < |data| {
      NextBlock(a, data);
      EmitModulo(crc, FragmentEnd(a, data), FragmentEnd(b, data), data[FragmentLength(a, data)..], false);
    }
  }

  lemma SameFragment(a: nat, b: nat, data: seq<byte>)
    requires a % BLOCK == b % BLOCK
    ensures Pad(a) == Pad(b) && FragmentLength(a, data) == FragmentLength(b, data) && Available(a) == Available(b)
    ensures FragmentEnd(a, data) % BLOCK == FragmentEnd(b, data) % BLOCK
  {
  }

  lemma SameOffset(a: nat, b: nat, n: nat)
    requires a % BLOCK == b % BLOCK
    ensures (a + n) % BLOCK == (b + n) % BLOCK
  {
  }

  lemma {:induction false} AppendsModulo(crc: Checksum, a: nat, b: nat, at: nat, records: seq<seq<byte>>)
    requires a % BLOCK == b % BLOCK
    ensures Appends(crc, a, records) == Appends(crc, b, records) && Places(crc, a, at, records) == Places(crc, b, at, records)
    decreases |records|
  {
    hide Emit, Pad;
    if |records| > 0 {
      EmitModulo(crc, a, b, records[0], true);
      var e := |Emit(crc, a, records[0], true)|;
      SameOffset(a, b, e);
      AppendsModulo(crc, a + e, b + e, at + e, records[1..]);
    }
  }

  lemma EmitStartsWith(crc: Checksum, pos: nat, data: seq<byte>)
    ensures Zeros(Pad(pos)) <= Emit(crc, pos, data, true)
  {
    hide PhysicalRecord;
    EmitStep(crc, pos, data, true);
  }

  lemma ReadyIsSafe(crc: Checksum, checksum: bool, file: seq<byte>, offset: nat, records: seq<seq<byte>>)
    requires Ready(crc, checksum, file, offset)
    ensures ReadsBack(crc, checksum, file, offset, records)
  {
    hide Scan, Emit, Arrives, Pad;
    AppendsModulo(crc, offset, |file|, |file|, records);
    var whole := file + Appends(crc, |file|, records);
    if |records| == 0 {
      var scan := Scan(crc, checksum, whole, 0, false, [], 0);
      assert scan == scan + Places(crc, offset, |file|, records);
    } else {
      EmitStartsWith(crc, |file|, records[0]);
      assert Zeros(Pad(|file|)) <= Appends(crc, |file|, records);
      assert Padded(file) <= whole;
      var before, i, t, st := ReachEnd(crc, checksum, Padded(file), whole, 0, false, [], 0);
      SameScan(crc, checksum, whole, |file|, i, t, st);
      assert whole[|file|..] == Appends(crc, |file|, records);
      AppendsScan(crc, checksum, whole, |file|, records, i, t, st);
      assert Scan(crc, checksum, whole, 0, false, [], 0) == before + Places(crc, offset, |file|, records);
    }
  }

  // ---- Files that are not ready ----

  // Nothing that begins at P, with this reader past it or unable to get there, is returned.
  lemma {:induction false} NeverArrives(crc: Checksum, checksum: bool, file: seq<byte>, whole: seq<byte>, q: nat, i: bool, t: seq<byte>, st: nat, data: seq<byte>)
    requires file <= whole && q <= |whole| && Pad(|file|) == 0
    requires q != |file| && (q < |file| ==> !Arrives(crc, checksum, file, q)) && (i ==> st != |file|)
    ensures (|file|, data) !in Scan(crc, checksum, whole, q, i, t, st)
    decreases |whole| - q
  {
    hide Complete, RecordRead, Loaded, Arrives;
    var at := q + Pad(q);
    NextBoundary(q);
    NotThere(crc, checksum, file, whole, q);
    if at > |whole| {
    } else if !Complete(crc, checksum, whole, at) {
      if BlockEnd(at) <= |whole| {
        NeverArrives(crc, checksum, file, whole, BlockEnd(at), false, if i then [] else t, st, data);
      }
    } else {
      CompleteInside(crc, checksum, whole, at);
      var p, end := RecordRead(crc, checksum, whole, at), EndOf(whole, at);
      match Assemble(p, i, t) {
        case Return(l) =>
          if l.Record? {
            NeverArrives(crc, checksum, file, whole, end, false, [], st, data);
          }
        case Again(i2, t2, _) =>
          NeverArrives(crc, checksum, file, whole, end, i2, t2, if p.kind == FIRST then at else st, data);
      }
    }
  }

  lemma ArrivesAtEnd(crc: Checksum, checksum: bool, file: seq<byte>)
    ensures Arrives(crc, checksum, file, |file|)
  {
  }

  // Where the reader's turn at q takes it.
  lemma NotThere(crc: Checksum, checksum: bool, file: seq<byte>, whole: seq<byte>, q: nat)
    requires file <= whole && q <= |whole| && Pad(|file|) == 0
    requires q != |file| && (q < |file| ==> !Arrives(crc, checksum, file, q))
    ensures var at := q + Pad(q);
      && at != |file|
      && (at <= |whole| ==>
            if Complete(crc, checksum, whole, at) then
              RecordRead(crc, checksum, whole, at).kind == END_OF_FILE || Elsewhere(crc, checksum, file, EndOf(whole, at))
            else Elsewhere(crc, checksum, file, BlockEnd(at)))
  {
    hide Complete, RecordRead, Loaded, Pad;
    var at := q + Pad(q);
    NextBoundary(q);
    PastTrailer(q, |file|);
    ArrivesAtEnd(crc, checksum, file);
    if at <= |whole| && Complete(crc, checksum, whole, at) {
      KindOf(crc, checksum, whole, at);
      CompleteInside(crc, checksum, whole, at);
    }
    if at < |file| {
      CompleteMore(crc, checksum, file, whole, at);
      if Complete(crc, checksum, file, at) {
        KindOf(crc, checksum, file, at);
        CompleteInside(crc, checksum, file, at);
      }
    }
  }

  ghost predicate Elsewhere(crc: Checksum, checksum: bool, file: seq<byte>, q: nat) {
    q != |file| && (q < |file| ==> !Arrives(crc, checksum, file, q))
  }

  lemma PastTrailer(q: nat, end: nat)
    requires Pad(end) == 0
    ensures q > end ==> q + Pad(q) > end
    ensures q < end ==> q + Pad(q) <= end
  {
  }

  // A record longer than a block whose first fragment the reader cannot follow.
  ghost predicate Breaks(crc: Checksum, checksum: bool, whole: seq<byte>, at: nat)
    requires at <= |whole|
  {
    if !Complete(crc, checksum, whole, at) then true
    else
      CompleteInside(crc, checksum, whole, at);
      var next := EndOf(whole, at) + Pad(EndOf(whole, at));
      next <= |whole| && Complete(crc, checksum, whole, next) ==> RecordRead(crc, checksum, whole, next).kind == ZERO
  }

  lemma {:induction false} NeverFollowed(crc: Checksum, checksum: bool, whole: seq<byte>, first: nat, data: seq<byte>, q: nat, i: bool, t: seq<byte>, st: nat)
    requires first <= |whole| && q <= |whole| && Breaks(crc, checksum, whole, first) && |data| >= BLOCK
    requires i ==> st != first
    ensures (first, data) !in Scan(crc, checksum, whole, q, i, t, st)
    decreases |whole| - q
  {
    hide Complete, RecordRead, Loaded;
    var at := q + Pad(q);
    NextBoundary(q);
    if at > |whole| {
    } else if !Complete(crc, checksum, whole, at) {
      if BlockEnd(at) <= |whole| {
        NeverFollowed(crc, checksum, whole, first, data, BlockEnd(at), false, if i then [] else t, st);
      }
    } else {
      CompleteInside(crc, checksum, whole, at);
      ShortFragment(crc, checksum, whole, at);
      var p, end := RecordRead(crc, checksum, whole, at), EndOf(whole, at);
      match Assemble(p, i, t) {
        case Return(l) =>
          if l.Record? {
            NeverFollowed(crc, checksum, whole, first, data, end, false, [], st);
          }
        case Again(i2, t2, _) =>
          if p.kind == FIRST && at == first {
            BrokenOff(crc, checksum, whole, first, data, end, t2);
          } else {
            NeverFollowed(crc, checksum, whole, first, data, end, i2, t2, if p.kind == FIRST then at else st);
          }
      }
    }
  }

  lemma {:induction false} BrokenOff(crc: Checksum, checksum: bool, whole: seq<byte>, first: nat, data: seq<byte>, q: nat, t: seq<byte>)
    requires first < q <= |whole| && Breaks(crc, checksum, whole, first) && |data| >= BLOCK
    requires Complete(crc, checksum, whole, first) && |Loaded(whole, first).buffer| >= HEADER && q == EndOf(whole, first)
    ensures (first, data) !in Scan(crc, checksum, whole, q, true, t, first)
    decreases |whole| - q
  {
    hide Complete, RecordRead, Loaded;
    var at := q + Pad(q);
    NextBoundary(q);
    if at > |whole| {
    } else if !Complete(crc, checksum, whole, at) {
      if BlockEnd(at) <= |whole| {
        NeverFollowed(crc, checksum, whole, first, data, BlockEnd(at), false, [], first);
      }
    } else {
      CompleteInside(crc, checksum, whole, at);
      NeverFollowed(crc, checksum, whole, first, data, EndOf(whole, at), false, [], first);
    }
  }

  lemma ShortFragment(crc: Checksum, checksum: bool, file: seq<byte>, at: nat)
    requires at <= |file| && Complete(crc, checksum, file, at)
    ensures |RecordRead(crc, checksum, file, at).fragment| < BLOCK
  {
  }

  // A record that no block can hold, three blocks of zeros: written out of step with the file's
  // blocks, its second fragment spans two of them.
  const LONG: seq<byte> := Zeros(3 * BLOCK)

  lemma OutOfStep(crc: Checksum, checksum: bool, whole: seq<byte>, first: nat, n: nat)
    requires n < BLOCK && first + HEADER + n + BLOCK <= |whole| && (first + HEADER + n) % BLOCK != 0
    requires whole[first..first + HEADER + n] == PhysicalRecord(crc, FIRST, Zeros(n))
    requires whole[first + HEADER + n..first + HEADER + n + BLOCK] == PhysicalRecord(crc, MIDDLE, Zeros(BLOCK - HEADER))
    ensures Breaks(crc, checksum, whole, first)
  {
    hide PhysicalRecord, Crc, Unmask, DecodeFixed, Loaded, Pad;
    if Complete(crc, checksum, whole, first) {
      CompleteInside(crc, checksum, whole, first);
      HeaderLies(crc, whole, first, FIRST, Zeros(n));
      var end := first + HEADER + n;
      HeaderLies(crc, whole, end, MIDDLE, Zeros(BLOCK - HEADER));
      assert EndOf(whole, first) == end;
      Nothing(crc, checksum, whole, end);
    }
  }

  // The second fragment is no record to the reader, which is out of step with it.
  lemma Nothing(crc: Checksum, checksum: bool, whole: seq<byte>, end: nat)
    requires end % BLOCK != 0 && end + BLOCK <= |whole|
    requires whole[end..end + BLOCK] == PhysicalRecord(crc, MIDDLE, Zeros(BLOCK - HEADER))
    ensures var next := end + Pad(end);
            next <= |whole| && (Complete(crc, checksum, whole, next) ==> RecordRead(crc, checksum, whole, next).kind == ZERO)
  {
    hide PhysicalRecord, Crc, Unmask, DecodeFixed, Loaded, Pad;
    var next := end + Pad(end);
    PadSplits(end);
    HeaderLies(crc, whole, end, MIDDLE, Zeros(BLOCK - HEADER));
    if Complete(crc, checksum, whole, next) {
      CompleteInside(crc, checksum, whole, next);
      KindOf(crc, checksum, whole, next);
      LoadedByte(whole, next);
      assert Pad(end) > 0 ==> whole[end + HEADER + (Pad(end) - 1)] == Zeros(BLOCK - HEADER)[Pad(end) - 1];
    }
  }

  lemma PadSplits(end: nat)
    requires end % BLOCK != 0
    ensures Pad(end) == 0 ==> BlockEnd(end) < end + BLOCK
    ensures Pad(end) <= 6
  {
  }

  lemma LoadedByte(file: seq<byte>, at: nat)
    requires at <= |file| && |Loaded(file, at).buffer| >= HEADER
    ensures at + HEADER <= |file| && Loaded(file, at).buffer[6] == file[at + 6]
    ensures HeaderLength(Loaded(file, at).buffer) == file[at + 4] as int + 256 * (file[at + 5] as int)
  {
  }

  lemma HeaderLies(crc: Checksum, whole: seq<byte>, at: nat, kind: byte, payload: seq<byte>)
    requires |payload| < BLOCK && at + HEADER + |payload| <= |whole|
    requires whole[at..at + HEADER + |payload|] == PhysicalRecord(crc, kind, payload)
    ensures whole[at + 4] as int + 256 * (whole[at + 5] as int) == |payload| && whole[at + 6] == kind
    ensures forall k :: 0 <= k < |payload| ==> whole[at + HEADER + k] == payload[k]
    ensures |Loaded(whole, at).buffer| >= HEADER ==> HeaderLength(Loaded(whole, at).buffer) == |payload|
  {
    hide Crc, Loaded;
    var r := whole[at..at + HEADER + |payload|];
    assert r[4] == whole[at + 4] && r[5] == whole[at + 5] && r[6] == whole[at + 6];
    if |Loaded(whole, at).buffer| >= HEADER {
      LoadedByte(whole, at);
    }
    forall k | 0 <= k < |payload| ensures whole[at + HEADER + k] == payload[k] {
      assert r[HEADER + k] == whole[at + HEADER + k];
    }
  }

  // The first two fragments of the long record, at any offset.
  lemma LongEmit(crc: Checksum, offset: nat) returns (rest: seq<byte>)
    ensures var n := Available(offset);
      && n < BLOCK && FragmentEnd(offset, LONG) == offset + Pad(offset) + HEADER + n && (offset + Pad(offset) + HEADER + n) % BLOCK == 0
      && Emit(crc, offset, LONG, true)
         == Zeros(Pad(offset)) + PhysicalRecord(crc, FIRST, Zeros(n)) + (PhysicalRecord(crc, MIDDLE, Zeros(BLOCK - HEADER)) + rest)
  {
    hide PhysicalRecord, Emit, Head;
    var n := FragmentLength(offset, LONG);
    var mid, left := FragmentEnd(offset, LONG), LONG[n..];
    assert n == Available(offset);
    NextBlock(offset, LONG);
    EmitStep(crc, offset, LONG, true);
    HeadIs(crc, offset, LONG, true);
    assert LONG[..n] == Zeros(n);
    EmitStep(crc, mid, left, false);
    HeadIs(crc, mid, left, false);
    assert FragmentLength(mid, left) == BLOCK - HEADER;
    assert left[..BLOCK - HEADER] == Zeros(BLOCK - HEADER);
    rest := Emit(crc, FragmentEnd(mid, left), left[BLOCK - HEADER..], false);
    assert Zeros(0) + PhysicalRecord(crc, MIDDLE, Zeros(BLOCK - HEADER)) == PhysicalRecord(crc, MIDDLE, Zeros(BLOCK - HEADER));
  }

  lemma Misaligned(crc: Checksum, checksum: bool, file: seq<byte>, offset: nat)
    requires offset % BLOCK != |file| % BLOCK
    ensures !ReadsBack(crc, checksum, file, offset, [LONG])
  {
    hide PhysicalRecord, Emit, Scan, Breaks, Pad, Available, Appends, Places, Zeros, FragmentEnd;
    var rest := LongEmit(crc, offset);
    var n, first := Available(offset), |file| + Pad(offset);
    var a, b := PhysicalRecord(crc, FIRST, Zeros(n)), PhysicalRecord(crc, MIDDLE, Zeros(BLOCK - HEADER));
    var e := Emit(crc, offset, LONG, true);
    OneAppended(crc, offset, |file|, LONG);
    var whole := file + e;
    LongLies(file, Zeros(Pad(offset)), a, b, rest);
    Shifted(offset, |file|, Pad(offset) + HEADER + n);
    OutOfStep(crc, checksum, whole, first, n);
    NeverFollowed(crc, checksum, whole, first, LONG, 0, false, [], 0);
    NotAtTheEnd(Scan(crc, checksum, whole, 0, false, [], 0), [(first, LONG)]);
  }

  lemma OneAppended(crc: Checksum, offset: nat, at: nat, data: seq<byte>)
    ensures Appends(crc, offset, [data]) == Emit(crc, offset, data, true)
    ensures Places(crc, offset, at, [data]) == [(at + Pad(offset), data)]
  {
    hide Emit, Pad;
    assert [data][1..] == [];
  }

  lemma LongLies(file: seq<byte>, z: seq<byte>, a: seq<byte>, b: seq<byte>, rest: seq<byte>)
    ensures var whole, first := file + (z + a + (b + rest)), |file| + |z|;
            && first + |a| + |b| <= |whole|
            && whole[first..first + |a|] == a && whole[first + |a|..first + |a| + |b|] == b
  {
    var whole, first := file + (z + a + (b + rest)), |file| + |z|;
    assert whole[|file|..|whole|] == z + a + (b + rest);
    Inside(whole, |file|, |whole|, z, a, b + rest);
    Within(whole, first + |a|, |whole|, 0, |b|);
    assert (b + rest)[0..|b|] == b;
  }

  lemma NotAtTheEnd(scan: seq<(nat, seq<byte>)>, places: seq<(nat, seq<byte>)>)
    requires |places| > 0 && places[0] !in scan
    ensures forall before :: scan != before + places
  {
    forall before ensures scan != before + places {
      assert (before + places)[|before|] == places[0];
    }
  }

  lemma Shifted(a: nat, b: nat, n: nat)
    requires a % BLOCK != b % BLOCK && (a + n) % BLOCK == 0
    ensures (b + n) % BLOCK != 0
  {
  }

  // When the reader does not get to the end of the file, not even the first record is read back.
  lemma Unreached(crc: Checksum, checksum: bool, file: seq<byte>, offset: nat, records: seq<seq<byte>>)
    requires offset % BLOCK == |file| % BLOCK && !Arrives(crc, checksum, Padded(file), 0) && |records| > 0
    ensures !ReadsBack(crc, checksum, file, offset, records)
  {
    hide Emit, Scan, Arrives, Pad;
    AppendsModulo(crc, offset, |file|, |file|, records);
    var whole := file + Appends(crc, offset, records);
    EmitStartsWith(crc, |file|, records[0]);
    assert Zeros(Pad(|file|)) <= Appends(crc, |file|, records);
    assert Padded(file) <= whole;
    PaddedEnds(file);
    ArrivesAtEnd(crc, checksum, Padded(file));
    NeverArrives(crc, checksum, Padded(file), whole, 0, false, [], 0, records[0]);
    NotAtTheEnd(Scan(crc, checksum, whole, 0, false, [], 0), Places(crc, offset, |file|, records));
  }

  lemma PaddedEnds(file: seq<byte>)
    ensures Pad(|Padded(file)|) == 0
  {
    NextBoundary(|file|);
  }

  // Whatever a file holds, a writer at this offset may go on appending to it, and every record
  // it appends will be read back, if and only if its offset is the file's and the reader gets to
  // the end. When only the second fails, no record appended is read back.
  lemma AppendingIsSafe(crc: Checksum, checksum: bool, file: seq<byte>, offset: nat)
    ensures (forall records :: ReadsBack(crc, checksum, file, offset, records)) <==> Ready(crc, checksum, file, offset)
    ensures offset % BLOCK == |file| % BLOCK ==>
              forall records :: |records| > 0 ==> (ReadsBack(crc, checksum, file, offset, records) <==> Ready(crc, checksum, file, offset))
  {
    hide ReadsBack, Arrives;
    if Ready(crc, checksum, file, offset) {
      forall records ensures ReadsBack(crc, checksum, file, offset, records) {
        ReadyIsSafe(crc, checksum, file, offset, records);
      }
    } else if offset % BLOCK != |file| % BLOCK {
      Misaligned(crc, checksum, file, offset);
    } else {
      forall records: seq<seq<byte>> | |records| > 0 ensures !ReadsBack(crc, checksum, file, offset, records) {
        Unreached(crc, checksum, file, offset, records);
      }
      assert !ReadsBack(crc, checksum, file, offset, [[]]);
    }
  }

  // ---- Which files are ready ----

  // A reader that gets to the end of a file gets as far in a longer one.
  lemma {:induction false} ArrivesOn(crc: Checksum, checksum: bool, file: seq<byte>, more: seq<byte>, q: nat)
    requires file <= more && q <= |file| && Arrives(crc, checksum, file, q) && Arrives(crc, checksum, more, |file|)
    ensures Arrives(crc, checksum, more, q)
    decreases |file| - q
  {
    hide Complete, RecordRead, Loaded, Pad;
    var at := q + Pad(q);
    NextBoundary(q);
    if q != |file| && at < |file| {
      CompleteMore(crc, checksum, file, more, at);
      if Complete(crc, checksum, file, at) {
        CompleteInside(crc, checksum, file, at);
        CompleteInside(crc, checksum, more, at);
        KindOf(crc, checksum, file, at);
        KindOf(crc, checksum, more, at);
        ArrivesOn(crc, checksum, file, more, EndOf(file, at));
      } else {
        ArrivesOn(crc, checksum, file, more, BlockEnd(at));
      }
    }
  }

  lemma PaddedArrives(crc: Checksum, checksum: bool, file: seq<byte>)
    requires Arrives(crc, checksum, file, 0)
    ensures Arrives(crc, checksum, Padded(file), 0)
  {
    ArrivesOn(crc, checksum, file, Padded(file), 0);
  }

  // A file that ends in a record just written.
  lemma ArrivesPast(crc: Checksum, checksum: bool, file: seq<byte>, kind: byte, payload: seq<byte>)
    requires Arrives(crc, checksum, Padded(file), 0) && kind in {FULL, FIRST, MIDDLE, LAST}
    requires |Padded(file)| % BLOCK + HEADER + |payload| <= BLOCK
    ensures Arrives(crc, checksum, Padded(Padded(file) + PhysicalRecord(crc, kind, payload)), 0)
  {
    hide PhysicalRecord, Complete, RecordRead, Loaded, Pad, Arrives;
    var start := |Padded(file)|;
    var whole := Padded(file) + PhysicalRecord(crc, kind, payload);
    assert whole[start..start + HEADER + |payload|] == PhysicalRecord(crc, kind, payload);
    WrittenComplete(crc, checksum, whole, start, kind, payload);
    KindOf(crc, checksum, whole, start);
    PaddedEnds(file);
    ArrivesAtEnd(crc, checksum, whole);
    ArrivesByRecord(crc, checksum, whole, start);
    ArrivesOn(crc, checksum, Padded(file), whole, 0);
    PaddedArrives(crc, checksum, whole);
  }

  lemma ArrivesByRecord(crc: Checksum, checksum: bool, whole: seq<byte>, start: nat)
    requires start < |whole| && Pad(start) == 0 && Complete(crc, checksum, whole, start) && EndOf(whole, start) == |whole|
    requires Loaded(whole, start).buffer[6] != END_OF_FILE
    ensures Arrives(crc, checksum, whole, start)
  {
    hide Complete, Loaded, Pad;
    ArrivesAtEnd(crc, checksum, whole);
    assert ArrivesFrom(crc, checksum, whole, start, start);
  }

  // An attempt that loses no byte leaves a ready file ready, whether or not it succeeds.
  lemma {:induction false} NothingLost(crc: Checksum, checksum: bool, file: seq<byte>, pos: nat, data: seq<byte>, begin: bool,
                                       added: seq<byte>, end: nat, ok: bool)
    requires Ready(crc, checksum, file, pos) && Attempted(crc, pos, data, begin, added, end, ok)
    requires |added| == end - pos
    ensures Ready(crc, checksum, file + added, end)
    decreases |data|, if Available(pos) == 0 then 1 else 0
  {
    hide PhysicalRecord, Available, FragmentLength, FragmentEnd, Pad, Emit, Head, Ready;
    var n := FragmentLength(pos, data);
    var record := PhysicalRecord(crc, Kind(begin, n == |data|), data[..n]);
    var p :| 0 <= p <= Pad(pos) && p <= |added| && added[..p] == Zeros(p)
             && AfterTrailer(crc, pos, data, begin, added[p..], end, ok);
    var rest := added[p..];
    assert added == Zeros(p) + rest;
    var next := file + (Zeros(Pad(pos)) + record);
    FragmentKept(crc, checksum, file, pos, data, begin);
    if n < |data| && record <= rest && Attempted(crc, FragmentEnd(pos, data), data[n..], false, rest[|record|..], end, ok) {
      var more := rest[|record|..];
      FragmentAt(pos, data);
      NextBlock(pos, data);
      AttemptBounds(crc, FragmentEnd(pos, data), data[n..], false, more, end, ok);
      Joined(file, Zeros(p), record, rest);
      assert p == Pad(pos);
      NothingLost(crc, checksum, next, FragmentEnd(pos, data), data[n..], false, more, end, ok);
    } else {
      Same(rest, record);
      assert p == Pad(pos);
    }
  }

  lemma Joined(file: seq<byte>, z: seq<byte>, record: seq<byte>, rest: seq<byte>)
    requires record <= rest
    ensures file + (z + rest) == file + (z + record) + rest[|record|..] && |rest[|record|..]| == |rest| - |record|
  {
  }

  lemma Same(a: seq<byte>, b: seq<byte>)
    ensures a <= b ==> |a| <= |b| && (|a| == |b| ==> a == b)
  {
  }

  lemma FragmentKept(crc: Checksum, checksum: bool, file: seq<byte>, pos: nat, data: seq<byte>, begin: bool)
    requires Ready(crc, checksum, file, pos)
    ensures var n := FragmentLength(pos, data);
            var record := PhysicalRecord(crc, Kind(begin, n == |data|), data[..n]);
            && Ready(crc, checksum, file + (Zeros(Pad(pos)) + record), FragmentEnd(pos, data))
            && FragmentEnd(pos, data) == pos + Pad(pos) + |record|
  {
    hide PhysicalRecord, FragmentLength, Pad, Arrives;
    var n := FragmentLength(pos, data);
    var kind := Kind(begin, n == |data|);
    var record := PhysicalRecord(crc, kind, data[..n]);
    HeadFits(pos, data);
    SamePad(pos, |file|);
    ArrivesPast(crc, checksum, file, kind, data[..n]);
    SameOffset(|file|, pos, Pad(pos) + |record|);
    Regroup(file, Zeros(Pad(pos)), record);
  }

  // A writer that found a ready file may go on after an attempt that lost nothing, and may not
  // after one that lost some bytes, unless they make up whole blocks.
  lemma AfterAttempt(crc: Checksum, checksum: bool, file: seq<byte>, pos: nat, data: seq<byte>, added: seq<byte>, end: nat, ok: bool)
    requires Ready(crc, checksum, file, pos) && Attempted(crc, pos, data, true, added, end, ok)
    ensures pos + |added| <= end
    ensures |added| == end - pos ==> Ready(crc, checksum, file + added, end)
    ensures (end - pos - |added|) % BLOCK != 0 ==> !Ready(crc, checksum, file + added, end)
  {
    hide Attempted, Ready, Emit;
    AttemptBounds(crc, pos, data, true, added, end, ok);
    ReadyOffset(crc, checksum, file, pos);
    StepLost(pos, |file|, end, |added|);
    if |added| == end - pos {
      NothingLost(crc, checksum, file, pos, data, true, added, end, ok);
    }
    if Ready(crc, checksum, file + added, end) {
      ReadyOffset(crc, checksum, file + added, end);
    }
  }

  lemma ReadyOffset(crc: Checksum, checksum: bool, file: seq<byte>, offset: nat)
    requires Ready(crc, checksum, file, offset)
    ensures offset % BLOCK == |file| % BLOCK
  {
  }

  lemma StepLost(pos: nat, length: nat, end: nat, n: nat)
    requires pos % BLOCK == length % BLOCK && pos + n <= end
    ensures end % BLOCK == (length + n) % BLOCK <==> (end - pos - n) % BLOCK == 0
  {
  }

  lemma SamePad(a: nat, b: nat)
    requires a % BLOCK == b % BLOCK
    ensures Pad(a) == Pad(b) && (a + Pad(a)) % BLOCK == (b + Pad(b)) % BLOCK
  {
  }

  // What reads back does so whatever follows it in the file.
  lemma ReadBackWithin(crc: Checksum, checksum: bool, file: seq<byte>, offset: nat, data: seq<byte>, whole: seq<byte>)
    requires Ready(crc, checksum, file, offset) && file + Emit(crc, offset, data, true) <= whole
    ensures (|file| + Pad(offset), data) in Scan(crc, checksum, whole, 0, false, [], 0)
    ensures data in ReadAll(crc, checksum, Opened(whole)).0
  {
    hide Scan, Emit, Arrives, Pad, ReadAll;
    EmitModulo(crc, offset, |file|, data, true);
    var e := Emit(crc, |file|, data, true);
    EmitStartsWith(crc, |file|, data);
    assert Padded(file) <= file + e;
    var before, i, t, st := ReachEnd(crc, checksum, Padded(file), whole, 0, false, [], 0);
    SameScan(crc, checksum, whole, |file|, i, t, st);
    var end := |file| + |e|;
    assert whole[|file|..end] == (file + e)[|file|..] == e;
    var st' := EmittedScan(crc, checksum, whole, |file|, data, true, i, t, st, end);
    var scan := Scan(crc, checksum, whole, 0, false, [], 0);
    assert scan[|before|] == (|Padded(file)|, data);
    ScanIsReadAll(crc, checksum, whole, 0, 0);
    assert whole[0..] == whole;
    assert Data(scan)[|before|] == data;
  }

  // A file cut off inside a record that its reader gets to may be appended to just when the cut
  // is within the last bytes of a block, where no record can begin.
  lemma TornTail(crc: Checksum, checksum: bool, whole: seq<byte>, at: nat, kind: byte, payload: seq<byte>, m: nat)
    requires RecordAt(crc, whole, at, kind, payload) && kind in {FULL, FIRST, MIDDLE, LAST}
    requires Arrives(crc, checksum, whole[..at], 0) && at < m < at + HEADER + |payload|
    ensures Ready(crc, checksum, whole[..m], m) <==> Pad(m) > 0
  {
    hide PhysicalRecord, Complete, Arrives, Pad;
    var file := whole[..m];
    var cut := Padded(file);
    var before := whole[..at];
    assert before <= cut;
    SameBlock(at, at + HEADER + |payload|);
    TornBlock(at, m);
    TornRecord(crc, checksum, whole, at, kind, payload, m);
    if Pad(m) > 0 {
      ArrivesAtEnd(crc, checksum, cut);
      TornArrives(crc, checksum, cut, at, at + HEADER + |payload|);
      ArrivesOn(crc, checksum, before, cut, 0);
    } else {
      assert cut == file;
      TornStops(crc, checksum, file, at);
      NeverPast(crc, checksum, before, file, 0);
    }
  }

  // The place of the cut: a trailer would end the block.
  lemma TornBlock(at: nat, m: nat)
    requires at % BLOCK + HEADER <= BLOCK && at < m < BlockEnd(at)
    ensures Pad(at) == 0 && Pad(m) == if BlockEnd(at) - m < HEADER then BlockEnd(at) - m else 0
  {
  }

  lemma TornRecord(crc: Checksum, checksum: bool, whole: seq<byte>, at: nat, kind: byte, payload: seq<byte>, m: nat)
    requires RecordAt(crc, whole, at, kind, payload) && kind in {FULL, FIRST, MIDDLE, LAST}
    requires at < m < at + HEADER + |payload|
    ensures Pad(m) == 0 ==> !Complete(crc, checksum, whole[..m], at)
    ensures Pad(m) > 0 && Complete(crc, checksum, Padded(whole[..m]), at) ==>
              && |Loaded(Padded(whole[..m]), at).buffer| >= HEADER
              && EndOf(Padded(whole[..m]), at) == at + HEADER + |payload|
              && Loaded(Padded(whole[..m]), at).buffer[6] != END_OF_FILE
  {
    hide PhysicalRecord, Crc, Unmask, DecodeFixed, Loaded, Pad;
    HeaderLies(crc, whole, at, kind, payload);
    SameBlock(at, at + HEADER + |payload|);
    TornBlock(at, m);
    if Complete(crc, checksum, whole[..m], at) {
      CompleteInside(crc, checksum, whole[..m], at);
      LoadedByte(whole[..m], at);
    }
    var cut := Padded(whole[..m]);
    if Complete(crc, checksum, cut, at) {
      CompleteInside(crc, checksum, cut, at);
      LoadedByte(cut, at);
    }
  }

  // Past a torn record, or over the rest of its block.
  lemma TornArrives(crc: Checksum, checksum: bool, cut: seq<byte>, at: nat, end: nat)
    requires at < |cut| == BlockEnd(at) && Pad(at) == 0 && |cut| - 6 < end <= |cut|
    requires Complete(crc, checksum, cut, at) ==>
               && |Loaded(cut, at).buffer| >= HEADER && EndOf(cut, at) == end
               && Loaded(cut, at).buffer[6] != END_OF_FILE
    ensures Arrives(crc, checksum, cut, at)
  {
    hide Complete, Loaded;
    ArrivesAtEnd(crc, checksum, cut);
    assert end + Pad(end) == |cut|;
    assert Arrives(crc, checksum, cut, end);
  }

  lemma TornStops(crc: Checksum, checksum: bool, file: seq<byte>, at: nat)
    requires at < |file| < BlockEnd(at) && Pad(at) == 0 && !Complete(crc, checksum, file, at)
    ensures !Arrives(crc, checksum, file, at)
  {
    hide Complete, Loaded;
  }

  // A reader that gets to a place it cannot leave does not get to the end.
  lemma {:induction false} NeverPast(crc: Checksum, checksum: bool, file: seq<byte>, more: seq<byte>, q: nat)
    requires file <= more && q <= |file| && Arrives(crc, checksum, file, q) && !Arrives(crc, checksum, more, |file|) && |file| < |more|
    ensures !Arrives(crc, checksum, more, q)
    decreases |file| - q
  {
    hide Complete, RecordRead, Loaded, Pad;
    var at := q + Pad(q);
    NextBoundary(q);
    if q != |file| && at < |file| {
      CompleteMore(crc, checksum, file, more, at);
      if Complete(crc, checksum, file, at) {
        CompleteInside(crc, checksum, file, at);
        CompleteInside(crc, checksum, more, at);
        KindOf(crc, checksum, file, at);
        KindOf(crc, checksum, more, at);
        NeverPast(crc, checksum, file, more, EndOf(file, at));
      } else {
        NeverPast(crc, checksum, file, more, BlockEnd(at));
      }
    }
  }
}
