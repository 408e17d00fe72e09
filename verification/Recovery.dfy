// db/db_impl.cpp RecoverLogFile: replaying a log file into memtables, and what it gives back of
// the run that wrote it.
module Recovery {
  import opened Options
  import opened Coding
  import WriteBatches
  import Log
  import GroupCommit

  type Op = WriteBatches.Op

  // Insertions made, in order, over every memtable filled; the greatest sequence number met;
  // whether the status stayed OK.
  datatype Recovered = Recovered(inserted: seq<(nat, Op)>, maxSequence: nat, ok: bool)

  // Sequence(batch) + Count(batch) - 1, in 64 bits.
  function LastSequence(rep: seq<byte>): nat
    requires |rep| >= WriteBatches.HEADER
  {
    (WriteBatches.SequenceOf(rep) + WriteBatches.CountOf(rep) - 1) % TWO_64
  }

  function Max(a: nat, b: nat): nat {
    if a < b then b else a
  }

  // What replaying the rest of a log does; paranoid is options_.paranoid_checks.
  function Replay(crc: Checksum, s: Log.ReaderState, paranoid: bool, max: nat): Recovered
    decreases Log.Remaining(s)
  {
    match Log.ReadLogical(crc, true, s, false, [])
    case Finished(_, drops) => Recovered([], max, !(paranoid && drops != []))
    case Record(data, next, drops) =>
      if paranoid && drops != [] then Recovered([], max, false)
      else if |data| < WriteBatches.HEADER then
        if paranoid then Recovered([], max, false) else Replay(crc, next, paranoid, max)
      else
        var (ops, status) := WriteBatches.Iterated(data);
        var entries := GroupCommit.Numbered(WriteBatches.SequenceOf(data), ops);
        if paranoid && status != WriteBatches.Ok then Recovered(entries, max, false)
        else
          Before(entries, Replay(crc, next, paranoid, Max(max, LastSequence(data))))
  }

  function Before(entries: seq<(nat, Op)>, r: Recovered): Recovered {
    r.(inserted := entries + r.inserted)
  }

  // WriteBatchInternal::InsertInto on a batch with these contents.
  method InsertInto(record: seq<byte>) returns (entries: seq<(nat, Op)>, status: WriteBatches.Status, lastSeq: nat)
    requires |record| >= WriteBatches.HEADER
    ensures status == WriteBatches.Iterated(record).1 && lastSeq == LastSequence(record)
    ensures entries == GroupCommit.Numbered(WriteBatches.SequenceOf(record), WriteBatches.Iterated(record).0)
  {
    hide WriteBatches.Iterated, WriteBatches.SequenceOf, WriteBatches.CountOf, GroupCommit.Numbered;
    var batch := new WriteBatches.WriteBatch();
    batch.rep := record;
    var handled;
    handled, status := batch.Iterate();
    var sequence := batch.Sequence();
    entries := [];
    WholeAndNone(handled);
    GroupCommit.NumberedNone(batch.Sequence(), handled);
    for k := 0 to |handled|
      invariant batch.rep == record
      invariant sequence == batch.Sequence() + k
      invariant entries == GroupCommit.Numbered(batch.Sequence(), handled[..k])
    {
      GroupCommit.NumberedNext(batch.Sequence(), handled, k);
      entries := entries + [(sequence, handled[k])];
      sequence := sequence + 1;
    }
    lastSeq := (batch.Sequence() + batch.Count() - 1) % TWO_64;
  }

  lemma WholeAndNone(ops: seq<Op>)
    ensures ops[..0] == [] && ops[..|ops|] == ops
  {
  }

  predicate GoodBatch(data: seq<byte>) {
    |data| >= WriteBatches.HEADER && WriteBatches.Iterated(data).1 == WriteBatches.Ok
  }

  // Opening fails just when it is paranoid and the log has a corruption to report or a record
  // that is no batch.
  lemma {:induction false} FailsExactly(crc: Checksum, s: Log.ReaderState, paranoid: bool, max: nat)
    ensures Replay(crc, s, paranoid, max).ok
       <==> !paranoid || (Log.ReadAll(crc, true, s).1 == [] && forall data :: data in Log.ReadAll(crc, true, s).0 ==> GoodBatch(data))
    decreases Log.Remaining(s)
  {
    hide Log.ReadLogical, WriteBatches.Iterated, WriteBatches.SequenceOf, WriteBatches.CountOf;
    var l := Log.ReadLogical(crc, true, s, false, []);
    if l.Record? {
      var rest := Log.ReadAll(crc, true, l.state);
      assert Log.ReadAll(crc, true, s) == ([l.data] + rest.0, l.drops + rest.1);
      assert l.data in [l.data] + rest.0;
      FailsExactly(crc, l.state, paranoid, max);
      if |l.data| >= WriteBatches.HEADER {
        FailsExactly(crc, l.state, paranoid, Max(max, LastSequence(l.data)));
      }
    }
  }

  lemma BeforeTwice(a: seq<(nat, Op)>, b: seq<(nat, Op)>, r: Recovered)
    ensures Before(a, Before(b, r)) == Before(a + b, r)
    ensures Before(a, Recovered([], r.maxSequence, r.ok)) == Recovered(a, r.maxSequence, r.ok)
    ensures Before(a, Recovered(b, r.maxSequence, r.ok)) == Recovered(a + b, r.maxSequence, r.ok)
    ensures Before([], r) == r
  {
    assert a + (b + r.inserted) == a + b + r.inserted;
    assert a + [] == a;
  }

  method RecoverLogFile(crc: Checksum, file: seq<byte>, paranoid: bool, max: nat) returns (r: Recovered)
    ensures r == Replay(crc, Log.Opened(file), paranoid, max)
  {
    hide Log.ReadLogical, WriteBatches.Iterated, WriteBatches.SequenceOf, GroupCommit.Numbered, LastSequence, Before;
    var reader := new Log.Reader(crc, true, file);
    var inserted: seq<(nat, Op)>, maxSequence: nat, ok := [], max, true;
    ghost var goal := Replay(crc, Log.Opened(file), paranoid, max);
    BeforeTwice([], [], goal);
    while true
      invariant reader.crc == crc && reader.checksum
      invariant goal == if ok then Before(inserted, Replay(crc, reader.State(), paranoid, maxSequence))
                        else Recovered(inserted, maxSequence, false)
      decreases Log.Remaining(reader.State())
    {
      ghost var was := reader.State();
      var seen := |reader.drops|;
      var more, record := reader.ReadRecord();
      if paranoid && |reader.drops| > seen {
        // LogReporter::Corruption
        ok := false;
      }
      BeforeTwice(inserted, [], Recovered([], maxSequence, ok));
      BeforeTwice(inserted, [], Recovered([], maxSequence, false));
      if !(more && ok) {
        break;
      }
      if |record| < WriteBatches.HEADER {
        if paranoid {
          ok := false;
        }
        continue;
      }
      var entries, status, lastSeq := InsertInto(record);
      ghost var later := Replay(crc, reader.State(), paranoid, Max(maxSequence, lastSeq));
      BeforeTwice(inserted, entries, later);
      BeforeTwice(inserted, entries, Recovered([], maxSequence, false));
      inserted := inserted + entries;
      if status != WriteBatches.Ok && paranoid {
        ok := false;
        break;
      }
      if lastSeq > maxSequence {
        maxSequence := lastSeq;
      }
    }
    r := Recovered(inserted, maxSequence, ok);
  }

  // ---- What recovery gives back ----

  type Record = GroupCommit.Record<Op>

  // A record that WriteBatch can encode: every group Write logs is one, unless a key or value
  // has 2^32 bytes, a group 2^31 operations, or sequence numbers run past 64 bits.
  ghost predicate Storable(r: Record) {
    WriteBatches.AllFit(r.ops) && |r.ops| < WriteBatches.TWO_31 && 1 <= r.first && r.first + |r.ops| < TWO_64
  }

  ghost predicate AllStorable(log: seq<Record>) {
    forall i :: 0 <= i < |log| ==> Storable(log[i])
  }

  // What AddRecord is given for each record.
  function Payloads(log: seq<Record>): (p: seq<seq<byte>>)
    ensures |p| == |log|
  {
    seq(|log|, i requires 0 <= i < |log| => WriteBatches.Contents(log[i].first, log[i].ops))
  }

  function LastOf(r: Record): nat
    requires r.first >= 1
  {
    r.first + |r.ops| - 1
  }

  ghost function MaxOver(max: nat, log: seq<Record>): nat
    requires AllStorable(log)
    decreases |log|
  {
    if |log| == 0 then max else MaxOver(Max(max, LastOf(log[0])), log[1..])
  }

  lemma {:induction false} FlattenCons(log: seq<Record>)
    requires |log| > 0
    ensures GroupCommit.Flatten(log) == GroupCommit.Numbered(log[0].first, log[0].ops) + GroupCommit.Flatten(log[1..])
  {
    hide GroupCommit.Numbered;
    var n := |log| - 1;
    if n > 0 {
      FlattenCons(log[..n]);
      assert log[..n][1..] == log[1..][..n - 1];
    } else {
      assert log[..0] == [];
    }
  }

  lemma ReplayRecord(crc: Checksum, s: Log.ReaderState, paranoid: bool, max: nat, r: Record, next: Log.ReaderState)
    requires Storable(r)
    requires Log.ReadLogical(crc, true, s, false, []) == Log.Record(WriteBatches.Contents(r.first, r.ops), next, [])
    ensures Replay(crc, s, paranoid, max)
         == Before(GroupCommit.Numbered(r.first, r.ops), Replay(crc, next, paranoid, Max(max, LastOf(r))))
  {
    hide Log.ReadLogical, WriteBatches.Iterated, WriteBatches.SequenceOf, WriteBatches.CountOf, WriteBatches.Contents;
    WriteBatches.ContentsRoundTrip(r.first, r.ops);
  }

  lemma {:induction false} ReplayRecords(crc: Checksum, s: Log.ReaderState, paranoid: bool, max: nat, log: seq<Record>)
    requires AllStorable(log) && Log.ReadAll(crc, true, s) == (Payloads(log), [])
    ensures Replay(crc, s, paranoid, max) == Recovered(GroupCommit.Flatten(log), MaxOver(max, log), true)
    decreases |log|
  {
    hide Log.ReadLogical, WriteBatches.Contents, GroupCommit.Numbered;
    var l := Log.ReadLogical(crc, true, s, false, []);
    if |log| == 0 {
    } else {
      assert Storable(log[0]);
      assert l.Record? && l.drops == [] && l.data == Payloads(log)[0];
      assert Payloads(log)[1..] == Payloads(log[1..]);
      ReplayRecord(crc, s, paranoid, max, log[0], l.state);
      ReplayRecords(crc, l.state, paranoid, Max(max, LastOf(log[0])), log[1..]);
      FlattenCons(log);
    }
  }

  // A log file cut off anywhere replays as the whole groups inside it: their operations in their
  // order under their numbers, nothing reported, and the greatest of those numbers.
  lemma CutLogReplays(crc: Checksum, paranoid: bool, max: nat, log: seq<Record>, m: nat, j: nat)
    requires AllStorable(log) && Log.HoldsJust(crc, Payloads(log), m, j)
    ensures Replay(crc, Log.Opened(Log.Written(crc, Payloads(log))[..m]), paranoid, max)
         == Recovered(GroupCommit.Flatten(log[..j]), MaxOver(max, log[..j]), true)
  {
    hide Log.Written, MaxOver, GroupCommit.Flatten, Replay, Storable;
    var s := Log.Opened(Log.Written(crc, Payloads(log))[..m]);
    Log.CrashPrefix(crc, true, Payloads(log), m, j);
    assert j <= |log|;
    assert Payloads(log)[..j] == Payloads(log[..j]);
    ReplayRecords(crc, s, paranoid, max, log[..j]);
  }

  lemma {:induction false} FlattenConcat(a: seq<Record>, b: seq<Record>)
    ensures GroupCommit.Flatten(a + b) == GroupCommit.Flatten(a) + GroupCommit.Flatten(b)
    decreases |b|
  {
    hide GroupCommit.Numbered;
    if |b| == 0 {
      assert a + b == a;
    } else {
      var n := |b| - 1;
      assert (a + b)[..|a + b| - 1] == a + b[..n];
      FlattenConcat(a, b[..n]);
    }
  }

  lemma {:induction false} MaxOverAscending(max: nat, log: seq<Record>)
    requires AllStorable(log) && GroupCommit.LogAscends(log) && |log| > 0 && max < log[0].first
    ensures MaxOver(max, log) == LastOf(log[|log| - 1])
    decreases |log|
  {
    if |log| > 1 {
      assert Max(max, LastOf(log[0])) == LastOf(log[0]) < log[1].first;
      MaxOverAscending(LastOf(log[0]), log[1..]);
    } else {
      assert log[1..] == [];
    }
  }

  // The records in the current log file, and its bytes.
  function CurrentFile(s: GroupCommit.State<Op>): seq<Record>
    requires s.logBase <= |s.log|
  {
    s.log[s.logBase..]
  }

  lemma WholeLogReplays(crc: Checksum, paranoid: bool, log: seq<Record>)
    requires AllStorable(log) && GroupCommit.LogAscends(log)
    ensures Replay(crc, Log.Opened(Log.Written(crc, Payloads(log))), paranoid, 0)
         == Recovered(GroupCommit.Flatten(log), GroupCommit.NextNumber(log) - 1, true)
  {
    hide Replay, Log.Written, GroupCommit.Flatten;
    var file := Log.Written(crc, Payloads(log));
    assert Payloads(log)[..|log|] == Payloads(log) && log[..|log|] == log && file[..|file|] == file;
    CutLogReplays(crc, paranoid, 0, log, |file|, |log|);
    if |log| > 0 {
      assert Storable(log[0]) && Storable(log[|log| - 1]);
      MaxOverAscending(0, log);
    }
  }

  // Between groups of a run without failures, the memtables took the whole log and the last
  // number logged is the one published.
  lemma BetweenGroups(run: seq<GroupCommit.State<Op>>, steps: seq<GroupCommit.Step<Op>>, i: nat)
    requires GroupCommit.IsRun(run, steps) && GroupCommit.Succeeds(steps) && i < |run|
    requires !GroupCommit.Pending(GroupCommit.Front(run[i]))
    ensures var s := run[i];
      && s.logBase <= |s.log| && s.mem == GroupCommit.Flatten(s.log) && GroupCommit.LogAscends(s.log)
      && GroupCommit.NextNumber(s.log) == s.lastSequence + 1
  {
    GroupCommit.RunInv(run, steps, i);
    GroupCommit.RunContiguous(run, steps, i);
    GroupCommit.NoNumberIsReused(run, steps, i);
    GroupCommit.MemBounds(run[i]);
  }

  // When every append and sync succeeded and no group is under way, replaying the current log
  // file gives back exactly the insertions made since the file was started, and the sequence
  // number published last.
  lemma RecoveryReplaysTheRun(crc: Checksum, paranoid: bool, run: seq<GroupCommit.State<Op>>,
                              steps: seq<GroupCommit.Step<Op>>, i: nat)
    requires GroupCommit.IsRun(run, steps) && GroupCommit.Succeeds(steps) && i < |run|
    requires AllStorable(run[i].log) && !GroupCommit.Pending(GroupCommit.Front(run[i]))
    ensures var s := run[i];
      && s.logBase <= |s.log|
      && var r := Replay(crc, Log.Opened(Log.Written(crc, Payloads(CurrentFile(s)))), paranoid, 0);
         && r.ok && s.mem == GroupCommit.Flatten(s.log[..s.logBase]) + r.inserted
         && (s.logBase < |s.log| ==> r.maxSequence == s.lastSequence)
         && (s.logBase == 0 ==> r.inserted == s.mem && r.maxSequence == s.lastSequence)
  {
    hide Replay, Log.Written, GroupCommit.Flatten, GroupCommit.IsRun, GroupCommit.Succeeds, Payloads, GroupCommit.Pending;
    hide AllStorable, GroupCommit.LogAscends, GroupCommit.NextNumber;
    BetweenGroups(run, steps, i);
    var s := run[i];
    var log := CurrentFile(s);
    CurrentFileOk(s);
    WholeLogReplays(crc, paranoid, log);
    FlattenConcat(s.log[..s.logBase], log);
    FlattenNone(s.log);
  }

  lemma CurrentFileOk(s: GroupCommit.State<Op>)
    requires s.logBase <= |s.log| && AllStorable(s.log) && GroupCommit.LogAscends(s.log)
    ensures var log := CurrentFile(s);
      && AllStorable(log) && GroupCommit.LogAscends(log) && s.log[..s.logBase] + log == s.log
      && (s.logBase < |s.log| ==> GroupCommit.NextNumber(log) == GroupCommit.NextNumber(s.log))
      && (s.logBase == 0 ==> log == s.log)
  {
  }

  lemma FlattenNone(log: seq<Record>)
    ensures GroupCommit.Flatten(log[..0]) == []
  {
  }
}
