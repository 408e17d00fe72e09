// What a run of Write leaves in its log file, failed appends included, and what recovery then
// gives back of the batches acknowledged after a sync.
module Durability {
  import opened Options
  import opened Coding
  import WriteBatches
  import Log
  import LogFailures
  import GroupCommit
  import Recovery

  type Op = WriteBatches.Op
  type State = GroupCommit.State<Op>
  type Step = GroupCommit.Step<Op>

  // The current log file, and where its writer takes it to end.
  datatype LogFile = LogFile(bytes: seq<byte>, pos: nat)

  // What the front writer hands to AddRecord.
  function PayloadOf(s: State): seq<byte> {
    var w := GroupCommit.Front(s);
    if w.Logging? then WriteBatches.Contents(w.base + 1, w.ops) else []
  }

  ghost predicate Adds(crc: Checksum, f: LogFile, data: seq<byte>, g: LogFile, ok: bool) {
    f.bytes <= g.bytes && Log.Attempted(crc, f.pos, data, true, g.bytes[|f.bytes|..], g.pos, ok)
  }

  ghost predicate FileStep(crc: Checksum, s: State, step: Step, f: LogFile, g: LogFile) {
    match step
    case Append => Adds(crc, f, PayloadOf(s), g, true)
    case AppendFails => Adds(crc, f, PayloadOf(s), g, false)
    case SwitchMemTable => g == LogFile([], 0)
    case _ => g == f
  }

  // The log file along a run; it may start with one that is reused.
  ghost predicate Files(crc: Checksum, run: seq<State>, steps: seq<Step>, files: seq<LogFile>) {
    && |files| == |run| == |steps| + 1 && files[0].pos == |files[0].bytes|
    && forall i :: 0 <= i < |steps| ==> FileStep(crc, run[i], steps[i], files[i], files[i + 1])
  }

  predicate SameFile(steps: seq<Step>, j: nat, i: nat)
    requires j <= i <= |steps|
  {
    forall k :: j <= k < i ==> !steps[k].SwitchMemTable?
  }

  // A crash after i steps leaves of the current log file at least what was there at each sync.
  ghost predicate KeepsSynced(steps: seq<Step>, files: seq<LogFile>, i: nat, disk: seq<byte>)
    requires i <= |steps| < |files|
  {
    forall j :: 0 <= j < i && steps[j].Sync? && SameFile(steps, j, i) ==> files[j].bytes <= disk
  }

  lemma Grows(run: seq<State>, steps: seq<Step>, i: nat)
    requires GroupCommit.IsRun(run, steps) && i < |steps|
    ensures run[i].log <= run[i + 1].log && run[i].logBase <= run[i + 1].logBase
    ensures |run[i].durable| == |run[i].log| && |run[i + 1].durable| == |run[i + 1].log|
  {
    hide GroupCommit.Next, GroupCommit.FrontOk, GroupCommit.MemOk, GroupCommit.SnapshotsOk;
    GroupCommit.RunInv(run, steps, i);
    GroupCommit.RunInv(run, steps, i + 1);
    GroupCommit.StepKeeps(run[i], steps[i], run[i + 1]);
    BaseGrows(run[i], steps[i], run[i + 1]);
  }

  lemma BaseGrows(s: State, step: Step, t: State)
    requires GroupCommit.Next(s, step, t) && s.logBase <= |s.log|
    ensures s.logBase <= t.logBase && (step.SwitchMemTable? ==> t.logBase == |s.log|)
    ensures |t.log| > |s.log| ==> step.Append? && |t.log| == |s.log| + 1
    ensures step.Append? ==>
              && |t.log| == |s.log| + 1 && PayloadOf(s) == WriteBatches.Contents(t.log[|s.log|].first, t.log[|s.log|].ops)
    ensures |t.durable| >= |s.durable| == |s.log| ==>
              forall r :: 0 <= r < |t.durable| && t.durable[r] ==>
                (r < |s.durable| && s.durable[r]) || (step.Sync? && s.logBase <= r < |s.log|)
  {
    hide GroupCommit.IsGroup, GroupCommit.OpsOf, GroupCommit.AckGroup, WriteBatches.Contents;
  }

  lemma {:induction false} GrowsTo(run: seq<State>, steps: seq<Step>, j: nat, i: nat)
    requires GroupCommit.IsRun(run, steps) && j <= i < |run| == |steps| + 1
    ensures run[j].log <= run[i].log && run[j].logBase <= run[i].logBase
    decreases i
  {
    hide GroupCommit.IsRun;
    if j < i {
      StepOf(run, steps, i - 1);
      GrowsTo(run, steps, j, i - 1);
    }
  }

  lemma StepOf(run: seq<State>, steps: seq<Step>, i: nat)
    requires GroupCommit.IsRun(run, steps) && i < |steps|
    ensures |run| == |steps| + 1 && GroupCommit.Next(run[i], steps[i], run[i + 1])
    ensures run[i].log <= run[i + 1].log && run[i].logBase <= run[i + 1].logBase && run[i].logBase <= |run[i].log|
    ensures |run[i].durable| == |run[i].log| && |run[i + 1].durable| == |run[i + 1].log|
  {
    Grows(run, steps, i);
    GroupCommit.RunInv(run, steps, i);
  }

  // The step that appended record r.
  lemma {:induction false} WhenAppended(run: seq<State>, steps: seq<Step>, i: nat, r: nat) returns (a: nat)
    requires GroupCommit.IsRun(run, steps) && i < |run| == |steps| + 1 && r < |run[i].log|
    ensures a < i && steps[a].Append? && |run[a].log| == r && |run[a + 1].log| == r + 1 && run[a + 1].log <= run[i].log
    ensures PayloadOf(run[a]) == WriteBatches.Contents(run[i].log[r].first, run[i].log[r].ops)
    decreases i
  {
    hide GroupCommit.Next, WriteBatches.Contents, PayloadOf;
    if i > 0 {
      hide GroupCommit.IsRun;
      StepOf(run, steps, i - 1);
      if r < |run[i - 1].log| {
        a := WhenAppended(run, steps, i - 1, r);
      } else {
        BaseGrows(run[i - 1], steps[i - 1], run[i]);
        a := i - 1;
      }
    }
  }

  // A sync that made record r durable.
  lemma {:induction false} WhenSynced(run: seq<State>, steps: seq<Step>, i: nat, r: nat) returns (j: nat)
    requires GroupCommit.IsRun(run, steps) && i < |run| == |steps| + 1 && r < |run[i].durable| && run[i].durable[r]
    ensures j < i && steps[j].Sync? && run[j].logBase <= r < |run[j].log|
    decreases i
  {
    hide GroupCommit.Next;
    if i > 0 {
      hide GroupCommit.IsRun;
      StepOf(run, steps, i - 1);
      BaseGrows(run[i - 1], steps[i - 1], run[i]);
      if r < |run[i - 1].durable| && run[i - 1].durable[r] {
        j := WhenSynced(run, steps, i - 1, r);
      } else {
        j := i - 1;
      }
    }
  }

  // The file has not been switched since a record of it was in the log.
  lemma NotSwitched(run: seq<State>, steps: seq<Step>, j: nat, i: nat, r: nat)
    requires GroupCommit.IsRun(run, steps) && j <= i < |run| == |steps| + 1
    requires run[i].logBase <= r < |run[j].log|
    ensures SameFile(steps, j, i)
  {
    hide GroupCommit.IsRun, GroupCommit.Next;
    forall k | j <= k < i ensures !steps[k].SwitchMemTable? {
      StepOf(run, steps, k);
      BaseGrows(run[k], steps[k], run[k + 1]);
      GrowsTo(run, steps, j, k);
      GrowsTo(run, steps, k + 1, i);
    }
  }

  lemma {:induction false} FileGrows(crc: Checksum, run: seq<State>, steps: seq<Step>, files: seq<LogFile>, j: nat, i: nat)
    requires Files(crc, run, steps, files) && j <= i <= |steps| && SameFile(steps, j, i)
    ensures files[j].bytes <= files[i].bytes
    decreases i
  {
    if j < i {
      FileGrows(crc, run, steps, files, j, i - 1);
      assert FileStep(crc, run[i - 1], steps[i - 1], files[i - 1], files[i]);
    }
  }

  // As long as the file is as long as its writer takes it to be, the writer may go on.
  lemma {:induction false} NoByteLost(crc: Checksum, run: seq<State>, steps: seq<Step>, files: seq<LogFile>, i: nat)
    requires Files(crc, run, steps, files) && i <= |steps| && LogFailures.Ready(crc, true, files[0].bytes, files[0].pos)
    ensures |files[i].bytes| <= files[i].pos
    ensures |files[i].bytes| == files[i].pos ==> LogFailures.Ready(crc, true, files[i].bytes, files[i].pos)
    decreases i
  {
    hide LogFailures.Ready, Log.Attempted, PayloadOf;
    if i > 0 {
      NoByteLost(crc, run, steps, files, i - 1);
      var f, g := files[i - 1], files[i];
      assert FileStep(crc, run[i - 1], steps[i - 1], f, g);
      if steps[i - 1].Append? || steps[i - 1].AppendFails? {
        LengthKept(crc, f, PayloadOf(run[i - 1]), g, steps[i - 1].Append?);
      } else if steps[i - 1].SwitchMemTable? {
        EmptyIsReady(crc);
      }
    }
  }

  lemma EmptyIsReady(crc: Checksum)
    ensures LogFailures.Ready(crc, true, [], 0)
  {
    assert LogFailures.Padded([]) == [];
  }

  lemma LengthKept(crc: Checksum, f: LogFile, data: seq<byte>, g: LogFile, ok: bool)
    requires Adds(crc, f, data, g, ok) && |f.bytes| <= f.pos
    requires |f.bytes| == f.pos ==> LogFailures.Ready(crc, true, f.bytes, f.pos)
    ensures |g.bytes| <= g.pos
    ensures |g.bytes| == g.pos ==> LogFailures.Ready(crc, true, g.bytes, g.pos) && |f.bytes| == f.pos
    ensures |g.bytes| == g.pos && ok ==> g.bytes == f.bytes + Log.Emit(crc, f.pos, data, true)
  {
    hide LogFailures.Ready, Log.Attempted, Log.Emit;
    var added := g.bytes[|f.bytes|..];
    assert g.bytes == f.bytes + added;
    Log.AttemptBounds(crc, f.pos, data, true, added, g.pos, ok);
    if |g.bytes| == g.pos {
      LogFailures.AfterAttempt(crc, true, f.bytes, f.pos, data, added, g.pos, ok);
    }
  }

  // ---- Replaying a file that holds a record somewhere ----

  lemma {:induction false} ReplayFinds(crc: Checksum, s: Log.ReaderState, paranoid: bool, max: nat, first: nat, ops: seq<Op>)
    requires WriteBatches.Contents(first, ops) in Log.ReadAll(crc, true, s).0
    requires WriteBatches.AllFit(ops) && |ops| < WriteBatches.TWO_31 && first < TWO_64
    ensures var r := Recovery.Replay(crc, s, paranoid, max);
            (!paranoid ==> r.ok) && (r.ok ==> forall k :: 0 <= k < |ops| ==> (first + k, ops[k]) in r.inserted)
    decreases Log.Remaining(s)
  {
    hide Log.ReadLogical, WriteBatches.Iterated, WriteBatches.SequenceOf, WriteBatches.CountOf, WriteBatches.Contents;
    var data := WriteBatches.Contents(first, ops);
    var l := Log.ReadLogical(crc, true, s, false, []);
    WriteBatches.ContentsRoundTrip(first, ops);
    if l.Record? {
      StaysOk(crc, l.state, paranoid, Recovery.Max(max, if |l.data| < WriteBatches.HEADER then 0 else Recovery.LastSequence(l.data)));
      if data in Log.ReadAll(crc, true, l.state).0 {
        ReplayFinds(crc, l.state, paranoid, max, first, ops);
        if |l.data| >= WriteBatches.HEADER {
          ReplayFinds(crc, l.state, paranoid, Recovery.Max(max, Recovery.LastSequence(l.data)), first, ops);
        }
      } else {
        assert l.data == data;
        NumberedHas(first, ops);
      }
    }
  }

  lemma NumberedHas(first: nat, ops: seq<Op>)
    ensures forall k :: 0 <= k < |ops| ==> (first + k, ops[k]) in GroupCommit.Numbered(first, ops)
  {
    forall k | 0 <= k < |ops| ensures (first + k, ops[k]) in GroupCommit.Numbered(first, ops) {
      assert GroupCommit.Numbered(first, ops)[k] == (first + k, ops[k]);
    }
  }

  lemma {:induction false} StaysOk(crc: Checksum, s: Log.ReaderState, paranoid: bool, max: nat)
    ensures !paranoid ==> Recovery.Replay(crc, s, paranoid, max).ok
    decreases Log.Remaining(s)
  {
    hide Log.ReadLogical, WriteBatches.Iterated, WriteBatches.SequenceOf, WriteBatches.CountOf;
    var l := Log.ReadLogical(crc, true, s, false, []);
    if l.Record? {
      StaysOk(crc, l.state, paranoid, max);
      if |l.data| >= WriteBatches.HEADER {
        StaysOk(crc, l.state, paranoid, Recovery.Max(max, Recovery.LastSequence(l.data)));
      }
    }
  }

  // A batch acknowledged OK after a sync survives any crash that keeps what was synced, whatever
  // failed in the run, if no byte of its log file was lost up to then: replaying what is left of
  // the file inserts all of it, under its numbers, or reports a corruption to a paranoid opener.
  lemma SyncedWriteSurvives(crc: Checksum, paranoid: bool, run: seq<State>, steps: seq<Step>, files: seq<LogFile>,
                            i: nat, w: nat, disk: seq<byte>)
    returns (r: nat, first: nat, a: nat)
    requires GroupCommit.IsRun(run, steps) && Files(crc, run, steps, files) && i < |run| == |files| == |steps| + 1
    requires LogFailures.Ready(crc, true, files[0].bytes, files[0].pos) && KeepsSynced(steps, files, i, disk)
    requires w < |run[i].phases| && w < |run[i].requests| && run[i].requests[w].batch.Some? && run[i].requests[w].sync
    requires run[i].phases[w].Acked? && run[i].phases[w].ok && Recovery.AllStorable(run[i].log)
    ensures var s := run[i];
      && r < |s.log| && s.log[r].from <= w < s.log[r].to && a < i && steps[a].Append? && |run[a].log| == r
      && (s.logBase <= r && |files[a + 1].bytes| == files[a + 1].pos ==>
            Restores(Recovery.Replay(crc, Log.Opened(disk), paranoid, 0), paranoid, first, s.requests[w].batch.value))
  {
    hide GroupCommit.IsRun, Files, KeepsSynced, LogFailures.Ready, PayloadOf, Recovery.AllStorable, Log.ReadAll, Recovery.Replay, WriteBatches.Contents;
    r, first := GroupCommit.AcknowledgedBatch(run, steps, i, w);
    var s := run[i];
    a := WhenAppended(run, steps, i, r);
    if s.logBase <= r && |files[a + 1].bytes| == files[a + 1].pos {
      Stored(crc, run, steps, files, i, r, a, disk);
      var record := s.log[r];
      StorableAt(s.log, r);
      ReplayFinds(crc, Log.Opened(disk), paranoid, 0, record.first, record.ops);
      var off := first - record.first;
      var batch := s.requests[w].batch.value;
      forall k | 0 <= k < |batch| ensures batch[k] == record.ops[off + k] {
        assert record.ops[off..off + |batch|][k] == record.ops[off + k];
      }
    }
  }

  ghost predicate Restores(r: Recovery.Recovered, paranoid: bool, first: nat, batch: seq<Op>) {
    && (!paranoid ==> r.ok)
    && (r.ok ==> forall k :: 0 <= k < |batch| ==> (first + k, batch[k]) in r.inserted)
  }

  lemma StorableAt(log: seq<Recovery.Record>, r: nat)
    requires Recovery.AllStorable(log) && r < |log|
    ensures Recovery.Storable(log[r])
  {
  }

  // A durable record of the current log file is read back from what a crash leaves of it.
  lemma Stored(crc: Checksum, run: seq<State>, steps: seq<Step>, files: seq<LogFile>, i: nat, r: nat, a: nat, disk: seq<byte>)
    requires GroupCommit.IsRun(run, steps) && Files(crc, run, steps, files) && i < |run| == |steps| + 1
    requires LogFailures.Ready(crc, true, files[0].bytes, files[0].pos) && KeepsSynced(steps, files, i, disk)
    requires run[i].logBase <= r < |run[i].log| && r < |run[i].durable| && run[i].durable[r]
    requires a < i && steps[a].Append? && |run[a].log| == r && |run[a + 1].log| == r + 1
    requires |files[a + 1].bytes| == files[a + 1].pos
    ensures PayloadOf(run[a]) in Log.ReadAll(crc, true, Log.Opened(disk)).0
  {
    hide GroupCommit.IsRun, LogFailures.Ready, PayloadOf, Log.ReadAll, Log.Emit, Log.Attempted;
    var j := WhenSynced(run, steps, i, r);
    NotSwitched(run, steps, j, i, r);
    NotSwitched(run, steps, a + 1, i, r);
    if j <= a {
      GrowsTo(run, steps, j, a);
    }
    FileGrows(crc, run, steps, files, a + 1, j);
    assert files[j].bytes <= disk;
    NoByteLost(crc, run, steps, files, a);
    assert FileStep(crc, run[a], steps[a], files[a], files[a + 1]);
    LengthKept(crc, files[a], PayloadOf(run[a]), files[a + 1], true);
    LogFailures.ReadBackWithin(crc, true, files[a].bytes, files[a].pos, PayloadOf(run[a]), disk);
  }

  // With every append a success and no byte lost, the file is just the records since it was started.
  lemma {:induction false} WholeFile(crc: Checksum, run: seq<State>, steps: seq<Step>, files: seq<LogFile>, i: nat)
    requires GroupCommit.IsRun(run, steps) && Files(crc, run, steps, files) && i < |run| == |files| == |steps| + 1
    requires files[0] == LogFile([], 0) && |files[i].bytes| == files[i].pos
    requires forall k :: 0 <= k < i ==> !steps[k].AppendFails?
    ensures run[i].logBase <= |run[i].log|
    ensures files[i].bytes == Log.Written(crc, Recovery.Payloads(Recovery.CurrentFile(run[i])))
    decreases i
  {
    hide GroupCommit.Next, Log.Emit, Log.Attempted, PayloadOf, LogFailures.Ready, WriteBatches.Contents, GroupCommit.Inv;
    if i > 0 {
      StepOf(run, steps, i - 1);
      var s, t, f, g := run[i - 1], run[i], files[i - 1], files[i];
      BaseGrows(s, steps[i - 1], t);
      assert FileStep(crc, s, steps[i - 1], f, g);
      EmptyIsReady(crc);
      NoByteLost(crc, run, steps, files, i - 1);
      if steps[i - 1].Append? {
        LengthKept(crc, f, PayloadOf(s), g, true);
        WholeFile(crc, run, steps, files, i - 1);
        WrittenOneMore(crc, Recovery.CurrentFile(s), Recovery.CurrentFile(t));
      } else if !steps[i - 1].SwitchMemTable? {
        WholeFile(crc, run, steps, files, i - 1);
        SameBase(s, steps[i - 1], t);
      } else {
        assert Recovery.Payloads([]) == [];
      }
    }
  }

  lemma SameBase(s: State, step: Step, t: State)
    requires GroupCommit.Next(s, step, t)
    ensures !step.SwitchMemTable? ==> t.logBase == s.logBase
    ensures !step.Append? ==> t.log == s.log
  {
    hide GroupCommit.IsGroup, GroupCommit.OpsOf, GroupCommit.AckGroup;
  }

  lemma WrittenOneMore(crc: Checksum, a: seq<Recovery.Record>, b: seq<Recovery.Record>)
    requires |b| == |a| + 1 && a <= b
    ensures var before := Log.Written(crc, Recovery.Payloads(a));
            Log.Written(crc, Recovery.Payloads(b))
            == before + Log.Emit(crc, |before|, WriteBatches.Contents(b[|a|].first, b[|a|].ops), true)
  {
    hide Log.Emit, WriteBatches.Contents;
    assert Recovery.Payloads(b)[..|a|] == Recovery.Payloads(a);
  }

  // ---- A run that loses an acknowledged batch ----

  // One append fails after the header of its record. The write after it is synced and
  // acknowledged, but its record lies where the reader looks for the rest of the first one.
  const LOST_VALUE: seq<byte> := Zeros(100)
  const FIRST_BATCH: seq<Op> := [WriteBatches.Put([], LOST_VALUE)]
  const SECOND_BATCH: seq<Op> := [WriteBatches.Delete([])]

  function LosingSteps(): seq<Step> {
    [GroupCommit.Enqueue(GroupCommit.Request(Some(FIRST_BATCH), false, 115)), GroupCommit.Lead, GroupCommit.RoomMade(1),
     GroupCommit.AppendFails, GroupCommit.Finish,
     GroupCommit.Enqueue(GroupCommit.Request(Some(SECOND_BATCH), true, 14)), GroupCommit.Lead, GroupCommit.RoomMade(1),
     GroupCommit.Append, GroupCommit.Sync, GroupCommit.Insert, GroupCommit.Inserted, GroupCommit.Finish]
  }

  // The states of that run: before the second write, and from then on.
  function Early(phase: GroupCommit.Phase<Op>, popped: nat, last: nat): State {
    GroupCommit.State([GroupCommit.Request(Some(FIRST_BATCH), false, 115)], [phase], popped, [], 0, [], false, [], false, last, false, {})
  }

  function Late(phase: GroupCommit.Phase<Op>, popped: nat, logged: nat, durable: bool, inserted: nat, last: nat): State
  {
    GroupCommit.State([GroupCommit.Request(Some(FIRST_BATCH), false, 115), GroupCommit.Request(Some(SECOND_BATCH), true, 14)],
      [GroupCommit.Acked(false, None), phase], popped,
      if logged == 0 then [] else [GroupCommit.Record(2, SECOND_BATCH, 1, 2)], 0,
      if logged == 0 then [] else [durable], false,
      if inserted == 0 then [] else [(2, SECOND_BATCH[0])], false, last, false, {})
  }

  function LosingStates(): seq<State> {
    [GroupCommit.State([], [], 0, [], 0, [], false, [], false, 0, false, {}),
     Early(GroupCommit.Waiting, 0, 0), Early(GroupCommit.Making, 0, 0), Early(GroupCommit.Logging(1, 0, FIRST_BATCH), 0, 0),
     Early(GroupCommit.Ending(1, 1, false, false, None), 0, 0), Early(GroupCommit.Acked(false, None), 1, 1),
     Late(GroupCommit.Waiting, 1, 0, false, 0, 1), Late(GroupCommit.Making, 1, 0, false, 0, 1),
     Late(GroupCommit.Logging(1, 1, SECOND_BATCH), 1, 0, false, 0, 1),
     Late(GroupCommit.Syncing(1, 1, SECOND_BATCH), 1, 1, false, 0, 1),
     Late(GroupCommit.Applying(1, 1, SECOND_BATCH, 0), 1, 1, true, 0, 1),
     Late(GroupCommit.Applying(1, 1, SECOND_BATCH, 1), 1, 1, true, 1, 1),
     Late(GroupCommit.Ending(1, 2, true, false, Some(0)), 1, 1, true, 1, 1),
     Late(GroupCommit.Acked(true, Some(0)), 2, 1, true, 1, 2)]
  }

  lemma GroupOfOne(r: GroupCommit.Request<Op>)
    requires r.batch.Some?
    ensures GroupCommit.IsGroup([r], 1) && GroupCommit.OpsOf([r], 1) == r.batch.value
  {
    assert GroupCommit.OpsOf([r], 0) == [];
  }

  lemma LosingEarly(i: nat)
    requires i < 6 && i != 2
    ensures GroupCommit.Next(LosingStates()[i], LosingSteps()[i], LosingStates()[i + 1])
  {
    hide GroupCommit.IsGroup, GroupCommit.OpsOf;
  }

  lemma LosingGroup(i: nat)
    requires i == 2 || i == 7
    ensures GroupCommit.Next(LosingStates()[i], LosingSteps()[i], LosingStates()[i + 1])
  {
    var s := LosingStates()[i];
    var a := s.requests[s.popped];
    GroupOfOne(a);
    assert s.requests[s.popped..] == [a];
    hide GroupCommit.IsGroup, GroupCommit.OpsOf;
  }

  lemma LosingLate(i: nat)
    requires i == 6 || i == 8
    ensures GroupCommit.Next(LosingStates()[i], LosingSteps()[i], LosingStates()[i + 1])
  {
    hide GroupCommit.IsGroup, GroupCommit.OpsOf;
  }

  lemma LosingLast(i: nat)
    requires 9 <= i < |LosingSteps()|
    ensures GroupCommit.Next(LosingStates()[i], LosingSteps()[i], LosingStates()[i + 1])
  {
    hide GroupCommit.IsGroup, GroupCommit.OpsOf;
  }

  lemma LosingIsRun()
    ensures GroupCommit.IsRun(LosingStates(), LosingSteps())
  {
    var run, steps := LosingStates(), LosingSteps();
    hide GroupCommit.Next;
    forall i | 0 <= i < |steps| ensures GroupCommit.Next(run[i], steps[i], run[i + 1]) {
      if i == 2 || i == 7 {
        LosingGroup(i);
      } else if i < 6 {
        LosingEarly(i);
      } else if i < 9 {
        LosingLate(i);
      } else {
        LosingLast(i);
      }
    }
  }

  lemma BatchSizes()
    ensures |WriteBatches.Contents(1, FIRST_BATCH)| == 115 && |WriteBatches.Contents(2, SECOND_BATCH)| == 14
  {
    assert FIRST_BATCH[1..] == [] && SECOND_BATCH[1..] == [];
    assert WriteBatches.EncodeOps([]) == [];
    assert |LengthPrefixed(LOST_VALUE)| == 101 && |LengthPrefixed([])| == 1;
    assert |WriteBatches.EncodeOp(FIRST_BATCH[0])| == 103 && |WriteBatches.EncodeOp(SECOND_BATCH[0])| == 2;
  }

  // The header that the failed append leaves, and the record after it.
  function Torn(crc: Checksum): (s: seq<byte>)
    ensures |s| == Log.HEADER
  {
    BatchSizes();
    Log.PhysicalRecord(crc, Log.FULL, WriteBatches.Contents(1, FIRST_BATCH))[..Log.HEADER]
  }

  function Swallowed(crc: Checksum): (s: seq<byte>)
    ensures |s| == 21
  {
    BatchSizes();
    Log.PhysicalRecord(crc, Log.FULL, WriteBatches.Contents(2, SECOND_BATCH))
  }

  function LosingFiles(crc: Checksum): (files: seq<LogFile>)
    ensures |files| == 14
  {
    seq(14, i => if i <= 3 then LogFile([], 0) else if i <= 8 then LogFile(Torn(crc), 122) else LogFile(Torn(crc) + Swallowed(crc), 143))
  }

  lemma FailedFirst(crc: Checksum)
    ensures Adds(crc, LogFile([], 0), WriteBatches.Contents(1, FIRST_BATCH), LogFile(Torn(crc), 122), false)
  {
    hide WriteBatches.Contents, Log.PhysicalRecord;
    BatchSizes();
    var data := WriteBatches.Contents(1, FIRST_BATCH);
    assert data[..115] == data;
    assert Torn(crc)[0..] == Torn(crc) && Torn(crc)[..0] == Zeros(0);
    assert Log.AfterTrailer(crc, 0, data, true, Torn(crc)[0..], 122, false);
  }

  lemma AddedSecond(crc: Checksum)
    ensures Adds(crc, LogFile(Torn(crc), 122), WriteBatches.Contents(2, SECOND_BATCH), LogFile(Torn(crc) + Swallowed(crc), 143), true)
  {
    hide WriteBatches.Contents, Log.PhysicalRecord;
    BatchSizes();
    var data := WriteBatches.Contents(2, SECOND_BATCH);
    var added := Swallowed(crc);
    assert data[..14] == data;
    assert (Torn(crc) + added)[|Torn(crc)|..] == added;
    assert added[0..] == added && added[..0] == Zeros(0);
    assert Log.AfterTrailer(crc, 122, data, true, added[0..], 143, true);
  }

  lemma LosingFilesOk(crc: Checksum)
    ensures Files(crc, LosingStates(), LosingSteps(), LosingFiles(crc))
  {
    hide Log.Attempted, WriteBatches.Contents, Torn, Swallowed;
    FailedFirst(crc);
    AddedSecond(crc);
    var run, steps, files := LosingStates(), LosingSteps(), LosingFiles(crc);
    hide Adds;
    forall i | 0 <= i < |steps| ensures FileStep(crc, run[i], steps[i], files[i], files[i + 1]) {
    }
  }

  lemma NothingReplayed(crc: Checksum, paranoid: bool)
    ensures Recovery.Replay(crc, Log.Opened(Torn(crc) + Swallowed(crc)), paranoid, 0) == Recovery.Recovered([], 0, true)
  {
    hide WriteBatches.Contents;
    BatchSizes();
    var file := Torn(crc) + Swallowed(crc);
    var record := Log.PhysicalRecord(crc, Log.FULL, WriteBatches.Contents(1, FIRST_BATCH));
    assert record[4] == 115 && record[5] == 0;
    assert file[4] == record[4] && file[5] == record[5];
    var s := Log.Fill(Log.Opened(file));
    assert s == Log.ReaderState([], file, true);
    assert Log.ReadPhysical(crc, true, Log.Opened(file)) == Log.ReadPhysical(crc, true, s) == Log.Physical(Log.END_OF_FILE, [], s.(buffer := []), []);
  }

  // The second batch is acknowledged OK and synced, the file keeps every byte, and the replay
  // gives back nothing and reports nothing.
  lemma LosingRun(crc: Checksum, paranoid: bool) returns (run: seq<State>, steps: seq<Step>, files: seq<LogFile>)
    ensures GroupCommit.IsRun(run, steps) && Files(crc, run, steps, files) && |run| == |files| == |steps| + 1
    ensures files[0] == LogFile([], 0) && KeepsSynced(steps, files, |steps|, files[|steps|].bytes)
    ensures var s := run[|steps|];
      && |s.requests| == |s.phases| == 2 && s.phases[1].Acked? && s.phases[1].ok && s.requests[1].sync
      && s.requests[1].batch == Some(SECOND_BATCH) && s.mem == [(2, SECOND_BATCH[0])] && s.logBase == 0
    ensures Recovery.Replay(crc, Log.Opened(files[|steps|].bytes), paranoid, 0) == Recovery.Recovered([], 0, true)
  {
    hide GroupCommit.IsRun, Files, Torn, Swallowed, Recovery.Replay;
    run, steps, files := LosingStates(), LosingSteps(), LosingFiles(crc);
    LosingIsRun();
    LosingFilesOk(crc);
    NothingReplayed(crc, paranoid);
  }
}
