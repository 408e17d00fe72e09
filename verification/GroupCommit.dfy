// db/db_impl.cpp Write, BuildBatchGroup and MakeRoomForWrite: the writer queue as a state
// machine. One step is what a thread does between two points where others may run.
module GroupCommit {
  import opened Options

  // A call of Write: its batch (None is the NULL batch of a forced compaction), its sync
  // flag, and the byte size of the batch.
  datatype Request<+O> = Request(batch: Option<seq<O>>, sync: bool, size: nat)

  // Where a caller stands. Everything between Making and Ending is done by the front writer
  // alone; n is the length of its group, base the last sequence number before it.
  datatype Phase<+O> =
    | Waiting
    | Making                                            // in MakeRoomForWrite
    | Logging(n: nat, base: nat, ops: seq<O>)           // before AddRecord
    | Syncing(n: nat, base: nat, ops: seq<O>)           // before Sync
    | Applying(n: nat, base: nat, ops: seq<O>, k: nat)  // k operations are in the memtable
    | Ending(n: nat, last: nat, ok: bool, syncError: bool, record: Option<nat>)
    | Acked(ok: bool, record: Option<nat>)              // returned; the log record that holds its batch

  // A log record holds the operations of the writers from <= i < to.
  datatype Record<+O> = Record(first: nat, ops: seq<O>, from: nat, to: nat)

  // Writers are numbered in the order in which they joined the queue.
  datatype State<O> = State(
    requests: seq<Request<O>>,
    phases: seq<Phase<O>>,
    popped: nat,            // writers_ holds the writers popped <= i < |requests|
    log: seq<Record<O>>,    // every record appended, over all log files
    logBase: nat,           // the current log file starts here
    durable: seq<bool>,     // which records a successful Sync covered
    lost: bool,             // a Sync failed: the last record is not in the memtable
    mem: seq<(nat, O)>,     // every memtable insertion, in order
    imm: bool,              // a memtable is being compacted
    lastSequence: nat,
    bgError: bool,
    snapshots: set<nat>)    // every sequence number ever read at

  const SMALL_BATCH: nat := 128 * 1024
  const MAX_GROUP: nat := 1024 * 1024

  function MaxSize(first: nat): nat {
    if first <= SMALL_BATCH then first + SMALL_BATCH else MAX_GROUP
  }

  // The total byte size of the batches of the first n writers.
  function SizeOf<O>(ws: seq<Request<O>>, n: nat): nat
    requires n <= |ws|
  {
    if n == 0 then 0 else SizeOf(ws, n - 1) + if ws[n - 1].batch.Some? then ws[n - 1].size else 0
  }

  function OpsOf<O>(ws: seq<Request<O>>, n: nat): seq<O>
    requires n <= |ws|
  {
    if n == 0 then [] else OpsOf(ws, n - 1) + if ws[n - 1].batch.Some? then ws[n - 1].batch.value else []
  }

  // Writer i may join the group of writer 0.
  ghost predicate MayJoin<O>(ws: seq<Request<O>>, i: nat)
    requires 0 < i < |ws|
  {
    && (ws[i].sync ==> ws[0].sync)
    && (ws[i].batch.Some? ==> SizeOf(ws, i + 1) <= MaxSize(ws[0].size))
  }

  // n is the length of the group of writer 0: the longest run of writers that may join.
  ghost predicate IsGroup<O>(ws: seq<Request<O>>, n: nat) {
    && 1 <= n <= |ws|
    && (forall i :: 0 < i < n ==> MayJoin(ws, i))
    && (n < |ws| ==> !MayJoin(ws, n))
  }

  method BuildBatchGroup<O>(ws: seq<Request<O>>) returns (n: nat, result: seq<O>)
    requires |ws| > 0 && ws[0].batch.Some?
    ensures IsGroup(ws, n) && result == OpsOf(ws, n)
  {
    result := ws[0].batch.value;
    var size := ws[0].size;
    var maxSize := MAX_GROUP;
    if size <= SMALL_BATCH {
      maxSize := size + SMALL_BATCH;
    }
    n := 1;
    while n < |ws|
      invariant 1 <= n <= |ws| && forall i :: 0 < i < n ==> MayJoin(ws, i)
      invariant size == SizeOf(ws, n) && result == OpsOf(ws, n)
    {
      var w := ws[n];
      if w.sync && !ws[0].sync {
        break;
      }
      if w.batch.Some? {
        size := size + w.size;
        if size > maxSize {
          break;
        }
        result := result + w.batch.value;
      }
      n := n + 1;
    }
  }

  datatype Step<+O> =
    | Enqueue(request: Request<O>)
    | Lead                    // the front writer leaves its wait loop
    | SwitchMemTable          // new log file and memtable
    | RoomFailed              // MakeRoomForWrite returns an error
    | RoomMade(n: nat)        // it returns OK; the group is built, unless the batch is NULL
    | Append | AppendFails    // AddRecord
    | Sync | SyncFails        // logfile_->Sync
    | Insert                  // one memtable insertion of InsertInto
    | Inserted                // InsertInto returns
    | Finish                  // lock, publish the sequence number, pop and wake the group
    | FlushImm | BackgroundError
    | ReadLatest              // GetSnapshot, or a read without a snapshot

  ghost predicate Init<O>(s: State<O>) {
    && s.requests == [] && s.phases == [] && s.popped == 0 && s.log == [] && s.logBase == 0
    && s.durable == [] && s.mem == [] && !s.lost && !s.imm && !s.bgError && s.lastSequence == 0 && s.snapshots == {}
  }

  // The phase of the front writer.
  function Front<O>(s: State<O>): Phase<O> {
    if s.popped < |s.phases| then s.phases[s.popped] else Waiting
  }

  function SetFront<O>(s: State<O>, p: Phase<O>): seq<Phase<O>> {
    if s.popped < |s.phases| then s.phases[s.popped := p] else s.phases
  }

  function AckGroup<O>(s: State<O>, n: nat, p: Phase<O>): seq<Phase<O>> {
    seq(|s.phases|, i requires 0 <= i < |s.phases| => if s.popped <= i < s.popped + n then p else s.phases[i])
  }

  ghost predicate Next<O>(s: State<O>, step: Step<O>, t: State<O>) {
    var w := Front(s);
    match step
    case Enqueue(r) =>
      t == s.(requests := s.requests + [r], phases := s.phases + [Waiting])
    case Lead =>
      // while (!w.done && &w != writers_.front()) w.cv.Wait();
      && s.popped < |s.phases| && w.Waiting?
      && t == s.(phases := SetFront(s, Making))
    case SwitchMemTable =>
      && w.Making? && !s.imm && !s.bgError
      && t == s.(imm := true, logBase := |s.log|)
    case RoomFailed =>
      && w.Making?
      && t == s.(phases := SetFront(s, Ending(1, s.lastSequence, false, false, None)))
    case RoomMade(n) =>
      && w.Making? && !s.bgError && s.popped < |s.requests|
      && (if s.requests[s.popped].batch.None? then
            t == s.(phases := SetFront(s, Ending(1, s.lastSequence, true, false, None)))
          else
            && IsGroup(s.requests[s.popped..], n)
            && t == s.(phases := SetFront(s, Logging(n, s.lastSequence, OpsOf(s.requests[s.popped..], n)))))
    case Append =>
      && w.Logging? && s.popped < |s.requests|
      && t == s.(log := s.log + [Record(w.base + 1, w.ops, s.popped, s.popped + w.n)], durable := s.durable + [false],
                 phases := SetFront(s, if s.requests[s.popped].sync then Syncing(w.n, w.base, w.ops)
                                       else Applying(w.n, w.base, w.ops, 0)))
    case AppendFails =>
      && w.Logging?
      && t == s.(phases := SetFront(s, Ending(w.n, w.base + |w.ops|, false, false, None)))
    case Sync =>
      && w.Syncing?
      && t == s.(durable := seq(|s.durable|, i requires 0 <= i < |s.durable| => s.durable[i] || s.logBase <= i),
                 phases := SetFront(s, Applying(w.n, w.base, w.ops, 0)))
    case SyncFails =>
      && w.Syncing?
      && t == s.(lost := true, phases := SetFront(s, Ending(w.n, w.base + |w.ops|, false, true, None)))
    case Insert =>
      && w.Applying? && w.k < |w.ops|
      && t == s.(mem := s.mem + [(w.base + 1 + w.k, w.ops[w.k])],
                 phases := SetFront(s, Applying(w.n, w.base, w.ops, w.k + 1)))
    case Inserted =>
      && w.Applying? && w.k == |w.ops| && |s.log| > 0
      && t == s.(phases := SetFront(s, Ending(w.n, w.base + |w.ops|, true, false, Some(|s.log| - 1))))
    case Finish =>
      && w.Ending?
      && t == s.(phases := AckGroup(s, w.n, Acked(w.ok, w.record)), popped := s.popped + w.n,
                 lastSequence := w.last, bgError := s.bgError || w.syncError)
    case FlushImm => s.imm && t == s.(imm := false)
    case BackgroundError => t == s.(bgError := true)
    case ReadLatest => t == s.(snapshots := s.snapshots + {s.lastSequence})
  }

  function Numbered<O>(first: nat, ops: seq<O>): seq<(nat, O)> {
    seq(|ops|, i requires 0 <= i < |ops| => (first + i, ops[i]))
  }

  ghost function Flatten<O>(log: seq<Record<O>>): seq<(nat, O)> {
    if |log| == 0 then [] else
    Flatten(log[..|log| - 1]) + Numbered(log[|log| - 1].first, log[|log| - 1].ops)
  }

  // The writers: acknowledged ones, the front one, waiting ones.
  ghost predicate QueueOk<O>(s: State<O>) {
    && |s.phases| == |s.requests| && s.popped <= |s.phases|
    && (forall i :: 0 <= i < s.popped ==> s.phases[i].Acked?)
    && (forall i :: s.popped < i < |s.phases| ==> s.phases[i].Waiting?)
    && !Front(s).Acked?
  }

  // The record holds the group of writers from <= i < to, whose sync writers its first one speaks for.
  ghost predicate RecordOk<O>(requests: seq<Request<O>>, r: Record<O>) {
    && r.first >= 1 && r.from < r.to <= |requests|
    && r.ops == OpsOf(requests[r.from..], r.to - r.from)
    && (forall j :: r.from <= j < r.to && requests[j].sync ==> requests[r.from].sync)
  }

  // The front writer has appended its record and not yet published its sequence numbers.
  ghost predicate Pending<O>(p: Phase<O>) {
    p.Syncing? || p.Applying? || (p.Ending? && (p.syncError || p.record.Some?))
  }

  ghost predicate LogOk<O>(s: State<O>) {
    && |s.durable| == |s.log| && s.logBase <= |s.log|
    && (forall i :: 0 <= i < |s.log| ==> RecordOk(s.requests, s.log[i]))
    && (forall i, j :: 0 <= i < j < |s.log| ==>
          s.log[i].first + |s.log[i].ops| <= s.log[j].first && s.log[i].to <= s.log[j].from)
    && (forall i :: 0 <= i < |s.log| - (if Pending(Front(s)) then 1 else 0) ==>
          s.log[i].to <= s.popped && s.log[i].first + |s.log[i].ops| <= s.lastSequence + 1)
    && (Pending(Front(s)) ==> s.logBase < |s.log|)
  }

  // The front writer's group.
  ghost predicate GroupOk<O>(s: State<O>, n: nat, base: nat, ops: seq<O>) {
    && s.popped < |s.requests| && 1 <= n <= |s.requests| - s.popped && base == s.lastSequence
    && s.requests[s.popped].batch.Some?
    && RecordOk(s.requests, Record(base + 1, ops, s.popped, s.popped + n))
  }

  ghost predicate Owns<O>(s: State<O>, n: nat, base: nat, ops: seq<O>) {
    && GroupOk(s, n, base, ops) && |s.log| > 0
    && s.log[|s.log| - 1] == Record(base + 1, ops, s.popped, s.popped + n)
  }

  ghost predicate FrontOk<O>(s: State<O>) {
    match Front(s)
    case Waiting => true
    case Making => true
    case Acked(_, _) => false
    case Logging(n, base, ops) => !s.lost && GroupOk(s, n, base, ops)
    case Syncing(n, base, ops) => !s.lost && Owns(s, n, base, ops) && s.requests[s.popped].sync
    case Applying(n, base, ops, k) =>
      && !s.lost && Owns(s, n, base, ops) && k <= |ops|
      && |s.durable| == |s.log| && (s.requests[s.popped].sync ==> s.durable[|s.log| - 1])
    case Ending(n, last, ok, syncError, record) =>
      && 1 <= n <= |s.requests| - s.popped && last >= s.lastSequence
      && (syncError ==> s.lost && !ok && record.None?)
      && (Pending(Front(s)) ==>
            && |s.log| > 0 && s.log[|s.log| - 1].from == s.popped && s.log[|s.log| - 1].to == s.popped + n
            && s.log[|s.log| - 1].first == s.lastSequence + 1
            && s.log[|s.log| - 1].first + |s.log[|s.log| - 1].ops| == last + 1)
      && (record.Some? ==>
            && ok && !s.lost && |s.durable| == |s.log| && record.value == |s.log| - 1
            && (s.requests[s.popped].sync ==> s.durable[|s.log| - 1]))
      && (record.None? && ok ==> n == 1 && s.requests[s.popped].batch.None?)
  }

  // What the memtables hold: the records, each inserted once and in order.
  ghost predicate MemOk<O>(s: State<O>) {
    && (s.lost ==> |s.log| > 0 && s.mem == Flatten(s.log[..|s.log| - 1])
                   && (s.bgError || (Front(s).Ending? && Front(s).syncError)))
    && (!s.lost ==> match Front(s)
                    case Syncing(_, _, _) => |s.log| > 0 && s.mem == Flatten(s.log[..|s.log| - 1])
                    case Applying(_, base, ops, k) =>
                      |s.log| > 0 && k <= |ops| && s.mem == Flatten(s.log[..|s.log| - 1]) + Numbered(base + 1, ops[..k])
                    case _ => s.mem == Flatten(s.log))
  }

  // The promise behind an OK: the batch is in a record that is applied, and durable if asked.
  ghost predicate AckOk<O>(s: State<O>, i: nat)
    requires i < |s.requests| && i < |s.phases|
  {
    s.phases[i].Acked? && s.phases[i].ok ==>
      match s.phases[i].record
      case None => s.requests[i].batch.None?
      case Some(r) =>
        && r < |s.log| && r < |s.durable| && s.log[r].from <= i < s.log[r].to
        && (s.requests[i].sync ==> s.durable[r])
        && !(s.lost && r == |s.log| - 1)
  }

  ghost predicate SnapshotsOk<O>(s: State<O>) {
    && (forall v :: v in s.snapshots ==> v <= s.lastSequence)
    && (forall v, i :: v in s.snapshots && 0 <= i < |s.log| ==>
          v < s.log[i].first || v + 1 >= s.log[i].first + |s.log[i].ops|)
  }

  ghost predicate Inv<O>(s: State<O>) {
    && QueueOk(s) && LogOk(s) && FrontOk(s) && MemOk(s) && SnapshotsOk(s)
    && forall i :: 0 <= i < s.popped ==> AckOk(s, i)
  }

  lemma SetFrontQueue<O>(s: State<O>, t: State<O>, p: Phase<O>)
    requires QueueOk(s) && s.popped < |s.phases| && !p.Acked?
    requires t.phases == SetFront(s, p) && t.requests == s.requests && t.popped == s.popped
    ensures QueueOk(t) && Front(t) == p
    ensures forall i :: 0 <= i < s.popped ==> t.phases[i] == s.phases[i]
  {
  }

  // Acknowledgements stand while records and syncs are only added.
  lemma AcksKept<O>(s: State<O>, t: State<O>)
    requires QueueOk(s) && QueueOk(t) && t.popped == s.popped && s.requests <= t.requests && s.log <= t.log
    requires |s.durable| == |s.log| && |t.durable| == |t.log|
    requires forall r :: 0 <= r < |s.durable| && s.durable[r] ==> t.durable[r]
    requires forall i :: 0 <= i < s.popped ==> t.phases[i] == s.phases[i] && AckOk(s, i)
    requires forall r :: 0 <= r < |s.log| && t.lost && r == |t.log| - 1 ==>
               (s.lost && r == |s.log| - 1) || s.log[r].from >= s.popped
    ensures forall i :: 0 <= i < t.popped ==> AckOk(t, i)
  {
    forall i | 0 <= i < t.popped ensures AckOk(t, i) {
      assert AckOk(s, i);
    }
  }

  lemma LogKept<O>(s: State<O>, t: State<O>)
    requires LogOk(s) && SnapshotsOk(s) && Pending(Front(t)) == Pending(Front(s))
    requires t.requests == s.requests && t.log == s.log && |t.durable| == |s.durable| && t.popped == s.popped
    requires t.lastSequence == s.lastSequence && t.snapshots == s.snapshots
    requires s.logBase <= t.logBase <= |t.log| && (Pending(Front(t)) ==> t.logBase < |t.log|)
    ensures LogOk(t) && SnapshotsOk(t)
  {
  }

  lemma MemKept<O>(s: State<O>, t: State<O>)
    requires MemOk(s) && Front(t) == Front(s)
    requires t.log == s.log && t.mem == s.mem && t.lost == s.lost && (s.bgError ==> t.bgError)
    ensures MemOk(t)
  {
  }

  lemma FrontKept<O>(s: State<O>, t: State<O>)
    requires FrontOk(s) && Front(t) == Front(s)
    requires t.requests == s.requests && t.popped == s.popped && t.log == s.log && t.durable == s.durable
    requires t.lastSequence == s.lastSequence && t.lost == s.lost
    ensures FrontOk(t)
  {
  }

  // A step that only moves the front writer between phases of the same log.
  lemma PhaseStep<O>(s: State<O>, t: State<O>, p: Phase<O>)
    requires Inv(s) && s.popped < |s.phases| && !p.Acked? && Pending(p) == Pending(Front(s))
    requires t == s.(phases := SetFront(s, p), lost := t.lost, mem := t.mem)
    requires t.lost ==> s.lost || Pending(p)
    ensures QueueOk(t) && Front(t) == p && LogOk(t) && SnapshotsOk(t)
    ensures FrontOk(s) ==> forall i :: 0 <= i < t.popped ==> AckOk(t, i)
  {
    SetFrontQueue(s, t, p);
    if FrontOk(s) {
      AcksKept(s, t);
    }
  }

  lemma LeadKeeps<O>(s: State<O>, step: Step<O>, t: State<O>)
    requires Inv(s) && Next(s, step, t) && step.Lead?
    ensures Inv(t)
  {
    PhaseStep(s, t, Making);
  }

  lemma RoomFailedKeeps<O>(s: State<O>, step: Step<O>, t: State<O>)
    requires Inv(s) && Next(s, step, t) && step.RoomFailed?
    ensures Inv(t)
  {
    PhaseStep(s, t, Ending(1, s.lastSequence, false, false, None));
  }

  lemma AppendFailsKeeps<O>(s: State<O>, step: Step<O>, t: State<O>)
    requires Inv(s) && Next(s, step, t) && step.AppendFails?
    ensures Inv(t)
  {
    hide RecordOk, AckOk, IsGroup, OpsOf, Flatten, Numbered;
    PhaseStep(s, t, Ending(Front(s).n, Front(s).base + |Front(s).ops|, false, false, None));
  }

  lemma GroupSyncs<O>(s: State<O>, n: nat)
    requires QueueOk(s) && s.popped < |s.requests| && s.requests[s.popped].batch.Some?
    requires IsGroup(s.requests[s.popped..], n)
    ensures GroupOk(s, n, s.lastSequence, OpsOf(s.requests[s.popped..], n))
  {
    var ws := s.requests[s.popped..];
    forall j | s.popped <= j < s.popped + n && s.requests[j].sync ensures s.requests[s.popped].sync {
      if j > s.popped {
        assert MayJoin(ws, j - s.popped);
      }
    }
  }

  lemma RoomMadeKeeps<O>(s: State<O>, step: Step<O>, t: State<O>)
    requires Inv(s) && Next(s, step, t) && step.RoomMade?
    ensures Inv(t)
  {
    hide RecordOk, AckOk, IsGroup, OpsOf, Flatten, Numbered;
    if s.requests[s.popped].batch.None? {
      PhaseStep(s, t, Ending(1, s.lastSequence, true, false, None));
    } else {
      GroupSyncs(s, step.n);
      PhaseStep(s, t, Logging(step.n, s.lastSequence, OpsOf(s.requests[s.popped..], step.n)));
    }
  }

  lemma SyncFailsKeeps<O>(s: State<O>, step: Step<O>, t: State<O>)
    requires Inv(s) && Next(s, step, t) && step.SyncFails?
    ensures Inv(t)
  {
    hide RecordOk, AckOk, IsGroup, OpsOf, Flatten, Numbered;
    PhaseStep(s, t, Ending(Front(s).n, Front(s).base + |Front(s).ops|, false, true, None));
  }

  lemma InsertMem<O>(s: State<O>, t: State<O>, n: nat, base: nat, ops: seq<O>, k: nat)
    requires MemOk(s) && !s.lost && Front(s) == Applying(n, base, ops, k) && k < |ops|
    requires t.log == s.log && !t.lost && Front(t) == Applying(n, base, ops, k + 1)
    requires t.mem == s.mem + [(base + 1 + k, ops[k])]
    ensures MemOk(t)
  {
    NumberedNext(base + 1, ops, k);
    var done := Flatten(s.log[..|s.log| - 1]);
    var x := [(base + 1 + k, ops[k])];
    assert (done + Numbered(base + 1, ops[..k])) + x == done + (Numbered(base + 1, ops[..k]) + x);
  }

  lemma InsertFront<O>(s: State<O>, t: State<O>)
    requires FrontOk(s) && Front(s).Applying? && Front(s).k < |Front(s).ops|
    requires Front(t) == Applying(Front(s).n, Front(s).base, Front(s).ops, Front(s).k + 1)
    requires t == s.(phases := t.phases, mem := t.mem)
    ensures FrontOk(t)
  {
  }

  lemma InsertKeeps<O>(s: State<O>, step: Step<O>, t: State<O>)
    requires Inv(s) && Next(s, step, t) && step.Insert?
    ensures Inv(t)
  {
    hide SnapshotsOk, LogOk, RecordOk, AckOk, OpsOf, Flatten, Numbered, MemOk;
    var w := Front(s);
    PhaseStep(s, t, Applying(w.n, w.base, w.ops, w.k + 1));
    InsertFront(s, t);
    InsertMem(s, t, w.n, w.base, w.ops, w.k);
  }

  lemma InsertedKeeps<O>(s: State<O>, step: Step<O>, t: State<O>)
    requires Inv(s) && Next(s, step, t) && step.Inserted?
    ensures Inv(t)
  {
    hide SnapshotsOk, RecordOk, AckOk, OpsOf, Numbered;
    var w := Front(s);
    PhaseStep(s, t, Ending(w.n, w.base + |w.ops|, true, false, Some(|s.log| - 1)));
    assert w.ops[..w.k] == w.ops;
  }

  lemma NumberedNext<O>(first: nat, ops: seq<O>, k: nat)
    requires k < |ops|
    ensures Numbered(first, ops[..k + 1]) == Numbered(first, ops[..k]) + [(first + k, ops[k])]
  {
  }

  lemma AppendLog<O>(s: State<O>, t: State<O>, r: Record<O>)
    requires LogOk(s) && SnapshotsOk(s) && QueueOk(s) && !Pending(Front(s)) && RecordOk(s.requests, r)
    requires r.first == s.lastSequence + 1 && r.from == s.popped
    requires t.log == s.log + [r] && t.durable == s.durable + [false] && t.logBase == s.logBase && Pending(Front(t))
    requires t.requests == s.requests && t.popped == s.popped && t.lastSequence == s.lastSequence && t.snapshots == s.snapshots
    ensures LogOk(t) && SnapshotsOk(t)
  {
  }

  lemma AppendMem<O>(s: State<O>, t: State<O>, r: Record<O>)
    requires MemOk(s) && !s.lost && Front(s).Logging? && t.log == s.log + [r] && t.mem == s.mem && !t.lost
    requires Front(t).Syncing? || (Front(t).Applying? && Front(t).k == 0)
    ensures MemOk(t)
  {
    assert t.log[..|t.log| - 1] == s.log;
    if Front(t).Applying? {
      assert s.mem + Numbered(Front(t).base + 1, Front(t).ops[..0]) == s.mem;
    }
  }

  lemma AppendFront<O>(s: State<O>, t: State<O>, w: Phase<O>, p: Phase<O>)
    requires FrontOk(s) && w == Front(s) && w.Logging? && Front(t) == p
    requires p == if s.requests[s.popped].sync then Syncing(w.n, w.base, w.ops) else Applying(w.n, w.base, w.ops, 0)
    requires t == s.(log := s.log + [Record(w.base + 1, w.ops, s.popped, s.popped + w.n)], durable := s.durable + [false], phases := t.phases)
    requires |s.durable| == |s.log|
    ensures FrontOk(t)
  {
  }

  lemma AppendKeeps<O>(s: State<O>, step: Step<O>, t: State<O>)
    requires Inv(s) && Next(s, step, t) && step.Append?
    ensures Inv(t)
  {
    hide SnapshotsOk, MemOk, RecordOk, AckOk, OpsOf, Flatten, Numbered;
    var w := Front(s);
    var p := if s.requests[s.popped].sync then Syncing(w.n, w.base, w.ops) else Applying(w.n, w.base, w.ops, 0);
    SetFrontQueue(s, t, p);
    AppendFront(s, t, w, p);
    hide FrontOk;
    AcksKept(s, t);
    AppendLog(s, t, Record(w.base + 1, w.ops, s.popped, s.popped + w.n));
    AppendMem(s, t, Record(w.base + 1, w.ops, s.popped, s.popped + w.n));
  }

  lemma NumberedNone<O>(first: nat, ops: seq<O>)
    ensures Numbered(first, ops[..0]) == []
  {
  }

  lemma SyncKeeps<O>(s: State<O>, step: Step<O>, t: State<O>)
    requires Inv(s) && Next(s, step, t) && step.Sync?
    ensures Inv(t)
  {
    hide RecordOk, AckOk, OpsOf, Flatten, Numbered;
    var w := Front(s);
    SetFrontQueue(s, t, Applying(w.n, w.base, w.ops, 0));
    AcksKept(s, t);
    LogKept(s, t);
    NumberedNone(w.base + 1, w.ops);
    assert s.mem + [] == s.mem;
  }

  lemma FinishQueue<O>(s: State<O>, t: State<O>, n: nat, p: Phase<O>)
    requires QueueOk(s) && p.Acked? && 1 <= n <= |s.requests| - s.popped
    requires t.requests == s.requests && t.phases == AckGroup(s, n, p) && t.popped == s.popped + n
    ensures QueueOk(t) && Front(t).Waiting?
    ensures forall i :: 0 <= i < s.popped ==> t.phases[i] == s.phases[i]
    ensures forall i :: s.popped <= i < t.popped ==> t.phases[i] == p
  {
  }

  lemma FinishLog<O>(s: State<O>, t: State<O>)
    requires LogOk(s) && SnapshotsOk(s) && FrontOk(s) && Front(s).Ending? && Front(t).Waiting?
    requires t.requests == s.requests && t.log == s.log && t.durable == s.durable && t.logBase == s.logBase
    requires t.popped == s.popped + Front(s).n && t.lastSequence == Front(s).last && t.snapshots == s.snapshots
    ensures LogOk(t) && SnapshotsOk(t)
  {
    hide RecordOk, OpsOf;
  }

  lemma FinishAcks<O>(s: State<O>, t: State<O>, i: nat)
    requires QueueOk(s) && QueueOk(t) && LogOk(s) && FrontOk(s) && Front(s).Ending? && i < t.popped
    requires t.requests == s.requests && t.log == s.log && t.durable == s.durable && t.lost == s.lost
    requires t.popped == s.popped + Front(s).n
    requires i < s.popped ==> t.phases[i] == s.phases[i] && AckOk(s, i)
    requires s.popped <= i ==> t.phases[i] == Acked(Front(s).ok, Front(s).record)
    ensures AckOk(t, i)
  {
    var w := Front(s);
    if s.popped <= i && w.record.Some? {
      assert RecordOk(s.requests, s.log[w.record.value]);
    }
  }

  lemma FinishKeeps<O>(s: State<O>, step: Step<O>, t: State<O>)
    requires Inv(s) && Next(s, step, t) && step.Finish?
    ensures Inv(t)
  {
    var w := Front(s);
    FinishQueue(s, t, w.n, Acked(w.ok, w.record));
    FinishLog(s, t);
    forall i | 0 <= i < t.popped ensures AckOk(t, i) {
      FinishAcks(s, t, i);
    }
  }

  lemma BackgroundKeeps<O>(s: State<O>, step: Step<O>, t: State<O>)
    requires Inv(s) && Next(s, step, t) && (step.SwitchMemTable? || step.FlushImm? || step.BackgroundError?)
    ensures Inv(t)
  {
    assert Front(t) == Front(s) && QueueOk(t);
    AcksKept(s, t);
    LogKept(s, t);
    MemKept(s, t);
    FrontKept(s, t);
  }

  // A read at the last published sequence number splits no group.
  lemma LatestSplitsNothing<O>(s: State<O>, i: nat)
    requires LogOk(s) && FrontOk(s) && i < |s.log|
    ensures s.lastSequence < s.log[i].first || s.lastSequence + 1 >= s.log[i].first + |s.log[i].ops|
  {
  }

  lemma ReadLog<O>(s: State<O>, t: State<O>)
    requires LogOk(s) && FrontOk(s) && SnapshotsOk(s) && Front(t) == Front(s)
    requires t == s.(snapshots := s.snapshots + {s.lastSequence})
    ensures LogOk(t) && SnapshotsOk(t)
  {
    hide RecordOk, FrontOk;
    forall i | 0 <= i < |t.log|
      ensures s.lastSequence < t.log[i].first || s.lastSequence + 1 >= t.log[i].first + |t.log[i].ops|
    {
      LatestSplitsNothing(s, i);
    }
  }

  lemma ReadKeeps<O>(s: State<O>, step: Step<O>, t: State<O>)
    requires Inv(s) && Next(s, step, t) && step.ReadLatest?
    ensures Inv(t)
  {
    assert Front(t) == Front(s) && QueueOk(t);
    AcksKept(s, t);
    ReadLog(s, t);
    MemKept(s, t);
    FrontKept(s, t);
  }

  lemma {:induction false} OpsOfPrefix<O>(ws: seq<Request<O>>, more: seq<Request<O>>, n: nat)
    requires n <= |ws| && ws <= more
    ensures OpsOf(ws, n) == OpsOf(more, n)
  {
    if n > 0 {
      OpsOfPrefix(ws, more, n - 1);
    }
  }

  lemma RecordKept<O>(requests: seq<Request<O>>, more: seq<Request<O>>, r: Record<O>)
    requires RecordOk(requests, r) && requests <= more
    ensures RecordOk(more, r)
  {
    OpsOfPrefix(requests[r.from..], more[r.from..], r.to - r.from);
  }

  lemma EnqueueQueue<O>(s: State<O>, t: State<O>)
    requires QueueOk(s) && t.popped == s.popped && |t.requests| == |s.requests| + 1 && t.phases == s.phases + [Waiting]
    ensures QueueOk(t) && Front(t) == Front(s)
    ensures forall i :: 0 <= i < s.popped ==> t.phases[i] == s.phases[i]
  {
  }

  lemma EnqueueLog<O>(s: State<O>, t: State<O>)
    requires LogOk(s) && SnapshotsOk(s) && Front(t) == Front(s)
    requires s.requests <= t.requests && t == s.(requests := t.requests, phases := t.phases)
    ensures LogOk(t) && SnapshotsOk(t)
  {
    forall i | 0 <= i < |s.log| ensures RecordOk(t.requests, t.log[i]) {
      RecordKept(s.requests, t.requests, s.log[i]);
    }
  }

  lemma EnqueueFront<O>(s: State<O>, t: State<O>)
    requires FrontOk(s) && Front(t) == Front(s)
    requires s.requests <= t.requests && t == s.(requests := t.requests, phases := t.phases)
    ensures FrontOk(t)
  {
    var w := Front(s);
    if w.Logging? || w.Syncing? || w.Applying? {
      RecordKept(s.requests, t.requests, Record(w.base + 1, w.ops, s.popped, s.popped + w.n));
    }
  }

  lemma EnqueueKeeps<O>(s: State<O>, step: Step<O>, t: State<O>)
    requires Inv(s) && Next(s, step, t) && step.Enqueue?
    ensures Inv(t)
  {
    EnqueueQueue(s, t);
    AcksKept(s, t);
    EnqueueLog(s, t);
    MemKept(s, t);
    EnqueueFront(s, t);
  }

  lemma StepKeeps<O>(s: State<O>, step: Step<O>, t: State<O>)
    requires Inv(s) && Next(s, step, t)
    ensures Inv(t)
    ensures s.mem <= t.mem && s.log <= t.log && s.lastSequence <= t.lastSequence
  {
    match step
    case Enqueue(_) => EnqueueKeeps(s, step, t);
    case Lead => LeadKeeps(s, step, t);
    case SwitchMemTable => BackgroundKeeps(s, step, t);
    case RoomFailed => RoomFailedKeeps(s, step, t);
    case RoomMade(_) => RoomMadeKeeps(s, step, t);
    case Append => AppendKeeps(s, step, t);
    case AppendFails => AppendFailsKeeps(s, step, t);
    case Sync => SyncKeeps(s, step, t);
    case SyncFails => SyncFailsKeeps(s, step, t);
    case Insert => InsertKeeps(s, step, t);
    case Inserted => InsertedKeeps(s, step, t);
    case Finish => FinishKeeps(s, step, t);
    case FlushImm => BackgroundKeeps(s, step, t);
    case BackgroundError => BackgroundKeeps(s, step, t);
    case ReadLatest => ReadKeeps(s, step, t);
  }

  ghost predicate IsRun<O>(run: seq<State<O>>, steps: seq<Step<O>>) {
    && |run| == |steps| + 1 && Init(run[0])
    && forall i :: 0 <= i < |steps| ==> Next(run[i], steps[i], run[i + 1])
  }

  lemma {:induction false} RunInv<O>(run: seq<State<O>>, steps: seq<Step<O>>, i: nat)
    requires IsRun(run, steps) && i < |run|
    ensures Inv(run[i])
  {
    if i > 0 {
      RunInv(run, steps, i - 1);
      StepKeeps(run[i - 1], steps[i - 1], run[i]);
    }
  }

  // At most one writer is past its wait loop and not yet back, and it is the front one.
  lemma OnlyTheFrontWorks<O>(run: seq<State<O>>, steps: seq<Step<O>>, i: nat, w: nat)
    requires IsRun(run, steps) && i < |run| && w < |run[i].phases|
    requires !run[i].phases[w].Waiting? && !run[i].phases[w].Acked?
    ensures w == run[i].popped
  {
    RunInv(run, steps, i);
  }

  lemma {:induction false} FlattenHas<O>(log: seq<Record<O>>, r: nat, k: nat)
    requires r < |log| && k < |log[r].ops|
    ensures (log[r].first + k, log[r].ops[k]) in Flatten(log)
  {
    var last := |log| - 1;
    if r < last {
      FlattenHas(log[..last], r, k);
    } else {
      assert Numbered(log[r].first, log[r].ops)[k] == (log[r].first + k, log[r].ops[k]);
    }
  }

  ghost predicate Ascending<O>(m: seq<(nat, O)>) {
    forall i, j :: 0 <= i < j < |m| ==> m[i].0 < m[j].0
  }

  ghost predicate LogAscends<O>(log: seq<Record<O>>) {
    forall i, j :: 0 <= i < j < |log| ==> log[i].first + |log[i].ops| <= log[j].first
  }

  // Every inserted number belongs to a record.
  ghost predicate InLog<O>(log: seq<Record<O>>, n: nat) {
    exists r :: 0 <= r < |log| && log[r].first <= n < log[r].first + |log[r].ops|
  }

  lemma {:induction false} FlattenInLog<O>(log: seq<Record<O>>, e: (nat, O))
    requires e in Flatten(log)
    ensures InLog(log, e.0)
  {
    var last := |log| - 1;
    if e in Flatten(log[..last]) {
      FlattenInLog(log[..last], e);
      var r :| 0 <= r < |log[..last]| && log[..last][r].first <= e.0 < log[..last][r].first + |log[..last][r].ops|;
      assert log[r].first <= e.0 < log[r].first + |log[r].ops|;
    } else {
      assert log[last].first <= e.0 < log[last].first + |log[last].ops|;
    }
  }

  lemma {:induction false} FlattenAscends<O>(log: seq<Record<O>>)
    requires LogAscends(log)
    ensures Ascending(Flatten(log))
  {
    if |log| > 0 {
      var last := |log| - 1;
      FlattenAscends(log[..last]);
      forall e | e in Flatten(log[..last]) ensures e.0 < log[last].first {
        FlattenInLog(log[..last], e);
      }
    }
  }

  // The batch of writer i sits in its group's operations right after those of the writers before it.
  lemma {:induction false} BatchInGroup<O>(ws: seq<Request<O>>, i: nat, n: nat)
    requires i < n <= |ws| && ws[i].batch.Some?
    ensures |OpsOf(ws, i)| + |ws[i].batch.value| <= |OpsOf(ws, n)|
    ensures OpsOf(ws, n)[|OpsOf(ws, i)|..|OpsOf(ws, i)| + |ws[i].batch.value|] == ws[i].batch.value
    decreases n
  {
    if i < n - 1 {
      BatchInGroup(ws, i, n - 1);
    }
  }

  ghost predicate InMem<O>(s: State<O>, first: nat, ops: seq<O>) {
    forall k :: 0 <= k < |ops| ==> (first + k, ops[k]) in s.mem
  }

  // The memtables lag behind the log by at most the last record.
  lemma MemBounds<O>(s: State<O>)
    requires MemOk(s) && FrontOk(s)
    ensures |s.log| > 0 ==> Flatten(s.log[..|s.log| - 1]) <= s.mem
    ensures s.mem <= Flatten(s.log)
    ensures !s.lost && !Front(s).Syncing? && !Front(s).Applying? ==> s.mem == Flatten(s.log)
  {
    if !s.lost && Front(s).Applying? {
      var w := Front(s);
      NumberedPrefix(w.base + 1, w.ops, w.k);
    }
  }

  lemma NumberedPrefix<O>(first: nat, ops: seq<O>, k: nat)
    requires k <= |ops|
    ensures Numbered(first, ops[..k]) <= Numbered(first, ops)
  {
  }

  // A record that is neither pending nor lost is in the memtables, all of it.
  lemma AppliedRecord<O>(s: State<O>, r: nat)
    requires MemOk(s) && FrontOk(s) && r < |s.log|
    requires r < |s.log| - 1 || (!s.lost && !Front(s).Syncing? && !Front(s).Applying?)
    ensures InMem(s, s.log[r].first, s.log[r].ops)
  {
    MemBounds(s);
    var applied := if r < |s.log| - 1 then s.log[..|s.log| - 1] else s.log;
    forall k | 0 <= k < |s.log[r].ops| ensures (s.log[r].first + k, s.log[r].ops[k]) in s.mem {
      FlattenHas(applied, r, k);
    }
  }

  // A batch acknowledged OK is in the log in one record, durably if it asked for a sync, and in
  // the memtables under consecutive sequence numbers.
  lemma AcknowledgedBatch<O>(run: seq<State<O>>, steps: seq<Step<O>>, i: nat, w: nat) returns (r: nat, first: nat)
    requires IsRun(run, steps) && i < |run| && w < |run[i].phases| && w < |run[i].requests|
    requires run[i].phases[w].Acked? && run[i].phases[w].ok && run[i].requests[w].batch.Some?
    ensures var s := run[i];
      && r < |s.log| && r < |s.durable| && s.log[r].from <= w < s.log[r].to
      && (forall q :: 0 <= q < |s.log| && s.log[q].from <= w < s.log[q].to ==> q == r)
      && (s.requests[w].sync ==> s.durable[r])
      && InMem(s, first, s.requests[w].batch.value)
      && s.log[r].first <= first && first + |s.requests[w].batch.value| <= s.log[r].first + |s.log[r].ops|
      && s.log[r].ops[first - s.log[r].first..first - s.log[r].first + |s.requests[w].batch.value|] == s.requests[w].batch.value
  {
    hide MemOk, SnapshotsOk, Flatten, Numbered, OpsOf, IsRun;
    RunInv(run, steps, i);
    var s := run[i];
    assert AckOk(s, w);
    r := s.phases[w].record.value;
    var ws := s.requests[s.log[r].from..];
    var batch := s.requests[w].batch.value;
    BatchInGroup(ws, w - s.log[r].from, s.log[r].to - s.log[r].from);
    var off := |OpsOf(ws, w - s.log[r].from)|;
    first := s.log[r].first + off;
    assert s.log[r].to <= s.popped || r == |s.log| - 1;
    assert r < |s.log| - 1 || (!s.lost && !Pending(Front(s)));
    AppliedRecord(s, r);
    forall k | 0 <= k < |batch| ensures (first + k, batch[k]) in s.mem {
      assert s.log[r].ops[off..off + |batch|][k] == s.log[r].ops[off + k];
    }
  }

  // Each operation is inserted once: sequence numbers only go up.
  lemma NoNumberIsReused<O>(run: seq<State<O>>, steps: seq<Step<O>>, i: nat)
    requires IsRun(run, steps) && i < |run|
    ensures Ascending(run[i].mem)
    ensures LogAscends(run[i].log)
  {
    RunInv(run, steps, i);
    var s := run[i];
    MemBounds(s);
    FlattenAscends(s.log);
  }

  // Records hold whole runs of batches, in the order the writers queued, no batch in two of
  // them; the memtables take their operations in that order, the last record's perhaps only in part.
  lemma LoggedInQueueOrder<O>(run: seq<State<O>>, steps: seq<Step<O>>, i: nat)
    requires IsRun(run, steps) && i < |run|
    ensures var s := run[i];
      && (forall r :: 0 <= r < |s.log| ==> RecordOk(s.requests, s.log[r]))
      && (forall q, r :: 0 <= q < r < |s.log| ==> s.log[q].to <= s.log[r].from)
      && s.mem <= Flatten(s.log)
      && (|s.log| > 0 ==> Flatten(s.log[..|s.log| - 1]) <= s.mem)
  {
    RunInv(run, steps, i);
    MemBounds(run[i]);
  }

  // A reader at any sequence number ever handed out sees all or none of a record's operations.
  lemma SnapshotsAreAtomic<O>(run: seq<State<O>>, steps: seq<Step<O>>, i: nat, v: nat, r: nat)
    requires IsRun(run, steps) && i < |run| && v in run[i].snapshots && r < |run[i].log|
    ensures var s := run[i];
      || (v + 1 >= s.log[r].first + |s.log[r].ops| && InMem(s, s.log[r].first, s.log[r].ops))
      || (forall e :: e in s.mem && e.0 <= v ==> !(s.log[r].first <= e.0 < s.log[r].first + |s.log[r].ops|))
  {
    RunInv(run, steps, i);
    var s := run[i];
    if s.log[r].first <= v {
      if r < |s.log| - 1 || !s.lost {
        if r == |s.log| - 1 && |s.log[r].ops| > 0 {
          assert !Pending(Front(s));
        }
        AppliedRecord(s, r);
      } else {
        forall e | e in s.mem && e.0 <= v
          ensures !(s.log[r].first <= e.0 < s.log[r].first + |s.log[r].ops|)
        {
          FlattenInLog(s.log[..r], e);
        }
      }
    }
  }

  // ---- Runs in which every append and sync succeeds ----

  ghost predicate Succeeds<O>(steps: seq<Step<O>>) {
    forall i :: 0 <= i < |steps| ==> !steps[i].AppendFails? && !steps[i].SyncFails?
  }

  function NextNumber<O>(log: seq<Record<O>>): nat {
    if |log| == 0 then 1 else log[|log| - 1].first + |log[|log| - 1].ops|
  }

  // Record by record the numbers run on from 1, and LastSequence is the last one published.
  ghost predicate Contiguous<O>(s: State<O>) {
    && (forall i :: 0 <= i < |s.log| ==> s.log[i].first == NextNumber(s.log[..i]))
    && (if Pending(Front(s)) then |s.log| > 0 && s.log[|s.log| - 1].first == s.lastSequence + 1
        else NextNumber(s.log) == s.lastSequence + 1)
    && (Front(s).Ending? && !Pending(Front(s)) ==> Front(s).last == s.lastSequence)
    && !s.lost
  }

  lemma ContiguousAppend<O>(s: State<O>, step: Step<O>, t: State<O>)
    requires FrontOk(s) && Contiguous(s) && Next(s, step, t) && step.Append?
    ensures Contiguous(t)
  {
    hide RecordOk, OpsOf, IsGroup;
    assert Pending(Front(t)) && !t.lost && t.log[|s.log|].first == s.lastSequence + 1 == NextNumber(s.log);
    assert t.log[..|s.log|] == s.log;
    forall i | 0 <= i < |t.log| ensures t.log[i].first == NextNumber(t.log[..i]) {
      assert i < |s.log| ==> t.log[..i] == s.log[..i];
    }
  }

  lemma ContiguousFinish<O>(s: State<O>, step: Step<O>, t: State<O>)
    requires QueueOk(s) && FrontOk(s) && Contiguous(s) && Next(s, step, t) && step.Finish?
    ensures Contiguous(t)
  {
    hide RecordOk, OpsOf, IsGroup;
    assert !Front(t).Ending? && !Pending(Front(t));
  }

  lemma ContiguousKept<O>(s: State<O>, step: Step<O>, t: State<O>)
    requires QueueOk(s) && FrontOk(s) && Contiguous(s) && QueueOk(t)
    requires Next(s, step, t) && !step.AppendFails? && !step.SyncFails?
    ensures Contiguous(t)
  {
    hide RecordOk, OpsOf, IsGroup, NextNumber;
    if step.Append? {
      ContiguousAppend(s, step, t);
    } else if step.Finish? {
      ContiguousFinish(s, step, t);
    } else {
      assert t.log == s.log && t.lastSequence == s.lastSequence && t.lost == s.lost;
      assert Pending(Front(t)) == Pending(Front(s));
      assert Front(t) == Front(s) || !Front(t).Ending? || Pending(Front(t)) || Front(t).last == s.lastSequence;
    }
  }

  lemma {:induction false} RunContiguous<O>(run: seq<State<O>>, steps: seq<Step<O>>, i: nat)
    requires IsRun(run, steps) && Succeeds(steps) && i < |run|
    ensures Contiguous(run[i])
  {
    if i > 0 {
      RunInv(run, steps, i - 1);
      RunInv(run, steps, i);
      RunContiguous(run, steps, i - 1);
      ContiguousKept(run[i - 1], steps[i - 1], run[i]);
    }
  }
}
