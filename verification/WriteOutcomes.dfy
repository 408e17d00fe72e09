// db/db_impl.cpp Write: what its callers are told, and what a group may hold.
module WriteOutcomes {
  import opened Options
  import opened GroupCommit

  // ---- Who is told of a failure ----

  predicate Fails<O>(step: Step<O>) {
    step.RoomFailed? || step.AppendFails? || step.SyncFails?
  }

  // How many writers the front one speaks for.
  function GroupLength<O>(s: State<O>): nat {
    match Front(s)
    case Logging(n, _, _) => n
    case Syncing(n, _, _) => n
    case Applying(n, _, _, _) => n
    case Ending(n, _, _, _, _) => n
    case _ => 1
  }

  predicate FailsFor<O>(s: State<O>, step: Step<O>, w: nat) {
    Fails(step) && s.popped <= w < s.popped + GroupLength(s)
  }

  // Writer w was told of a failure, or is about to be.
  predicate Failed<O>(s: State<O>, w: nat) {
    if w < s.popped then w < |s.phases| && s.phases[w].Acked? && !s.phases[w].ok
    else Front(s).Ending? && !Front(s).ok && w < s.popped + Front(s).n
  }

  lemma FinishTells<O>(s: State<O>, step: Step<O>, t: State<O>, w: nat)
    requires QueueOk(s) && FrontOk(s) && Next(s, step, t) && step.Finish?
    ensures Failed(t, w) <==> Failed(s, w)
  {
    hide RecordOk, OpsOf;
    FinishQueue(s, t, Front(s).n, Acked(Front(s).ok, Front(s).record));
  }

  lemma FailureTold<O>(s: State<O>, step: Step<O>, t: State<O>, w: nat)
    requires QueueOk(s) && FrontOk(s) && QueueOk(t) && Next(s, step, t)
    ensures Failed(t, w) <==> Failed(s, w) || FailsFor(s, step, w)
  {
    hide RecordOk, OpsOf, IsGroup;
    if step.Finish? {
      FinishTells(s, step, t, w);
    } else {
      assert t.popped == s.popped;
      assert forall i :: 0 <= i < s.popped ==> t.phases[i] == s.phases[i];
    }
  }

  lemma {:induction false} FailedSoFar<O>(run: seq<State<O>>, steps: seq<Step<O>>, i: nat, w: nat)
    requires IsRun(run, steps) && i < |run| == |steps| + 1
    ensures Failed(run[i], w) <==> exists j :: 0 <= j < i && FailsFor(run[j], steps[j], w)
    decreases i
  {
    hide Failed, FailsFor, LogOk, MemOk, SnapshotsOk, FrontOk, QueueOk, Next;
    if i == 0 {
      NoneFailed(run[0], w);
    } else {
      RunInv(run, steps, i - 1);
      RunInv(run, steps, i);
      FailedSoFar(run, steps, i - 1, w);
      FailureTold(run[i - 1], steps[i - 1], run[i], w);
    }
  }

  lemma NoneFailed<O>(s: State<O>, w: nat)
    requires Init(s)
    ensures !Failed(s, w)
  {
  }

  // In every run a writer that has returned was told of a failure if and only if making room, the
  // append or the sync failed for its group.
  lemma ToldExactly<O>(run: seq<State<O>>, steps: seq<Step<O>>, i: nat, w: nat)
    requires IsRun(run, steps) && i < |run| == |steps| + 1 && w < |run[i].phases| && run[i].phases[w].Acked?
    ensures !run[i].phases[w].ok <==> exists j :: 0 <= j < i && FailsFor(run[j], steps[j], w)
  {
    hide LogOk, MemOk, SnapshotsOk, FrontOk;
    FailedSoFar(run, steps, i, w);
    RunInv(run, steps, i);
  }

  // So without failures everyone is told OK.
  lemma AllOk<O>(run: seq<State<O>>, steps: seq<Step<O>>, i: nat, w: nat)
    requires IsRun(run, steps) && i < |run| == |steps| + 1 && w < |run[i].phases| && run[i].phases[w].Acked?
    requires forall j :: 0 <= j < |steps| ==> !steps[j].RoomFailed? && !steps[j].AppendFails? && !steps[j].SyncFails?
    ensures run[i].phases[w].ok
  {
    ToldExactly(run, steps, i, w);
  }

  // ---- The front writer always gets on ----

  // In every reachable state with writers in the queue the front one can take a step: making
  // room, the append and the sync may each fail,
  lemma FrontMayFail<O>(s: State<O>) returns (step: Step<O>, t: State<O>)
    requires Inv(s) && (Front(s).Making? || Front(s).Logging? || Front(s).Syncing?)
    ensures Fails(step) && Next(s, step, t)
  {
    hide RecordOk, OpsOf, LogOk, MemOk, SnapshotsOk, AckOk, IsGroup;
    match Front(s)
    case Making =>
      step, t := RoomFailed, s.(phases := SetFront(s, Ending(1, s.lastSequence, false, false, None)));
    case Logging(n, base, ops) =>
      step, t := AppendFails, s.(phases := SetFront(s, Ending(n, base + |ops|, false, false, None)));
    case Syncing(n, base, ops) =>
      step, t := SyncFails, s.(lost := true, phases := SetFront(s, Ending(n, base + |ops|, false, true, None)));
  }

  // and nothing but a background error, and that only when it makes room, keeps it from getting on.
  lemma FrontMayGoOn<O>(s: State<O>) returns (step: Step<O>, t: State<O>)
    requires Inv(s) && s.popped < |s.phases| && (Front(s).Making? ==> !s.bgError)
    ensures !Fails(step) && Next(s, step, t) && (t.popped > s.popped || Front(t) != Front(s))
  {
    hide RecordOk, OpsOf, LogOk, MemOk, SnapshotsOk, AckOk, IsGroup;
    match Front(s)
    case Waiting => step, t := Lead, s.(phases := SetFront(s, Making));
    case Making => step, t := RoomCanBeMade(s);
    case Logging(n, base, ops) => step, t := CanAppend(s);
    case Syncing(n, base, ops) => step, t := CanSync(s);
    case Applying(n, base, ops, k) => step, t := CanInsert(s);
    case Ending(n, last, ok, syncError, record) =>
      step := Finish;
      t := s.(phases := AckGroup(s, n, Acked(ok, record)), popped := s.popped + n, lastSequence := last, bgError := s.bgError || syncError);
  }

  lemma CanAppend<O>(s: State<O>) returns (step: Step<O>, t: State<O>)
    requires s.popped < |s.phases| && s.popped < |s.requests| && Front(s).Logging?
    ensures step == Append && Next(s, step, t) && Front(t) != Front(s)
  {
    var w := Front(s);
    step := Append;
    t := s.(log := s.log + [Record(w.base + 1, w.ops, s.popped, s.popped + w.n)], durable := s.durable + [false],
            phases := SetFront(s, if s.requests[s.popped].sync then Syncing(w.n, w.base, w.ops) else Applying(w.n, w.base, w.ops, 0)));
  }

  lemma CanSync<O>(s: State<O>) returns (step: Step<O>, t: State<O>)
    requires s.popped < |s.phases| && Front(s).Syncing?
    ensures step == Sync && Next(s, step, t) && Front(t) != Front(s)
  {
    var w := Front(s);
    step := Sync;
    t := s.(durable := seq(|s.durable|, i requires 0 <= i < |s.durable| => s.durable[i] || s.logBase <= i),
            phases := SetFront(s, Applying(w.n, w.base, w.ops, 0)));
  }

  lemma CanInsert<O>(s: State<O>) returns (step: Step<O>, t: State<O>)
    requires s.popped < |s.phases| && Front(s).Applying? && Front(s).k <= |Front(s).ops| && |s.log| > 0
    ensures (step == Insert || step == Inserted) && Next(s, step, t) && Front(t) != Front(s)
  {
    var w := Front(s);
    if w.k < |w.ops| {
      step := Insert;
      t := s.(mem := s.mem + [(w.base + 1 + w.k, w.ops[w.k])], phases := SetFront(s, Applying(w.n, w.base, w.ops, w.k + 1)));
    } else {
      step, t := Inserted, s.(phases := SetFront(s, Ending(w.n, w.base + |w.ops|, true, false, Some(|s.log| - 1))));
    }
  }

  lemma RoomCanBeMade<O>(s: State<O>) returns (step: Step<O>, t: State<O>)
    requires QueueOk(s) && s.popped < |s.phases| && Front(s).Making? && !s.bgError
    ensures Next(s, step, t) && step.RoomMade? && Front(t) != Front(s)
  {
    hide OpsOf;
    if s.requests[s.popped].batch.None? {
      step, t := RoomMade(1), s.(phases := SetFront(s, Ending(1, s.lastSequence, true, false, None)));
    } else {
      var n := GroupExists(s.requests[s.popped..], 1);
      step, t := RoomMade(n), s.(phases := SetFront(s, Logging(n, s.lastSequence, OpsOf(s.requests[s.popped..], n))));
    }
  }

  lemma {:induction false} GroupExists<O>(ws: seq<Request<O>>, from: nat) returns (n: nat)
    requires 1 <= from <= |ws| && forall i :: 0 < i < from ==> MayJoin(ws, i)
    ensures IsGroup(ws, n)
    decreases |ws| - from
  {
    hide MayJoin;
    if from == |ws| || !MayJoin(ws, from) {
      n := from;
    } else {
      n := GroupExists(ws, from + 1);
    }
  }

  // ---- What a reader may be handed ----

  lemma {:induction false} HandedOut<O>(run: seq<State<O>>, steps: seq<Step<O>>, j: nat, i: nat)
    requires IsRun(run, steps) && j < i < |run| == |steps| + 1 && steps[j].ReadLatest?
    ensures run[j].lastSequence in run[i].snapshots
    decreases i
  {
    hide Next;
    if j < i - 1 {
      HandedOut(run, steps, j, i - 1);
      SnapshotsStay(run[i - 1], steps[i - 1], run[i]);
    } else {
      SnapshotsStay(run[j], steps[j], run[i]);
    }
  }

  lemma SnapshotsStay<O>(s: State<O>, step: Step<O>, t: State<O>)
    requires Next(s, step, t)
    ensures s.snapshots <= t.snapshots && (step.ReadLatest? ==> s.lastSequence in t.snapshots)
  {
    hide IsGroup, OpsOf;
  }

  // The sequence number a reader takes at step j shows it, then and ever after, all or none of
  // the operations of each record.
  lemma ReadersSeeWholeRecords<O>(run: seq<State<O>>, steps: seq<Step<O>>, j: nat, i: nat, r: nat)
    requires IsRun(run, steps) && j < i < |run| == |steps| + 1 && steps[j].ReadLatest? && r < |run[i].log|
    ensures var s, v := run[i], run[j].lastSequence;
      || (v + 1 >= s.log[r].first + |s.log[r].ops| && InMem(s, s.log[r].first, s.log[r].ops))
      || (forall e :: e in s.mem && e.0 <= v ==> !(s.log[r].first <= e.0 < s.log[r].first + |s.log[r].ops|))
  {
    hide Next;
    HandedOut(run, steps, j, i);
    SnapshotsAreAtomic(run, steps, i, run[j].lastSequence, r);
  }

  // ---- After a sync has failed ----

  // The writer whose sync failed returns, and from then on there is a background error.
  ghost predicate Stuck<O>(s: State<O>) {
    && s.lost
    && match Front(s)
       case Ending(_, _, ok, syncError, _) => !ok && (syncError || s.bgError)
       case Waiting => s.bgError
       case Making => s.bgError
       case _ => false
  }

  lemma StaysStuck<O>(s: State<O>, step: Step<O>, t: State<O>)
    requires QueueOk(s) && FrontOk(s) && QueueOk(t) && Next(s, step, t) && Stuck(s)
    ensures Stuck(t) && t.log == s.log && s.popped <= t.popped
  {
    hide RecordOk, OpsOf, IsGroup;
    if step.Finish? {
      FinishQueue(s, t, Front(s).n, Acked(Front(s).ok, Front(s).record));
    }
  }

  lemma SyncFailsSticks<O>(s: State<O>, step: Step<O>, t: State<O>)
    requires QueueOk(s) && Next(s, step, t) && step.SyncFails?
    ensures Stuck(t) && t.log == s.log && t.popped == s.popped
  {
  }

  lemma {:induction false} StuckFrom<O>(run: seq<State<O>>, steps: seq<Step<O>>, j: nat, i: nat)
    requires IsRun(run, steps) && j < i < |run| == |steps| + 1 && steps[j].SyncFails?
    ensures Stuck(run[i]) && run[i].log == run[j].log && run[j].popped <= run[i].popped
    ensures i == j + 1 ==> run[i].popped == run[j].popped
    decreases i
  {
    hide Next, FrontOk, QueueOk, Stuck, LogOk, MemOk, SnapshotsOk, AckOk;
    RunInv(run, steps, i - 1);
    RunInv(run, steps, i);
    if j < i - 1 {
      StuckFrom(run, steps, j, i - 1);
      StaysStuck(run[i - 1], steps[i - 1], run[i]);
    } else {
      SyncFailsSticks(run[j], steps[j], run[i]);
    }
  }

  lemma SettledKept<O>(s: State<O>, step: Step<O>, t: State<O>, w: nat)
    requires QueueOk(s) && FrontOk(s) && QueueOk(t) && Next(s, step, t) && Stuck(s)
    ensures w < t.popped && t.phases[w].ok ==> w < s.popped && s.phases[w].ok
  {
    hide RecordOk, OpsOf, IsGroup;
    if step.Finish? {
      FinishQueue(s, t, Front(s).n, Acked(Front(s).ok, Front(s).record));
    } else {
      assert forall i :: 0 <= i < s.popped ==> t.phases[i] == s.phases[i];
    }
  }

  // Once a sync has failed nothing is logged any more, and neither its group nor any writer after
  // it is told OK.
  lemma {:induction false} NothingAfterFailedSync<O>(run: seq<State<O>>, steps: seq<Step<O>>, j: nat, i: nat, w: nat)
    requires IsRun(run, steps) && j < i < |run| == |steps| + 1 && steps[j].SyncFails?
    requires run[j].popped <= w < |run[i].phases| && run[i].phases[w].Acked?
    ensures !run[i].phases[w].ok && run[i].log == run[j].log
    decreases i
  {
    hide Next, FrontOk, Stuck, LogOk, MemOk, SnapshotsOk, AckOk;
    StuckFrom(run, steps, j, i);
    RunInv(run, steps, i - 1);
    RunInv(run, steps, i);
    if j < i - 1 {
      StuckFrom(run, steps, j, i - 1);
      SettledKept(run[i - 1], steps[i - 1], run[i], w);
      if w < run[i - 1].popped {
        NothingAfterFailedSync(run, steps, j, i - 1, w);
      }
    }
  }

  // ---- Sequence numbers ----

  // The group that was logged at this place in the queue, under numbers after base, has its
  // numbers behind it, or is still at work on them.
  ghost predicate Spent<O>(s: State<O>, popped: nat, base: nat, count: nat) {
    && popped <= s.popped
    && if popped < s.popped then base + count <= s.lastSequence
       else match Front(s)
            case Logging(_, b, ops) => b == base && |ops| == count
            case Syncing(_, b, ops) => b == base && |ops| == count
            case Applying(_, b, ops, _) => b == base && |ops| == count
            case Ending(_, last, _, _, _) => last == base + count
            case _ => false
  }

  lemma SpentKept<O>(s: State<O>, step: Step<O>, t: State<O>, popped: nat, base: nat, count: nat)
    requires QueueOk(s) && FrontOk(s) && QueueOk(t) && Next(s, step, t) && Spent(s, popped, base, count)
    ensures Spent(t, popped, base, count)
  {
    hide RecordOk, OpsOf, IsGroup;
    if step.Finish? {
      FinishQueue(s, t, Front(s).n, Acked(Front(s).ok, Front(s).record));
    }
  }

  lemma {:induction false} SpentFrom<O>(run: seq<State<O>>, steps: seq<Step<O>>, j: nat, i: nat)
    requires IsRun(run, steps) && j <= i < |run| == |steps| + 1 && Front(run[j]).Logging?
    ensures Spent(run[i], run[j].popped, Front(run[j]).base, |Front(run[j]).ops|)
    decreases i
  {
    hide LogOk, MemOk, SnapshotsOk, RecordOk;
    if j < i {
      SpentFrom(run, steps, j, i - 1);
      RunInv(run, steps, i - 1);
      RunInv(run, steps, i);
      hide Next, FrontOk, QueueOk, Spent;
      SpentKept(run[i - 1], steps[i - 1], run[i], run[j].popped, Front(run[j]).base, |Front(run[j]).ops|);
    }
  }

  // The numbers handed to one group are never handed to a later one, also when its append failed.
  lemma NumbersHandedOnce<O>(run: seq<State<O>>, steps: seq<Step<O>>, j: nat, i: nat)
    requires IsRun(run, steps) && j < i < |run| == |steps| + 1 && run[j].popped < run[i].popped
    requires Front(run[j]).Logging? && Front(run[i]).Logging?
    ensures Front(run[j]).base + |Front(run[j]).ops| <= Front(run[i]).base
  {
    hide LogOk, MemOk, SnapshotsOk, RecordOk;
    SpentFrom(run, steps, j, i);
    RunInv(run, steps, i);
  }

  // ---- How large a group gets ----

  // The bytes of the batches of these writers.
  function Bytes<O>(ws: seq<Request<O>>): nat {
    if |ws| == 0 then 0
    else (match ws[0].batch case None => 0 case Some(_) => ws[0].size) + Bytes(ws[1..])
  }

  lemma {:induction false} BytesSnoc<O>(ws: seq<Request<O>>, w: Request<O>)
    ensures Bytes(ws + [w]) == Bytes(ws) + Bytes([w])
  {
    if |ws| > 0 {
      assert (ws + [w])[1..] == ws[1..] + [w];
      BytesSnoc(ws[1..], w);
    } else {
      assert ws + [w] == [w];
    }
  }

  lemma {:induction false} SizeIsBytes<O>(ws: seq<Request<O>>, n: nat)
    requires n <= |ws|
    ensures SizeOf(ws, n) == Bytes(ws[..n])
  {
    if n > 0 {
      SizeIsBytes(ws, n - 1);
      assert ws[..n] == ws[..n - 1] + [ws[n - 1]];
      BytesSnoc(ws[..n - 1], ws[n - 1]);
      assert [ws[n - 1]][1..] == [];
    }
  }

  lemma {:induction false} SizeGrows<O>(ws: seq<Request<O>>, i: nat, n: nat)
    requires i <= n <= |ws|
    ensures SizeOf(ws, i) <= SizeOf(ws, n)
    ensures (forall k :: i <= k < n ==> ws[k].batch.None?) ==> SizeOf(ws, i) == SizeOf(ws, n)
    decreases n
  {
    if i < n {
      SizeGrows(ws, i, n - 1);
    }
  }

  // A group in which a follower's batch joined is within the limit its first batch sets.
  lemma {:induction false} WithinLimit<O>(ws: seq<Request<O>>, n: nat, k: nat)
    requires IsGroup(ws, n) && 1 <= k <= n
    ensures SizeOf(ws, k) <= MaxSize(ws[0].size) || forall i :: 0 < i < k ==> ws[i].batch.None?
  {
    if k > 1 {
      WithinLimit(ws, n, k - 1);
      assert MayJoin(ws, k - 1);
    }
  }

  // The bytes that followers may bring a batch of at most 128 KB to are 128 KB more; behind a
  // larger one a batch joins only up to 1 MB in all.
  lemma GroupIsSmall<O>(ws: seq<Request<O>>, n: nat)
    requires IsGroup(ws, n) && ws[0].batch.Some?
    ensures ws[0].size <= 131072 ==> Bytes(ws[..n]) <= ws[0].size + 131072
    ensures ws[0].size > 131072 && (exists i :: 0 < i < n && ws[i].batch.Some?) ==> Bytes(ws[..n]) <= 1048576
  {
    hide IsGroup;
    assert 1 <= n <= |ws| by { GroupRange(ws, n); }
    WithinLimit(ws, n, n);
    SizeGrows(ws, 1, n);
    SizeIsBytes(ws, n);
    assert SizeOf(ws, 1) == SizeOf(ws, 0) + ws[0].size;
  }

  lemma GroupRange<O>(ws: seq<Request<O>>, n: nat)
    requires IsGroup(ws, n)
    ensures 1 <= n <= |ws|
  {
  }

  lemma JoinsWithin<O>(ws: seq<Request<O>>, i: nat)
    requires 0 < i < |ws| && ws[0].batch.Some?
    requires Bytes(ws) <= if ws[0].size <= 131072 then ws[0].size + 131072 else 1048576
    requires ws[0].sync || !ws[i].sync
    ensures MayJoin(ws, i)
  {
    SizeIsBytes(ws, |ws|);
    assert ws[..|ws|] == ws;
    SizeGrows(ws, i + 1, |ws|);
  }

  // A queue within these bounds, with no sync writer behind a first one that is not, is one group.
  lemma WholeQueueJoins<O>(ws: seq<Request<O>>, n: nat)
    requires IsGroup(ws, n) && ws[0].batch.Some?
    requires Bytes(ws) <= if ws[0].size <= 131072 then ws[0].size + 131072 else 1048576
    requires ws[0].sync || forall i :: 0 < i < |ws| ==> !ws[i].sync
    ensures n == |ws|
  {
    forall i | 0 < i < |ws| ensures MayJoin(ws, i) {
      JoinsWithin(ws, i);
    }
  }

  // A group stops only before a sync writer it cannot speak for, or before a batch too large.
  lemma StopsOnlyThen<O>(ws: seq<Request<O>>, n: nat)
    requires IsGroup(ws, n) && ws[0].batch.Some? && n < |ws|
    ensures (ws[n].sync && !ws[0].sync)
            || (ws[n].batch.Some? && Bytes(ws[..n + 1]) > if ws[0].size <= 131072 then ws[0].size + 131072 else 1048576)
    ensures forall i :: 0 <= i < n && ws[i].sync ==> ws[0].sync
  {
    SizeIsBytes(ws, n + 1);
    assert !MayJoin(ws, n);
    forall i | 0 <= i < n && ws[i].sync ensures ws[0].sync {
      assert i > 0 ==> MayJoin(ws, i);
    }
  }
}
