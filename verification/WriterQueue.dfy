// db/db_impl.cpp Write: how the writers of the queue sleep, are woken and hand the queue on.
// A step is what one thread does while it holds the mutex.
module WriterQueue {
  import GroupCommit

  // Asleep is in cv.Wait; Working is past the wait loop and not yet back.
  datatype Pc = Asleep | Working | Returned

  // Writers are numbered as they arrive. signalled says that a sleeper was signalled since it
  // last went to sleep.
  datatype State = State(pcs: seq<Pc>, queue: seq<nat>, done: seq<bool>, signalled: seq<bool>)

  datatype Step =
    | Arrive
    | Wake(w: nat, spurious: bool)  // cv.Wait returns, and the loop tests again
    | Finish(w: nat, n: nat)        // pops n writers, marks and signals them, and the new front

  predicate IsFront(s: State, w: nat) {
    |s.queue| > 0 && s.queue[0] == w
  }

  // The condition variable of a sleeper is signalled; a signal to anyone else has no effect.
  function Signal(s: State, targets: set<nat>): seq<bool>
    requires |s.signalled| == |s.pcs|
  {
    seq(|s.pcs|, i requires 0 <= i < |s.pcs| => s.signalled[i] || (i in targets && s.pcs[i].Asleep?))
  }

  function Popped(s: State, n: nat): set<nat>
    requires n <= |s.queue|
  {
    set w | w in s.queue[..n]
  }

  ghost predicate Init(s: State) {
    s == State([], [], [], [])
  }

  ghost predicate Next(s: State, step: Step, t: State) {
    && |s.pcs| == |s.done| == |s.signalled|
    && match step
       case Arrive =>
         var w := |s.pcs|;
         t == State(s.pcs + [if s.queue == [] then Working else Asleep], s.queue + [w], s.done + [false], s.signalled + [false])
       case Wake(w, spurious) =>
         && w < |s.pcs| && s.pcs[w].Asleep? && (spurious || s.signalled[w])
         && t == s.(pcs := s.pcs[w := if s.done[w] then Returned else if IsFront(s, w) then Working else Asleep],
                    signalled := s.signalled[w := false])
       case Finish(w, n) =>
         && w < |s.pcs| && s.pcs[w].Working? && 1 <= n <= |s.queue|
         && var others := Popped(s, n) - {w};
            var front := if n < |s.queue| then {s.queue[n]} else {};
            t == State(s.pcs[w := Returned], s.queue[n..],
                       seq(|s.done|, i requires 0 <= i < |s.done| => s.done[i] || i in others),
                       Signal(s, others + front))
  }

  // The first writer still in the queue.
  function First(s: State): int {
    |s.pcs| - |s.queue|
  }

  ghost predicate Inv(s: State) {
    && |s.pcs| == |s.done| == |s.signalled| && |s.queue| <= |s.pcs|
    && (forall k :: 0 <= k < |s.queue| ==> s.queue[k] == First(s) + k)
    && (forall i :: 0 <= i < First(s) ==> s.pcs[i].Returned? || (s.pcs[i].Asleep? && s.done[i] && s.signalled[i]))
    && (forall i :: First(s) <= i < |s.pcs| ==> !s.done[i] && !s.pcs[i].Returned?)
    && (forall i :: First(s) < i < |s.pcs| ==> s.pcs[i].Asleep? && !s.signalled[i])
    && (First(s) < |s.pcs| ==> s.pcs[First(s)].Working? || s.signalled[First(s)])
  }

  lemma FinishPops(s: State, n: nat)
    requires Inv(s) && n <= |s.queue|
    ensures forall i :: i in Popped(s, n) <==> First(s) <= i < First(s) + n
  {
    forall i | First(s) <= i < First(s) + n ensures i in Popped(s, n) {
      assert s.queue[..n][i - First(s)] == i;
    }
  }

  lemma FinishKeeps(s: State, step: Step, t: State)
    requires Inv(s) && Next(s, step, t) && step.Finish?
    ensures Inv(t) && step.w == First(s) && First(t) == First(s) + step.n
  {
    FinishPops(s, step.n);
    assert forall k :: 0 <= k < |t.queue| ==> t.queue[k] == s.queue[step.n + k];
  }

  lemma WakeKeeps(s: State, step: Step, t: State)
    requires Inv(s) && Next(s, step, t) && step.Wake?
    ensures Inv(t)
  {
  }

  lemma ArriveKeeps(s: State, step: Step, t: State)
    requires Inv(s) && Next(s, step, t) && step.Arrive?
    ensures Inv(t)
  {
  }

  lemma StepKeeps(s: State, step: Step, t: State)
    requires Inv(s) && Next(s, step, t)
    ensures Inv(t)
  {
    hide Inv, Next;
    match step
    case Arrive => ArriveKeeps(s, step, t);
    case Wake(_, _) => WakeKeeps(s, step, t);
    case Finish(_, _) => FinishKeeps(s, step, t);
  }

  ghost predicate IsRun(run: seq<State>, steps: seq<Step>) {
    && |run| == |steps| + 1 && Init(run[0])
    && forall i :: 0 <= i < |steps| ==> Next(run[i], steps[i], run[i + 1])
  }

  lemma {:induction false} RunInv(run: seq<State>, steps: seq<Step>, i: nat)
    requires IsRun(run, steps) && i < |run|
    ensures Inv(run[i])
  {
    if i > 0 {
      RunInv(run, steps, i - 1);
      StepKeeps(run[i - 1], steps[i - 1], run[i]);
    }
  }

  // In every run at most one writer works, and it is the front one.
  lemma OneWorker(run: seq<State>, steps: seq<Step>, i: nat, v: nat, w: nat)
    requires IsRun(run, steps) && i < |run| && v < |run[i].pcs| && w < |run[i].pcs|
    requires run[i].pcs[v].Working? && run[i].pcs[w].Working?
    ensures v == w && IsFront(run[i], w)
  {
    RunInv(run, steps, i);
  }

  // No wakeup is lost: as long as a writer has not returned, one is working, or a sleeper that
  // was signalled will get on when it wakes.
  lemma NoLostWakeup(run: seq<State>, steps: seq<Step>, i: nat, w: nat)
    requires IsRun(run, steps) && i < |run| && w < |run[i].pcs| && !run[i].pcs[w].Returned?
    ensures var s := run[i];
      && |s.done| == |s.signalled| == |s.pcs|
      && exists v :: 0 <= v <= w && (s.pcs[v].Working? || (s.pcs[v].Asleep? && s.signalled[v] && (s.done[v] || IsFront(s, v))))
  {
    RunInv(run, steps, i);
    var s := run[i];
    var v := if w < First(s) then w else First(s);
    assert s.pcs[v].Working? || (s.pcs[v].Asleep? && s.signalled[v] && (s.done[v] || IsFront(s, v)));
  }

  // A writer that has returned has left the queue: nobody touches it any more.
  lemma ReturnedIsGone(run: seq<State>, steps: seq<Step>, i: nat, w: nat)
    requires IsRun(run, steps) && i < |run| && w < |run[i].pcs| && run[i].pcs[w].Returned?
    ensures w !in run[i].queue
  {
    RunInv(run, steps, i);
  }

  // What is left to do for the writers there are: two moves each.
  function Left(pcs: seq<Pc>): nat {
    if |pcs| == 0 then 0
    else Left(pcs[..|pcs| - 1]) + match pcs[|pcs| - 1] case Asleep => 2 case Working => 1 case Returned => 0
  }

  lemma {:induction false} LeftLess(pcs: seq<Pc>, w: nat, p: Pc)
    requires w < |pcs|
    requires (pcs[w].Asleep? && !p.Asleep?) || (pcs[w].Working? && p.Returned?)
    ensures Left(pcs[w := p]) < Left(pcs)
  {
    var n := |pcs| - 1;
    if w < n {
      assert pcs[w := p][..n] == pcs[..n][w := p];
      LeftLess(pcs[..n], w, p);
    } else {
      assert pcs[w := p][..n] == pcs[..n];
    }
  }

  // Every wakeup by a signal and every hand-over gets some writer on, so between arrivals there
  // are only so many of them.
  lemma StepsGetOn(s: State, step: Step, t: State)
    requires Inv(s) && Next(s, step, t) && !step.Arrive? && !(step.Wake? && step.spurious)
    ensures Left(t.pcs) < Left(s.pcs)
  {
    LeftLess(s.pcs, step.w, t.pcs[step.w]);
  }

  // A sleeper may always wake, and whoever works may always hand the queue on.
  lemma CanMove(s: State, w: nat) returns (step: Step, t: State)
    requires Inv(s) && w < |s.pcs| && !s.pcs[w].Returned?
    ensures Next(s, step, t) && !step.Arrive? && step.w == w
    ensures s.pcs[w].Working? ==> step.Finish? && t.pcs[w].Returned?
  {
    if s.pcs[w].Working? {
      step := Finish(w, 1);
      var others := Popped(s, 1) - {w};
      var front := if 1 < |s.queue| then {s.queue[1]} else {};
      t := State(s.pcs[w := Returned], s.queue[1..],
                 seq(|s.done|, i requires 0 <= i < |s.done| => s.done[i] || i in others), Signal(s, others + front));
    } else {
      step := Wake(w, true);
      t := s.(pcs := s.pcs[w := if s.done[w] then Returned else if IsFront(s, w) then Working else Asleep],
              signalled := s.signalled[w := false]);
    }
  }

  // ---- The queue of the group commit machine ----

  ghost predicate Related<O>(g: GroupCommit.State<O>, s: State) {
    && |g.phases| == |g.requests| == |s.pcs| && g.popped == First(s)
    && (g.popped < |g.phases| ==> (GroupCommit.Front(g).Waiting? <==> s.pcs[g.popped].Asleep?))
  }

  // A writer that arrives joins the queue of that machine, and leads at once if it is alone.
  lemma ArriveRefines<O>(g: GroupCommit.State<O>, s: State, t: State, r: GroupCommit.Request<O>, g1: GroupCommit.State<O>)
    requires Inv(s) && Next(s, Arrive, t) && Related(g, s) && GroupCommit.Next(g, GroupCommit.Enqueue(r), g1)
    ensures s.queue != [] ==> Related(g1, t)
    ensures s.queue == [] ==>
              var g2 := g1.(phases := GroupCommit.SetFront(g1, GroupCommit.Making));
              GroupCommit.Next(g1, GroupCommit.Lead, g2) && Related(g2, t)
  {
  }

  // A wakeup is the step in which the front writer leaves its wait loop, or changes nothing.
  lemma WakeRefines<O>(g: GroupCommit.State<O>, s: State, step: Step, t: State)
    requires Inv(s) && Next(s, step, t) && step.Wake? && Related(g, s)
    ensures if IsFront(s, step.w) then
              var g1 := g.(phases := GroupCommit.SetFront(g, GroupCommit.Making));
              GroupCommit.Next(g, GroupCommit.Lead, g1) && Related(g1, t)
            else Related(g, t)
  {
  }

  // The hand-over is the step that pops and acknowledges the group.
  lemma FinishRefines<O>(g: GroupCommit.State<O>, s: State, step: Step, t: State, g1: GroupCommit.State<O>)
    requires Inv(s) && Next(s, step, t) && step.Finish? && Related(g, s) && GroupCommit.Inv(g)
    requires GroupCommit.Next(g, GroupCommit.Finish, g1) && step.n == GroupCommit.Front(g).n
    ensures Related(g1, t)
  {
    hide GroupCommit.LogOk, GroupCommit.MemOk, GroupCommit.SnapshotsOk, GroupCommit.AckOk;
    FinishKeeps(s, step, t);
  }
}
