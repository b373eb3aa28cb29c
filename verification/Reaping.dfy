/**
  Waiting for a child to become a zombie: process_reap_child in any number of
  waiters, signal_wait_callback run by the scheduler on their behalf, and
  reap_prepare with signal_awake_locked in the reaper, interleaved step by step.
 */
module Reaping {
  import opened Sequences

  /** Where a waiter stands. */
  datatype Waiter =
    | Start        // about to acquire the child's plock
    | Testing      // holds plock, about to look at the child's state
    | Blocking     // not a zombie: the callback is set, plock still held
    | Calling      // the scheduler runs the callback: about to acquire the wait lock
    | Linking      // holds the wait lock, about to link itself into the queue
    | Linked       // linked, about to release the wait lock
    | Letting      // about to release plock
    | Asleep       // blocked until somebody wakes it
    | Woken        // ready again, about to go round the loop
    | Leaving      // saw a zombie, about to release plock
    | Gone         // returned

  /** Where the reaper stands with this child. */
  datatype Reaper =
    | Waiting      // the child is still alive
    | Marking      // holds plock, about to set SCHED_ZOMBIE
    | Reaching     // about to acquire the wait lock
    | Taking       // holds the wait lock, about to take the queue
    | Took         // about to release the wait lock
    | Freeing      // about to release plock
    | Waking       // wakes the processes it took, one by one
    | Finished

  datatype Owner = Nobody | Of(p: nat) | OfReaper

  datatype State = State(waiters: seq<Waiter>, reaper: Reaper, plock: Owner, wlock: Owner, zombie: bool, queue: seq<nat>, taken: seq<nat>)

  datatype Process = W(p: nat) | R

  function Init(n: nat): State {
    State(seq(n, _ => Start), Waiting, Nobody, Nobody, false, [], [])
  }

  /** The process can take its next step. */
  predicate Enabled(s: State, x: Process) {
    match x
    case W(p) => p < |s.waiters| &&
      (match s.waiters[p]
       case Start => s.plock == Nobody
       case Calling => s.wlock == Nobody
       case Asleep => false
       case Gone => false
       case _ => true)
    case R =>
      match s.reaper
      case Waiting => s.plock == Nobody
      case Reaching => s.wlock == Nobody
      case Finished => false
      case _ => true
  }

  function At(s: State, p: nat, w: Waiter): State
    requires p < |s.waiters|
  {
    s.(waiters := s.waiters[p := w])
  }

  function WaiterStep(s: State, p: nat): State
    requires Enabled(s, W(p))
  {
    match s.waiters[p]
    case Start => At(s, p, Testing).(plock := Of(p))
    case Testing => if s.zombie then At(s, p, Leaving) else At(s, p, Blocking)
    case Blocking => At(s, p, Calling)
    case Calling => At(s, p, Linking).(wlock := Of(p))
    case Linking => At(s, p, Linked).(queue := [p] + s.queue)
    case Linked => At(s, p, Letting).(wlock := Nobody)
    case Letting => At(s, p, Asleep).(plock := Nobody)
    case Woken => At(s, p, Start)
    case Leaving => At(s, p, Gone).(plock := Nobody)
  }

  function ReaperStep(s: State): State
    requires Enabled(s, R)
  {
    match s.reaper
    case Waiting => s.(reaper := Marking, plock := OfReaper)
    case Marking => s.(reaper := Reaching, zombie := true)
    case Reaching => s.(reaper := Taking, wlock := OfReaper)
    case Taking => s.(reaper := Took, taken := s.queue, queue := [])
    case Took => s.(reaper := Freeing, wlock := Nobody)
    case Freeing => s.(reaper := Waking, plock := Nobody)
    case Waking =>
      if s.taken == [] then s.(reaper := Finished)
      else if s.taken[0] < |s.waiters| then At(s, s.taken[0], Woken).(taken := s.taken[1..])
      else s.(taken := s.taken[1..])
  }

  function Step(s: State, x: Process): State
    requires Enabled(s, x)
  {
    match x case W(p) => WaiterStep(s, p) case R => ReaperStep(s)
  }

  // The invariant.

  predicate HoldsPlock(w: Waiter) {
    w.Testing? || w.Blocking? || w.Calling? || w.Linking? || w.Linked? || w.Letting? || w.Leaving?
  }

  predicate HoldsWlock(w: Waiter) {
    w.Linking? || w.Linked?
  }

  /** On a list: linked into the queue and not yet woken. */
  predicate Listed(w: Waiter) {
    w.Linked? || w.Letting? || w.Asleep?
  }

  /** Blocked, or on the way there, after seeing a living child. */
  predicate GoingToSleep(w: Waiter) {
    w.Blocking? || w.Calling? || w.Linking? || w.Linked? || w.Letting?
  }

  predicate ReaperHoldsPlock(r: Reaper) {
    r.Marking? || r.Reaching? || r.Taking? || r.Took? || r.Freeing?
  }

  predicate BeforeTaking(r: Reaper) {
    r.Waiting? || r.Marking? || r.Reaching? || r.Taking?
  }

  ghost predicate WaiterOK(s: State, p: nat)
    requires p < |s.waiters|
  {
    var w := s.waiters[p];
    && (HoldsPlock(w) <==> s.plock == Of(p))
    && (HoldsWlock(w) <==> s.wlock == Of(p))
    && (Listed(w) <==> p in s.queue || p in s.taken)
    && (p in s.taken ==> w == Asleep)
    && (GoingToSleep(w) ==> !s.zombie)
    && (w.Woken? || w.Leaving? || w.Gone? ==> s.zombie)
  }

  ghost predicate ReaperOK(s: State) {
    && (ReaperHoldsPlock(s.reaper) <==> s.plock == OfReaper)
    && (s.reaper.Taking? || s.reaper.Took? <==> s.wlock == OfReaper)
    && (s.zombie <==> !s.reaper.Waiting? && !s.reaper.Marking?)
    && (BeforeTaking(s.reaper) ==> s.taken == [])
    && (!BeforeTaking(s.reaper) ==> s.queue == [])
    && (s.reaper.Finished? ==> s.taken == [])
    && Distinct(s.queue) && Distinct(s.taken)
    && (s.plock.Of? ==> s.plock.p < |s.waiters|)
    && (s.wlock.Of? ==> s.wlock.p < |s.waiters|)
    && (forall i :: 0 <= i < |s.taken| ==> s.taken[i] < |s.waiters|)
    && (forall i :: 0 <= i < |s.queue| ==> s.queue[i] < |s.waiters|)
  }

  ghost predicate Inv(s: State) {
    && ReaperOK(s)
    && (forall p {:trigger WaiterOK(s, p)} :: 0 <= p < |s.waiters| ==> WaiterOK(s, p))
  }

  lemma {:induction false} InitInv(n: nat)
    ensures Inv(Init(n))
  {
  }

  lemma {:induction false} WaiterStepInv(s: State, p: nat)
    requires Inv(s) && Enabled(s, W(p))
    ensures Inv(WaiterStep(s, p))
  {
    var s' := WaiterStep(s, p);
    assert WaiterOK(s, p);
    forall q | 0 <= q < |s'.waiters| ensures WaiterOK(s', q) {
      assert WaiterOK(s, q);
    }
  }

  lemma {:induction false} ReaperStepInv(s: State)
    requires Inv(s) && Enabled(s, R)
    ensures Inv(ReaperStep(s))
  {
    var s' := ReaperStep(s);
    forall q | 0 <= q < |s'.waiters| ensures WaiterOK(s', q) {
      assert WaiterOK(s, q);
    }
  }

  // Whole runs.

  /** Every process of the schedule is enabled when its turn comes. */
  ghost predicate Runs(s: State, xs: seq<Process>)
    decreases |xs|
  {
    xs == [] || (Enabled(s, xs[0]) && Runs(Step(s, xs[0]), xs[1..]))
  }

  ghost function After(s: State, xs: seq<Process>): State
    requires Runs(s, xs)
    decreases |xs|
  {
    if xs == [] then s else After(Step(s, xs[0]), xs[1..])
  }

  lemma {:induction false} StepInv(s: State, x: Process)
    requires Inv(s) && Enabled(s, x)
    ensures Inv(Step(s, x))
  {
    match x
    case W(p) => WaiterStepInv(s, p);
    case R => ReaperStepInv(s);
  }

  lemma {:induction false} RunInv(s: State, xs: seq<Process>)
    requires Inv(s) && Runs(s, xs)
    ensures Inv(After(s, xs))
    decreases |xs|
  {
    if xs != [] {
      StepInv(s, xs[0]);
      RunInv(Step(s, xs[0]), xs[1..]);
    }
  }

  /** No lost wakeup: whenever plock is free and a waiter is on the monitor queue,
      the child is not a zombie; and a waiter that sleeps on a zombie has already
      been taken by the reaper, which is still waking. */
  lemma {:induction false} NoLostWakeup(n: nat, xs: seq<Process>, p: nat)
    requires Runs(Init(n), xs) && p < |After(Init(n), xs).waiters|
    ensures var s := After(Init(n), xs);
      && (s.plock == Nobody && p in s.queue ==> !s.zombie && s.waiters[p] == Asleep)
      && (s.plock == Nobody && s.zombie && s.waiters[p] == Asleep ==> p in s.taken && s.reaper == Waking)
      && (s.reaper == Finished ==> s.waiters[p] != Asleep)
  {
    InitInv(n);
    RunInv(Init(n), xs);
    assert WaiterOK(After(Init(n), xs), p);
  }

  /** Mutual exclusion on plock, and nobody returns before the child is a zombie. */
  lemma {:induction false} WaitersExcludeEachOther(n: nat, xs: seq<Process>, p: nat, q: nat)
    requires Runs(Init(n), xs) && p < |After(Init(n), xs).waiters| && q < |After(Init(n), xs).waiters|
    ensures var s := After(Init(n), xs);
      && (HoldsPlock(s.waiters[p]) && HoldsPlock(s.waiters[q]) ==> p == q)
      && (HoldsPlock(s.waiters[p]) ==> !ReaperHoldsPlock(s.reaper))
      && (s.waiters[p] == Gone ==> s.zombie)
  {
    InitInv(n);
    RunInv(Init(n), xs);
    assert WaiterOK(After(Init(n), xs), p) && WaiterOK(After(Init(n), xs), q);
  }

  // Progress.

  ghost predicate Done(s: State) {
    s.reaper == Finished && forall p :: 0 <= p < |s.waiters| ==> s.waiters[p] == Gone
  }

  /** A waiter takes the wait lock only while it holds plock. */
  lemma {:induction false} LocksNest(s: State)
    requires Inv(s)
    ensures s.wlock.Of? ==> s.plock == s.wlock
    ensures s.wlock.OfReaper? ==> s.plock == OfReaper
  {
    if s.wlock.Of? {
      assert WaiterOK(s, s.wlock.p);
    }
  }

  /** As long as somebody is not done, somebody can move. */
  lemma {:induction false} NoDeadlock(s: State) returns (x: Process)
    requires Inv(s) && !Done(s)
    ensures Enabled(s, x)
  {
    LocksNest(s);
    match s.plock
    case Of(p) =>
      assert WaiterOK(s, p);
      x := W(p);
    case OfReaper =>
      x := R;
    case Nobody =>
      if s.reaper != Finished {
        x := R;
      } else {
        var p :| 0 <= p < |s.waiters| && s.waiters[p] != Gone;
        assert WaiterOK(s, p);
        x := W(p);
      }
  }

  /** How many steps a waiter has left at most. */
  function Left(w: Waiter, zombie: bool): nat {
    match w
    case Start => if zombie then 3 else 12
    case Testing => if zombie then 2 else 11
    case Blocking => 10
    case Calling => 9
    case Linking => 8
    case Linked => 7
    case Letting => 6
    case Asleep => 5
    case Woken => 4
    case Leaving => 1
    case Gone => 0
  }

  function ReaperLeft(r: Reaper): nat {
    match r
    case Waiting => 7
    case Marking => 6
    case Reaching => 5
    case Taking => 4
    case Took => 3
    case Freeing => 2
    case Waking => 1
    case Finished => 0
  }

  function Sum(ws: seq<Waiter>, zombie: bool): nat
    decreases |ws|
  {
    if ws == [] then 0 else Left(ws[0], zombie) + Sum(ws[1..], zombie)
  }

  function Measure(s: State): nat {
    Sum(s.waiters, s.zombie) + ReaperLeft(s.reaper)
  }

  lemma {:induction false} SumUpdated(ws: seq<Waiter>, zombie: bool, p: nat, w: Waiter)
    requires p < |ws|
    ensures Sum(ws[p := w], zombie) + Left(ws[p], zombie) == Sum(ws, zombie) + Left(w, zombie)
    decreases |ws|
  {
    if p == 0 {
      assert ws[p := w][1..] == ws[1..];
    } else {
      assert ws[p := w][1..] == ws[1..][p - 1 := w];
      SumUpdated(ws[1..], zombie, p - 1, w);
    }
  }

  lemma {:induction false} SumDrops(ws: seq<Waiter>)
    ensures Sum(ws, true) <= Sum(ws, false)
    decreases |ws|
  {
    if ws != [] {
      SumDrops(ws[1..]);
    }
  }

  /** Every step brings the end nearer. */
  lemma {:induction false} StepsDecrease(s: State, x: Process)
    requires Inv(s) && Enabled(s, x)
    ensures Measure(Step(s, x)) < Measure(s)
  {
    match x
    case W(p) =>
      assert WaiterOK(s, p);
      SumUpdated(s.waiters, s.zombie, p, Step(s, x).waiters[p]);
    case R =>
      if s.reaper == Marking {
        SumDrops(s.waiters);
      } else if s.reaper == Waking && s.taken != [] {
        assert s.taken[0] in s.taken;
        assert WaiterOK(s, s.taken[0]);
        SumUpdated(s.waiters, s.zombie, s.taken[0], Woken);
      }
  }

  lemma {:induction false} RunsAreShort(s: State, xs: seq<Process>)
    requires Inv(s) && Runs(s, xs)
    ensures |xs| + Measure(After(s, xs)) <= Measure(s)
    decreases |xs|
  {
    if xs != [] {
      StepInv(s, xs[0]);
      StepsDecrease(s, xs[0]);
      RunsAreShort(Step(s, xs[0]), xs[1..]);
    }
  }

  /** Whatever the schedule, it can only stop once the reaper has finished and every
      waiter has returned, and it has to stop after at most Measure(Init(n)) steps. */
  lemma {:induction false} EveryWaiterReturns(n: nat, xs: seq<Process>)
    requires Runs(Init(n), xs)
    ensures |xs| <= Measure(Init(n))
    ensures (forall x :: !Enabled(After(Init(n), xs), x)) <==> Done(After(Init(n), xs))
  {
    InitInv(n);
    RunInv(Init(n), xs);
    RunsAreShort(Init(n), xs);
    var s := After(Init(n), xs);
    if !Done(s) {
      var x := NoDeadlock(s);
    }
  }
}
