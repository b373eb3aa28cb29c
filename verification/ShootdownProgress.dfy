/**
  Progress of deferred freeing: when the worker that waits at the barrier gets to free
  its batch, and when it waits for ever.
 */
module ShootdownProgress {
  import opened Shootdown

  // Paths from any state, and where they can lead.

  ghost predicate Path(hw: Hw, states: seq<State>, steps: seq<Step>) {
    && |states| == |steps| + 1
    && forall i :: 0 <= i < |steps| ==> Next(hw, states[i], states[i + 1], steps[i])
  }

  ghost predicate Leads(hw: Hw, s: State, t: State) {
    exists states, steps :: Path(hw, states, steps) && states[0] == s && states[|steps|] == t
  }

  predicate IsCallerStep(step: Step) {
    step.Alloc? || step.Map? || step.Unmap? || step.Fill? || step.Evict? || step.FreeRange? || step.Register?
  }

  /** A step of the worker or of a handler for the batch at hand. */
  predicate IsBatchStep(step: Step) {
    !IsCallerStep(step) && !step.SeeNone? && !step.Nap? && !step.Take?
  }

  ghost predicate BatchSteps(steps: seq<Step>) {
    forall i :: 0 <= i < |steps| ==> IsBatchStep(steps[i])
  }

  /** The worker and the handlers can get from s to t without anybody's help and
      without starting another batch. */
  ghost predicate Settles(hw: Hw, s: State, t: State) {
    exists states, steps :: Path(hw, states, steps) && BatchSteps(steps) && states[0] == s && states[|steps|] == t
  }

  lemma {:induction false} SettlesHere(hw: Hw, s: State)
    ensures Settles(hw, s, s) && Leads(hw, s, s)
  {
    assert Path(hw, [s], []) && BatchSteps([]);
  }

  lemma {:induction false} SettlesFirst(hw: Hw, s: State, step: Step, t: State, u: State)
    requires Next(hw, s, t, step) && IsBatchStep(step) && Settles(hw, t, u)
    ensures Settles(hw, s, u)
  {
    var states, steps :| Path(hw, states, steps) && BatchSteps(steps) && states[0] == t && states[|steps|] == u;
    var states', steps' := [s] + states, [step] + steps;
    forall i | 0 <= i < |steps'| ensures Next(hw, states'[i], states'[i + 1], steps'[i]) {
      if i > 0 {
        assert Next(hw, states[i - 1], states[i], steps[i - 1]);
      }
    }
    assert Path(hw, states', steps') && BatchSteps(steps');
  }

  lemma {:induction false} LeadsThen(hw: Hw, s: State, t: State, step: Step, u: State)
    requires Leads(hw, s, t) && Next(hw, t, u, step)
    ensures Leads(hw, s, u)
  {
    var states, steps :| Path(hw, states, steps) && states[0] == s && states[|steps|] == t;
    var states', steps' := states + [u], steps + [step];
    forall i | 0 <= i < |steps'| ensures Next(hw, states'[i], states'[i + 1], steps'[i]) {
      if i < |steps| {
        assert Next(hw, states[i], states[i + 1], steps[i]);
      }
    }
    assert Path(hw, states', steps');
  }

  // What the handlers still have to do.

  /** Turns of the invalidation loop for one node, and the move to the next. */
  function Turns(n: Node, off: nat): (r: nat)
    ensures r > 0
    decreases n.size - off
  {
    if off < n.size then 1 + Turns(n, off + PAGE) else 1
  }

  function WalkWork(rest: seq<Node>, off: nat): (r: nat)
    ensures r > 0
  {
    if rest == [] then 1 else Turns(rest[0], off) + WalkWork(rest[1..], 0)
  }

  function CpuWork(s: State, c: Cpu): nat {
    if c in s.isr then WalkWork(s.isr[c].rest, s.isr[c].off)
    else if c in s.ipi then 1 + WalkWork(s.trans, 0)
    else 0
  }

  function WorkOf(es: seq<Entry>, s: State): nat {
    if es == [] then 0 else CpuWork(s, es[0].cpu) + WorkOf(es[1..], s)
  }

  /** Steps that the handlers of this batch have left. */
  function HandlerWork(s: State): nat {
    WorkOf(s.entries, s)
  }

  predicate IsHandlerStep(step: Step) {
    step.IsrStart? || step.IsrInvalidate? || step.IsrNextNode? || step.IsrDisarm?
  }

  lemma {:induction false} WorkShrinks(es: seq<Entry>, s: State, es': seq<Entry>, s': State, i: int)
    requires |es'| == |es| && forall k :: 0 <= k < |es| ==> es'[k].cpu == es[k].cpu
    requires forall c :: CpuWork(s', c) <= CpuWork(s, c)
    ensures WorkOf(es', s') <= WorkOf(es, s)
    ensures 0 <= i < |es| && CpuWork(s', es[i].cpu) < CpuWork(s, es[i].cpu) ==> WorkOf(es', s') < WorkOf(es, s)
  {
    if es != [] {
      assert es'[0].cpu == es[0].cpu;
      WorkShrinks(es[1..], s, es'[1..], s', i - 1);
      assert 0 < i < |es| ==> es[1..][i - 1] == es[i];
    }
  }

  /** A step of a handler is one step less to do. */
  lemma {:induction false} HandlerStepWorks(hw: Hw, s: State, s': State, step: Step)
    requires Inv(hw, s) && IsrStep(hw, s, s', step)
    ensures HandlerWork(s') < HandlerWork(s)
  {
    var c := step.c;
    assert c in s.ipi || c in s.isr.Keys;
    assert HasEntry(s.entries, c);
    var i :| 0 <= i < |s.entries| && s.entries[i].cpu == c;
    DisarmedFacts(hw, s.entries, hw.arb(c));
    WorkShrinks(s.entries, s, s'.entries, s', i);
  }

  /** The worker waits for the barrier. */
  ghost predicate Waiting(s: State) {
    s.worker.Polling? || s.worker.Checking? || Resting(s)
  }

  /** It found an entry armed, and sleeps or is about to. */
  ghost predicate Resting(s: State) {
    s.worker.Looked? || s.worker.Dozing?
  }

  /** Nobody else adds to that work while the worker waits. */
  lemma {:induction false} OtherStepsKeepWork(hw: Hw, s: State, s': State, step: Step)
    requires Inv(hw, s) && Waiting(s) && Waiting(s') && Next(hw, s, s', step) && !IsHandlerStep(step)
    ensures HandlerWork(s') <= HandlerWork(s)
  {
    if step.Register? {
      assert s'.entries[1..] == s.entries;
      assert CpuWork(s', step.c) == 0;
      WorkShrinks(s.entries, s, s.entries, s', -1);
    } else {
      WorkShrinks(s.entries, s, s'.entries, s', -1);
    }
  }

  function HandlerSteps(steps: seq<Step>): nat {
    if steps == [] then 0
    else HandlerSteps(steps[..|steps| - 1]) + (if IsHandlerStep(steps[|steps| - 1]) then 1 else 0)
  }

  lemma {:induction false} StepKeepsInv(hw: Hw, s: State, s': State, step: Step)
    requires Injective(hw.apic) && Injective(hw.arb) && Inv(hw, s) && Next(hw, s, s', step)
    ensures Inv(hw, s')
  {
    if CallerStep(s, s', step) {
      CallerKeepsInv(hw, s, s', step);
    } else if WorkerStep(hw, s, s', step) {
      WorkerKeepsInv(hw, s, s', step);
    } else {
      IsrKeepsInv(hw, s, s', step);
    }
  }

  /** While the worker waits, the handlers take boundedly many steps, whatever the
      others do. */
  lemma {:induction false} HandlerStepsBounded(hw: Hw, states: seq<State>, steps: seq<Step>)
    requires Injective(hw.apic) && Injective(hw.arb) && Path(hw, states, steps) && Inv(hw, states[0])
    requires forall i :: 0 <= i < |states| ==> Waiting(states[i])
    ensures Inv(hw, states[|steps|])
    ensures HandlerSteps(steps) + HandlerWork(states[|steps|]) <= HandlerWork(states[0])
  {
    if steps != [] {
      var n := |steps| - 1;
      var s, s', step := states[n], states[n + 1], steps[n];
      HandlerStepsBounded(hw, states[..n + 1], steps[..n]);
      assert Next(hw, s, s', step);
      StepKeepsInv(hw, s, s', step);
      StepCounts(hw, s, s', step);
    }
  }

  lemma {:induction false} StepCounts(hw: Hw, s: State, s': State, step: Step)
    requires Inv(hw, s) && Waiting(s) && Waiting(s') && Next(hw, s, s', step)
    ensures HandlerWork(s') + (if IsHandlerStep(step) then 1 else 0) <= HandlerWork(s)
  {
    if IsHandlerStep(step) {
      HandlerStepWorks(hw, s, s', step);
    } else {
      OtherStepsKeepWork(hw, s, s', step);
    }
  }

  // The condition.

  /** Some handler that has not finished will answer for the entry of `cpu`. */
  ghost predicate Expected(hw: Hw, busy: set<Cpu>, cpu: Cpu) {
    exists c :: c in busy && hw.arb(c) == hw.apic(cpu)
  }

  ghost function Busy(s: State): set<Cpu> {
    s.ipi + s.isr.Keys
  }

  /** Every entry that is armed will be answered. */
  ghost predicate Owed(hw: Hw, s: State) {
    forall i :: 0 <= i < |s.entries| && s.entries[i].armed ==> Expected(hw, Busy(s), s.entries[i].cpu)
  }

  // With every entry owed, the batch can finish.

  lemma {:induction false} HandlerStepKeepsOwed(hw: Hw, s: State, s': State, step: Step)
    requires Injective(hw.apic) && Injective(hw.arb) && Inv(hw, s) && Owed(hw, s) && IsrStep(hw, s, s', step)
    ensures Owed(hw, s')
  {
    if step.IsrDisarm? {
      DisarmKeepsOwed(hw, s, s', step.c);
    } else {
      assert Busy(s') == Busy(s);
    }
  }

  /** The entry registered under an id is clear after disarming. */
  lemma {:induction false} DisarmClears(hw: Hw, es: seq<Entry>, id: nat, i: nat)
    requires i < |es| && hw.apic(es[i].cpu) == id && forall j :: 0 <= j < |es| && j != i ==> hw.apic(es[j].cpu) != id
    ensures |Disarmed(hw, es, id)| == |es| && !Disarmed(hw, es, id)[i].armed
  {
    DisarmedFacts(hw, es, id);
    if i > 0 {
      assert es[0].cpu != es[i].cpu;
      DisarmClears(hw, es[1..], id, i - 1);
    }
  }

  lemma {:induction false} DisarmKeepsOwed(hw: Hw, s: State, s': State, c: Cpu)
    requires Injective(hw.apic) && Injective(hw.arb) && Inv(hw, s) && Owed(hw, s) && IsrStep(hw, s, s', IsrDisarm(c))
    ensures Owed(hw, s')
  {
    DisarmedFacts(hw, s.entries, hw.arb(c));
    forall i | 0 <= i < |s'.entries| && s'.entries[i].armed ensures Expected(hw, Busy(s'), s'.entries[i].cpu) {
      assert s.entries[i].armed;
      var d :| d in Busy(s) && hw.arb(d) == hw.apic(s.entries[i].cpu);
      if d == c {
        DisarmClears(hw, s.entries, hw.arb(c), i);
      } else {
        assert d in Busy(s');
      }
    }
  }

  /** A handler that has something to do can do it. */
  lemma {:induction false} HandlerReady(hw: Hw, s: State, c: Cpu) returns (step: Step, t: State)
    requires Inv(hw, s) && Online(s) && c in Busy(s)
    ensures IsrStep(hw, s, t, step) && Next(hw, s, t, step) && IsBatchStep(step) && Online(t) && Moves(s, t, c)
  {
    assert c in s.tlb;
    if c in s.isr {
      step, t := HandlerGoesOn(hw, s, c);
    } else {
      step, t := IsrStart(c), s.(ipi := s.ipi - {c}, isr := s.isr[c := Walking(s.trans, 0)]);
      assert Busy(t) == Busy(s);
    }
  }

  /** A step of c's handler leaves the worker alone, or finishes and wakes it. */
  ghost predicate Moves(s: State, t: State, c: Cpu) {
    || (t.worker == s.worker && Busy(t) == Busy(s))
    || (t.worker == Woken(s.worker) && Busy(t) == Busy(s) - {c})
  }

  lemma {:induction false} HandlerGoesOn(hw: Hw, s: State, c: Cpu) returns (step: Step, t: State)
    requires c in s.isr && c !in s.ipi && c in s.tlb
    ensures IsrStep(hw, s, t, step) && IsBatchStep(step) && Moves(s, t, c) && t.regs == s.regs && t.tlb.Keys == s.tlb.Keys
  {
    var rest, off := s.isr[c].rest, s.isr[c].off;
    if rest == [] {
      step := IsrDisarm(c);
      t := s.(isr := s.isr - {c}, entries := Disarmed(hw, s.entries, hw.arb(c)), done := s.done + {c}, worker := Woken(s.worker));
      assert Busy(t) == Busy(s) - {c};
    } else if off < rest[0].size {
      step, t := IsrInvalidate(c), s.(tlb := Dropped(s.tlb, c, rest[0].base + off), isr := s.isr[c := Walking(rest, off + PAGE)]);
      assert Busy(t) == Busy(s);
    } else {
      step, t := IsrNextNode(c), s.(isr := s.isr[c := Walking(rest[1..], 0)]);
      assert Busy(t) == Busy(s);
    }
  }

  ghost predicate AllClear(s: State) {
    forall i :: 0 <= i < |s.entries| ==> !s.entries[i].armed
  }

  /** Walking the list once the entries are clear, then freeing. */
  lemma {:induction false} FreeingFinishes(hw: Hw, s: State) returns (t: State)
    requires s.worker.Freeing?
    ensures Settles(hw, s, t) && t.worker.Sleeping?
    decreases |s.trans|
  {
    if s.trans == [] {
      t := s.(worker := Sleeping, batch := {}, done := {});
      SettlesHere(hw, t);
      SettlesFirst(hw, s, FreeDone, t, t);
    } else {
      var u := s.(free := s.free + s.trans[0].pages, trans := s.trans[1..], guard := s.guard + (map p | p in s.trans[0].pages :: s.batch));
      t := FreeingFinishes(hw, u);
      SettlesFirst(hw, s, FreeOne, u, t);
    }
  }

  lemma {:induction false} CheckFinishes(hw: Hw, s: State) returns (t: State)
    requires AllClear(s) && s.worker.Checking? && s.worker.k <= |s.entries|
    ensures Settles(hw, s, t) && t.worker.Sleeping?
    decreases |s.entries| - s.worker.k
  {
    if s.worker.k == |s.entries| {
      var u := s.(worker := Freeing);
      t := FreeingFinishes(hw, u);
      SettlesFirst(hw, s, CheckDone, u, t);
    } else {
      var u := s.(worker := Checking(s.worker.k + 1));
      t := CheckFinishes(hw, u);
      SettlesFirst(hw, s, CheckEntry, u, t);
    }
  }

  /** A worker that rests gets up only when a handler finishes. */
  ghost predicate Rousable(s: State) {
    Resting(s) ==> Busy(s) != {}
  }

  /** First the handlers, then the barrier, then the list. */
  lemma {:induction false} OwedFinishes(hw: Hw, s: State) returns (t: State)
    requires Injective(hw.apic) && Injective(hw.arb) && Inv(hw, s) && Online(s) && Waiting(s) && Owed(hw, s) && Rousable(s)
    ensures Settles(hw, s, t) && t.worker.Sleeping?
    decreases HandlerWork(s), if s.worker.Looked? then 1 else 0
  {
    if s.worker.Looked? {
      var u := s.(worker := Dozing);
      DozeKeeps(hw, s, u);
      t := OwedFinishes(hw, u);
      SettlesFirst(hw, s, Doze, u, t);
    } else if c :| c in Busy(s) {
      var step, u := HandlerReady(hw, s, c);
      IsrKeepsInv(hw, s, u, step);
      HandlerStepWorks(hw, s, u, step);
      HandlerStepKeepsOwed(hw, s, u, step);
      t := OwedFinishes(hw, u);
      SettlesFirst(hw, s, step, u, t);
    } else {
      assert AllClear(s);
      if s.worker.Checking? {
        t := CheckFinishes(hw, s);
      } else {
        var u := s.(worker := Checking(0));
        t := CheckFinishes(hw, u);
        SettlesFirst(hw, s, CheckStart, u, t);
      }
    }
  }

  lemma {:induction false} DozeKeeps(hw: Hw, s: State, u: State)
    requires Injective(hw.apic) && Injective(hw.arb) && Inv(hw, s) && Owed(hw, s) && WorkerStep(hw, s, u, Doze)
    ensures Inv(hw, u) && Owed(hw, u) && HandlerWork(u) <= HandlerWork(s)
  {
    WorkerKeepsInv(hw, s, u, Doze);
    OtherStepsKeepWork(hw, s, u, Doze);
    assert Busy(u) == Busy(s);
  }

  // Otherwise it never does.

  /** Entry i is armed and nobody is left to answer for it. */
  ghost predicate Orphan(hw: Hw, s: State, i: nat) {
    i < |s.entries| && s.entries[i].armed && !Expected(hw, Busy(s), s.entries[i].cpu)
  }

  lemma {:induction false} HandlersKeepOrphan(hw: Hw, s: State, s': State, step: Step, i: nat)
    requires Waiting(s) && Orphan(hw, s, i) && IsrStep(hw, s, s', step)
    ensures Waiting(s') && Orphan(hw, s', i)
  {
    HandlersAreBusy(hw, s, s', step);
    DisarmedFacts(hw, s.entries, hw.arb(step.c));
  }

  lemma {:induction false} OrphanStays(hw: Hw, s: State, s': State, step: Step, i: nat) returns (i': nat)
    requires Inv(hw, s) && Waiting(s) && Orphan(hw, s, i) && Next(hw, s, s', step)
    ensures Waiting(s') && Orphan(hw, s', i')
  {
    i' := i;
    if IsrStep(hw, s, s', step) {
      HandlersKeepOrphan(hw, s, s', step, i);
    } else if step.Register? {
      i' := i + 1;
      assert Busy(s') == Busy(s);
    } else {
      assert Busy(s') == Busy(s) && s'.entries == s.entries;
    }
  }

  lemma {:induction false} OrphanWaitsForEver(hw: Hw, states: seq<State>, steps: seq<Step>, i: nat)
    requires Injective(hw.apic) && Injective(hw.arb) && Path(hw, states, steps) && Inv(hw, states[0])
    requires Waiting(states[0]) && Orphan(hw, states[0], i)
    ensures forall k :: 0 <= k < |states| ==> Waiting(states[k])
    decreases |steps|
  {
    if steps != [] {
      assert Next(hw, states[0], states[1], steps[0]);
      var i' := OrphanStays(hw, states[0], states[1], steps[0], i);
      StepKeepsInv(hw, states[0], states[1], steps[0]);
      forall k | 0 <= k < |steps| - 1 ensures Next(hw, states[1..][k], states[1..][k + 1], steps[1..][k]) {
        assert Next(hw, states[k + 1], states[k + 2], steps[k + 1]);
      }
      OrphanWaitsForEver(hw, states[1..], steps[1..], i');
      assert forall k :: 0 < k < |states| ==> states[k] == states[1..][k - 1];
    }
  }

  lemma {:induction false} OrphanNeverServed(hw: Hw, s: State, i: nat)
    requires Injective(hw.apic) && Injective(hw.arb) && Inv(hw, s) && Waiting(s) && Orphan(hw, s, i)
    ensures forall t :: Leads(hw, s, t) ==> Waiting(t)
  {
    forall t | Leads(hw, s, t) ensures Waiting(t) {
      var states, steps :| Path(hw, states, steps) && states[0] == s && states[|steps|] == t;
      OrphanWaitsForEver(hw, states, steps, i);
    }
  }

  /** A worker that rests while no handler is left sleeps on. */
  lemma {:induction false} RestsForEver(hw: Hw, states: seq<State>, steps: seq<Step>)
    requires Path(hw, states, steps) && BatchSteps(steps) && Resting(states[0]) && Busy(states[0]) == {}
    ensures Resting(states[|steps|]) && Busy(states[|steps|]) == {}
    decreases |steps|
  {
    if steps != [] {
      assert Next(hw, states[0], states[1], steps[0]) && IsBatchStep(steps[0]);
      StillRests(hw, states[0], states[1], steps[0]);
      forall k | 0 <= k < |steps| - 1 ensures Next(hw, states[1..][k], states[1..][k + 1], steps[1..][k]) {
        assert Next(hw, states[k + 1], states[k + 2], steps[k + 1]);
      }
      RestsForEver(hw, states[1..], steps[1..]);
    }
  }

  lemma {:induction false} StillRests(hw: Hw, s: State, s': State, step: Step)
    requires Resting(s) && Busy(s) == {} && Next(hw, s, s', step) && IsBatchStep(step)
    ensures Resting(s') && Busy(s') == {}
  {
    if IsrStep(hw, s, s', step) {
      HandlersAreBusy(hw, s, s', step);
    }
  }

  lemma {:induction false} HandlersAreBusy(hw: Hw, s: State, s': State, step: Step)
    requires IsrStep(hw, s, s', step)
    ensures Busy(s) != {} && step.c in Busy(s) && Busy(s') <= Busy(s)
  {
    assert step.c in Busy(s);
  }

  /** In every state of every run, the worker and the handlers can get a batch that waits at
      the barrier freed if and only if every armed entry still has a handler that will
      answer for it, and the worker does not rest with all handlers finished. */
  lemma {:induction false} CanFinishIff(hw: Hw, states: seq<State>, steps: seq<Step>, i: nat)
    requires Injective(hw.apic) && Injective(hw.arb) && Run(hw, states, steps) && i < |states| && Waiting(states[i])
    ensures (exists t :: Settles(hw, states[i], t) && t.worker.Sleeping?) <==> Owed(hw, states[i]) && Rousable(states[i])
  {
    InvHolds(hw, states, steps, i);
    OnlineHolds(hw, states, steps, i);
    WaitingCanFinishIff(hw, states[i]);
  }

  lemma {:induction false} WaitingCanFinishIff(hw: Hw, s: State)
    requires Injective(hw.apic) && Injective(hw.arb) && Inv(hw, s) && Online(s) && Waiting(s)
    ensures (exists t :: Settles(hw, s, t) && t.worker.Sleeping?) <==> Owed(hw, s) && Rousable(s)
  {
    if Owed(hw, s) && Rousable(s) {
      var t := OwedFinishes(hw, s);
    } else if Owed(hw, s) {
      forall t | Settles(hw, s, t) ensures !t.worker.Sleeping? {
        var states, steps :| Path(hw, states, steps) && BatchSteps(steps) && states[0] == s && states[|steps|] == t;
        RestsForEver(hw, states, steps);
      }
    } else {
      var i :| 0 <= i < |s.entries| && s.entries[i].armed && !Expected(hw, Busy(s), s.entries[i].cpu);
      assert Orphan(hw, s, i);
      OrphanNeverServed(hw, s, i);
      forall t | Settles(hw, s, t) ensures Leads(hw, s, t) {
      }
    }
  }

  // How the condition comes about while the entries are armed.

  /** Arming an entry keeps the condition if and only if the CPU that answers for it is
      that entry's own, or is interrupted and not finished. */
  lemma {:induction false} ArmOwedIff(hw: Hw, s: State, s': State)
    requires hw.enabled && Inv(hw, s) && Owed(hw, s) && WorkerStep(hw, s, s', Arm)
    ensures var cpu := s.entries[s.worker.k].cpu;
      Owed(hw, s') <==> Expected(hw, Busy(s) + {cpu}, cpu)
  {
    var k := s.worker.k;
    var cpu := s.entries[k].cpu;
    assert Busy(s') == Busy(s) + {cpu};
    assert forall i :: 0 <= i < |s.entries| && i != k ==> s'.entries[i] == s.entries[i];
    if Expected(hw, Busy(s'), cpu) {
      forall i | 0 <= i < |s'.entries| && s'.entries[i].armed ensures Expected(hw, Busy(s'), s'.entries[i].cpu) {
        if i != k {
          var d :| d in Busy(s) && hw.arb(d) == hw.apic(s.entries[i].cpu);
          assert d in Busy(s');
        }
      }
    } else {
      assert s'.entries[k].armed;
    }
  }

  /** The arbitration id of a CPU is its APIC id. */
  ghost predicate Agree(hw: Hw, cpus: set<Cpu>) {
    forall c :: c in cpus ==> hw.arb(c) == hw.apic(c)
  }

  lemma {:induction false} StepKeepsOwed(hw: Hw, s: State, s': State, step: Step)
    requires hw.enabled && Injective(hw.apic) && Injective(hw.arb) && Inv(hw, s) && Owed(hw, s) && Next(hw, s, s', step)
    requires Agree(hw, s.regs)
    ensures Owed(hw, s')
  {
    if IsrStep(hw, s, s', step) {
      HandlerStepKeepsOwed(hw, s, s', step);
    } else if step.Arm? {
      var cpu := s.entries[s.worker.k].cpu;
      assert cpu in Busy(s) + {cpu} && hw.arb(cpu) == hw.apic(cpu);
      ArmOwedIff(hw, s, s');
    } else {
      assert Busy(s') == Busy(s);
      assert step.Register? ==> s'.entries[1..] == s.entries;
    }
  }

  lemma {:induction false} OwedHolds(hw: Hw, states: seq<State>, steps: seq<Step>, i: nat)
    requires hw.enabled && Injective(hw.apic) && Injective(hw.arb) && Run(hw, states, steps) && i < |states|
    requires forall k :: 0 <= k < |states| ==> Agree(hw, states[k].regs)
    ensures Owed(hw, states[i])
  {
    if i > 0 {
      OwedHolds(hw, states, steps, i - 1);
      InvHolds(hw, states, steps, i - 1);
      assert Next(hw, states[i - 1], states[i], steps[i - 1]);
      StepKeepsOwed(hw, states[i - 1], states[i], steps[i - 1]);
    }
  }

  lemma {:induction false} ArmingFinishes(hw: Hw, s: State) returns (t: State)
    requires hw.enabled && Injective(hw.apic) && Injective(hw.arb) && Inv(hw, s) && Online(s) && Owed(hw, s) && Agree(hw, s.regs)
    requires s.worker.Arming?
    ensures Settles(hw, s, t) && t.worker.Sleeping?
    decreases |s.entries| - s.worker.k
  {
    var k := s.worker.k;
    if k == |s.entries| {
      var u := s.(worker := Polling);
      StepKeepsInv(hw, s, u, ArmDone);
      StepKeepsOwed(hw, s, u, ArmDone);
      t := OwedFinishes(hw, u);
      SettlesFirst(hw, s, ArmDone, u, t);
    } else {
      var u := s.(entries := s.entries[k := s.entries[k].(armed := true)], ipi := s.ipi + {s.entries[k].cpu}, worker := Arming(k + 1));
      StepKeepsInv(hw, s, u, Arm);
      StepKeepsOwed(hw, s, u, Arm);
      t := ArmingFinishes(hw, u);
      SettlesFirst(hw, s, Arm, u, t);
    }
  }

  /** With the vector installed and the same ids on the registered CPUs, a batch can be
      freed from every state of every run, if and only if the worker does not rest with all
      handlers finished. */
  lemma {:induction false} BatchCanFinishIff(hw: Hw, states: seq<State>, steps: seq<Step>, i: nat)
    requires hw.enabled && Injective(hw.apic) && Injective(hw.arb) && Run(hw, states, steps) && i < |states|
    requires forall k :: 0 <= k < |states| ==> Agree(hw, states[k].regs)
    ensures !Idle(states[i].worker) ==> ((exists t :: Settles(hw, states[i], t) && t.worker.Sleeping?) <==> Rousable(states[i]))
  {
    InvHolds(hw, states, steps, i);
    OnlineHolds(hw, states, steps, i);
    OwedHolds(hw, states, steps, i);
    var s := states[i];
    if Waiting(s) {
      WaitingCanFinishIff(hw, s);
    } else if s.worker.Arming? {
      var t := ArmingFinishes(hw, s);
    } else if s.worker.Freeing? {
      var t := FreeingFinishes(hw, s);
    }
  }

  // When it always finishes.

  /** No step is left to the worker and the handlers. */
  ghost predicate Ended(hw: Hw, s: State) {
    forall t, step :: IsBatchStep(step) ==> !Next(hw, s, t, step)
  }

  /** However the worker and the handlers take turns, they end with the batch freed. */
  ghost predicate AlwaysFinishes(hw: Hw, s: State) {
    forall t :: Settles(hw, s, t) && Ended(hw, t) ==> t.worker.Sleeping?
  }

  /** Nothing can go wrong any more: the barrier is clear and the worker will see it, or
      it sleeps already and the last handler wakes it. */
  ghost predicate Assured(hw: Hw, s: State) {
    || (!Resting(s) && AllClear(s))
    || (s.worker.Dozing? && Owed(hw, s) && exists c :: Busy(s) == {c})
  }

  /** How far the worker is from the end of the batch, or from its sleep. */
  function Rank(s: State): nat {
    match s.worker
    case Polling => |s.entries| + |s.trans| + 4
    case Checking(k) => (if k <= |s.entries| then |s.entries| - k else 0) + |s.trans| + 3
    case Freeing => |s.trans| + 1
    case Looked => 1
    case _ => 0
  }

  /** More than any rank. */
  function Width(s: State): nat {
    |s.entries| + |s.trans| + 5
  }

  function StepsLeft(s: State): nat {
    HandlerWork(s) * Width(s) + Rank(s)
  }

  lemma {:induction false} RowsAndRest(h: nat, w: nat, r: nat, h': nat, w': nat, r': nat)
    requires h' <= h && w' <= w && r' < w' && (h' < h || r' < r)
    ensures h' * w' + r' < h * w + r
  {
    assert h' * w' <= h' * w;
    if h' < h {
      assert (h' + 1) * w <= h * w;
      assert (h' + 1) * w == h' * w + w;
    } else {
      assert h' * w == h * w;
    }
  }

  /** The worker is somewhere between the barrier and the end of the batch. */
  ghost predicate Underway(s: State) {
    Waiting(s) || s.worker.Freeing? || s.worker.Sleeping?
  }

  lemma {:induction false} NobodyBusy(hw: Hw, s: State)
    requires Inv(hw, s) && (s.worker.Freeing? || s.worker.Sleeping?)
    ensures Busy(s) == {}
  {
  }

  lemma {:induction false} WorkerStepCosts(hw: Hw, s: State, s': State, step: Step)
    requires Inv(hw, s) && Underway(s) && IsBatchStep(step) && WorkerStep(hw, s, s', step)
    ensures Underway(s') && HandlerWork(s') <= HandlerWork(s) && Width(s') <= Width(s) && Rank(s') < Rank(s)
  {
    if s.worker.Freeing? {
      NobodyBusy(hw, s);
      assert forall c :: c !in Busy(s) && c !in Busy(s');
    }
    WorkShrinks(s.entries, s, s'.entries, s', -1);
  }

  /** Every step of a batch behind the arming brings its end nearer. */
  lemma {:induction false} BatchStepCosts(hw: Hw, s: State, s': State, step: Step)
    requires Inv(hw, s) && Underway(s) && IsBatchStep(step) && Next(hw, s, s', step)
    ensures Underway(s') && StepsLeft(s') < StepsLeft(s)
  {
    if IsrStep(hw, s, s', step) {
      HandlersAreBusy(hw, s, s', step);
      if !Waiting(s) {
        NobodyBusy(hw, s);
      }
      HandlerStepWorks(hw, s, s', step);
      DisarmedFacts(hw, s.entries, hw.arb(step.c));
    } else {
      WorkerStepCosts(hw, s, s', step);
    }
    RowsAndRest(HandlerWork(s), Width(s), Rank(s), HandlerWork(s'), Width(s'), Rank(s'));
  }

  /** So every run of a batch behind the arming ends, with or without the batch freed. */
  lemma {:induction false} BatchRunsEnd(hw: Hw, states: seq<State>, steps: seq<Step>)
    requires Injective(hw.apic) && Injective(hw.arb) && Path(hw, states, steps) && BatchSteps(steps)
    requires Inv(hw, states[0]) && Underway(states[0])
    ensures Inv(hw, states[|steps|]) && Underway(states[|steps|])
    ensures |steps| + StepsLeft(states[|steps|]) <= StepsLeft(states[0])
  {
    if steps != [] {
      var n := |steps| - 1;
      BatchRunsEnd(hw, states[..n + 1], steps[..n]);
      assert Next(hw, states[n], states[n + 1], steps[n]) && IsBatchStep(steps[n]);
      StepKeepsInv(hw, states[n], states[n + 1], steps[n]);
      BatchStepCosts(hw, states[n], states[n + 1], steps[n]);
    }
  }

  // The condition is enough.

  ghost predicate Secure(hw: Hw, s: State) {
    Inv(hw, s) && Online(s) && Underway(s) && (Waiting(s) ==> Assured(hw, s))
  }

  /** With a clear barrier only the worker moves. */
  lemma {:induction false} ClearIsQuiet(hw: Hw, s: State)
    requires Injective(hw.apic) && Injective(hw.arb) && Inv(hw, s) && Waiting(s) && AllClear(s)
    ensures Busy(s) == {}
  {
    ClearIsFinished(hw, s);
  }

  lemma {:induction false} HandlerKeepsAssured(hw: Hw, s: State, s': State, step: Step)
    requires Injective(hw.apic) && Injective(hw.arb) && Inv(hw, s) && s.worker.Dozing? && Owed(hw, s) && IsrStep(hw, s, s', step)
    requires exists c :: Busy(s) == {c}
    ensures Waiting(s') && Assured(hw, s')
  {
    HandlersAreBusy(hw, s, s', step);
    HandlerStepKeepsOwed(hw, s, s', step);
    var c :| Busy(s) == {c};
    if step.IsrDisarm? {
      assert Busy(s') == {};
      assert AllClear(s');
    } else {
      assert Busy(s') == Busy(s);
    }
  }

  lemma {:induction false} SecureStays(hw: Hw, s: State, s': State, step: Step)
    requires Injective(hw.apic) && Injective(hw.arb) && Secure(hw, s) && IsBatchStep(step) && Next(hw, s, s', step)
    ensures Secure(hw, s')
  {
    StepKeepsInv(hw, s, s', step);
    StepKeepsOnline(hw, s, s', step);
    BatchStepCosts(hw, s, s', step);
    if Waiting(s) && AllClear(s) {
      ClearIsQuiet(hw, s);
    }
    if !Waiting(s) {
      NobodyBusy(hw, s);
    }
    if IsrStep(hw, s, s', step) {
      HandlersAreBusy(hw, s, s', step);
      HandlerKeepsAssured(hw, s, s', step);
    }
  }

  /** Until the batch is freed somebody can move. */
  lemma {:induction false} SecureMoves(hw: Hw, s: State)
    requires Secure(hw, s) && Ended(hw, s)
    ensures s.worker.Sleeping?
  {
    if s.worker.Dozing? {
      var c :| Busy(s) == {c};
      var step, t := HandlerReady(hw, s, c);
    } else if !s.worker.Sleeping? {
      var step, t := WorkerReady(hw, s);
    }
  }

  /** The worker can always move, except when it dozes. */
  lemma {:induction false} WorkerReady(hw: Hw, s: State) returns (step: Step, t: State)
    requires Inv(hw, s) && Underway(s) && !s.worker.Dozing? && !s.worker.Sleeping?
    ensures Next(hw, s, t, step) && IsBatchStep(step)
  {
    match s.worker
    case Polling => step, t := CheckStart, s.(worker := Checking(0));
    case Looked => step, t := Doze, s.(worker := Dozing);
    case Checking(k) =>
      if k == |s.entries| {
        step, t := CheckDone, s.(worker := Freeing);
      } else {
        step, t := CheckEntry, s.(worker := if s.entries[k].armed then Looked else Checking(k + 1));
      }
    case Freeing =>
      if s.trans == [] {
        step, t := FreeDone, s.(worker := Sleeping, batch := {}, done := {});
      } else {
        step := FreeOne;
        t := s.(free := s.free + s.trans[0].pages, trans := s.trans[1..], guard := s.guard + (map p | p in s.trans[0].pages :: s.batch));
      }
  }

  lemma {:induction false} SecureRun(hw: Hw, states: seq<State>, steps: seq<Step>)
    requires Injective(hw.apic) && Injective(hw.arb) && Path(hw, states, steps) && BatchSteps(steps) && Secure(hw, states[0])
    ensures Secure(hw, states[|steps|])
  {
    if steps != [] {
      var n := |steps| - 1;
      SecureRun(hw, states[..n + 1], steps[..n]);
      assert Next(hw, states[n], states[n + 1], steps[n]) && IsBatchStep(steps[n]);
      SecureStays(hw, states[n], states[n + 1], steps[n]);
    }
  }

  /** What a batch comes to: once it has settled, exactly its pages have joined the free
      list. */
  lemma {:induction false} SettledIsFree(hw: Hw, states: seq<State>, steps: seq<Step>)
    requires Injective(hw.apic) && Injective(hw.arb) && Path(hw, states, steps) && BatchSteps(steps)
    requires Inv(hw, states[0]) && Underway(states[0])
    ensures var s, t := states[0], states[|steps|];
      && t.owned == s.owned && t.pending == s.pending && t.free + Pages(t.trans) == s.free + Pages(s.trans)
      && (t.worker.Sleeping? ==> t.free == s.free + Pages(s.trans))
  {
    BatchRunsEnd(hw, states, steps);
    assert states[|steps|].worker.Sleeping? ==> Pages(states[|steps|].trans) == {};
    if steps != [] {
      var n := |steps| - 1;
      SettledIsFree(hw, states[..n + 1], steps[..n]);
      BatchRunsEnd(hw, states[..n + 1], steps[..n]);
      assert Next(hw, states[n], states[n + 1], steps[n]) && IsBatchStep(steps[n]);
      BatchStepGivesBack(hw, states[n], states[n + 1], steps[n]);
    }
  }

  lemma {:induction false} BatchStepGivesBack(hw: Hw, s: State, s': State, step: Step)
    requires Next(hw, s, s', step) && IsBatchStep(step)
    ensures s'.owned == s.owned && s'.pending == s.pending && s'.free + Pages(s'.trans) == s.free + Pages(s.trans)
  {
    if step.FreeOne? {
      PagesSplit(s.trans);
    } else {
      assert s'.trans == s.trans && s'.free == s.free;
    }
  }

  // And it is needed.

  /** The worker sleeps, and nobody is left to wake it. */
  ghost predicate Forgotten(s: State) {
    s.worker.Dozing? && Busy(s) == {}
  }

  lemma {:induction false} ForgottenIsEnd(hw: Hw, s: State)
    requires Forgotten(s)
    ensures Ended(hw, s) && Settles(hw, s, s)
  {
    SettlesHere(hw, s);
    forall t, step | IsBatchStep(step) ensures !Next(hw, s, t, step) {
      if IsrStep(hw, s, t, step) {
        HandlersAreBusy(hw, s, t, step);
      }
    }
  }

  /** A worker that has looked does not notice the handlers that finish before it sleeps. */
  lemma {:induction false} LookedIsForgotten(hw: Hw, s: State) returns (t: State)
    requires Injective(hw.apic) && Injective(hw.arb) && Inv(hw, s) && Online(s) && s.worker.Looked?
    ensures Settles(hw, s, t) && Forgotten(t)
    decreases HandlerWork(s)
  {
    if c :| c in Busy(s) {
      var step, u := HandlerReady(hw, s, c);
      IsrKeepsInv(hw, s, u, step);
      HandlerStepWorks(hw, s, u, step);
      t := LookedIsForgotten(hw, u);
      SettlesFirst(hw, s, step, u, t);
    } else {
      t := s.(worker := Dozing);
      assert Busy(t) == Busy(s);
      ForgottenIsEnd(hw, t);
      SettlesFirst(hw, s, Doze, t, t);
    }
  }

  /** A worker that will find an entry armed can be forgotten. */
  lemma {:induction false} ArmedIsForgotten(hw: Hw, s: State) returns (t: State)
    requires Injective(hw.apic) && Injective(hw.arb) && Inv(hw, s) && Online(s) && !AllClear(s) && (s.worker.Polling? || s.worker.Checking?)
    ensures Settles(hw, s, t) && Forgotten(t)
    decreases Rank(s)
  {
    if s.worker.Polling? {
      var u := s.(worker := Checking(0));
      WorkerKeepsInv(hw, s, u, CheckStart);
      t := ArmedIsForgotten(hw, u);
      SettlesFirst(hw, s, CheckStart, u, t);
    } else {
      var k := s.worker.k;
      assert k < |s.entries|;
      var u := s.(worker := if s.entries[k].armed then Looked else Checking(k + 1));
      WorkerKeepsInv(hw, s, u, CheckEntry);
      if s.entries[k].armed {
        t := LookedIsForgotten(hw, u);
      } else {
        t := ArmedIsForgotten(hw, u);
      }
      SettlesFirst(hw, s, CheckEntry, u, t);
    }
  }

  /** A sleeping worker that c wakes while d is still busy finds an entry armed. */
  lemma {:induction false} EarlyWakeIsForgotten(hw: Hw, s: State, c: Cpu, d: Cpu) returns (t: State)
    requires Injective(hw.apic) && Injective(hw.arb) && Inv(hw, s) && Online(s) && s.worker.Dozing?
    requires c in Busy(s) && d in Busy(s) && c != d
    ensures Settles(hw, s, t) && Forgotten(t)
    decreases HandlerWork(s)
  {
    var step, u := HandlerReady(hw, s, c);
    IsrKeepsInv(hw, s, u, step);
    HandlerStepWorks(hw, s, u, step);
    assert d in Busy(u);
    if u.worker.Dozing? {
      t := EarlyWakeIsForgotten(hw, u, c, d);
    } else {
      if AllClear(u) {
        ClearIsQuiet(hw, u);
      }
      t := ArmedIsForgotten(hw, u);
    }
    SettlesFirst(hw, s, step, u, t);
  }

  /** With an entry that nobody answers for the worker ends asleep, too. */
  lemma {:induction false} OrphanIsForgotten(hw: Hw, s: State, i: nat) returns (t: State)
    requires Injective(hw.apic) && Injective(hw.arb) && Inv(hw, s) && Online(s) && Waiting(s) && Orphan(hw, s, i)
    ensures Settles(hw, s, t) && Forgotten(t)
    decreases StepsLeft(s)
  {
    if Forgotten(s) {
      t := s;
      ForgottenIsEnd(hw, s);
    } else {
      var step, u;
      if s.worker.Dozing? {
        var c :| c in Busy(s);
        step, u := HandlerReady(hw, s, c);
      } else {
        step, u := WorkerReady(hw, s);
      }
      StepKeepsInv(hw, s, u, step);
      StepKeepsOnline(hw, s, u, step);
      BatchStepCosts(hw, s, u, step);
      var i' := OrphanStays(hw, s, u, step, i);
      t := OrphanIsForgotten(hw, u, i');
      SettlesFirst(hw, s, step, u, t);
    }
  }

  lemma {:induction false} UnassuredIsForgotten(hw: Hw, s: State) returns (t: State)
    requires Injective(hw.apic) && Injective(hw.arb) && Inv(hw, s) && Online(s) && Waiting(s) && !Assured(hw, s)
    ensures Settles(hw, s, t) && Forgotten(t)
  {
    if !Owed(hw, s) {
      var i :| 0 <= i < |s.entries| && s.entries[i].armed && !Expected(hw, Busy(s), s.entries[i].cpu);
      assert Orphan(hw, s, i);
      t := OrphanIsForgotten(hw, s, i);
    } else if s.worker.Looked? {
      t := LookedIsForgotten(hw, s);
    } else if !s.worker.Dozing? {
      t := ArmedIsForgotten(hw, s);
    } else if c :| c in Busy(s) {
      assert Busy(s) != {c};
      var d :| d in Busy(s) && d != c;
      t := EarlyWakeIsForgotten(hw, s, c, d);
    } else {
      t := s;
      ForgottenIsEnd(hw, s);
    }
  }

  /** In every state of every run, for all injective ids: a batch that waits at the barrier
      is freed however the worker and the handlers take turns, if and only if the barrier
      is clear and the worker does not rest, or the worker is asleep, exactly one handler
      is left and it answers for whatever is armed. */
  lemma {:induction false} AlwaysFinishesIff(hw: Hw, states: seq<State>, steps: seq<Step>, i: nat)
    requires Injective(hw.apic) && Injective(hw.arb) && Run(hw, states, steps) && i < |states| && Waiting(states[i])
    ensures AlwaysFinishes(hw, states[i]) <==> Assured(hw, states[i])
  {
    InvHolds(hw, states, steps, i);
    OnlineHolds(hw, states, steps, i);
    WaitingFinishesIff(hw, states[i]);
  }

  lemma {:induction false} WaitingFinishesIff(hw: Hw, s: State)
    requires Injective(hw.apic) && Injective(hw.arb) && Inv(hw, s) && Online(s) && Waiting(s)
    ensures AlwaysFinishes(hw, s) <==> Assured(hw, s)
  {
    if Assured(hw, s) {
      forall t | Settles(hw, s, t) && Ended(hw, t) ensures t.worker.Sleeping? {
        var states, steps :| Path(hw, states, steps) && BatchSteps(steps) && states[0] == s && states[|steps|] == t;
        SecureRun(hw, states, steps);
        SecureMoves(hw, t);
      }
    } else {
      var t := UnassuredIsForgotten(hw, s);
      ForgottenIsEnd(hw, t);
    }
  }

  /** The next free wakes a worker asleep, and the batch is then always freed exactly if the
      barrier is clear by then. */
  lemma {:induction false} NextFreeRouses(hw: Hw, states: seq<State>, steps: seq<Step>, i: nat, n: Node, u: State)
    requires Injective(hw.apic) && Injective(hw.arb) && Run(hw, states, steps) && i < |states|
    requires states[i].worker.Dozing? && CallerStep(states[i], u, FreeRange(n))
    ensures AlwaysFinishes(hw, u) <==> AllClear(states[i])
  {
    InvHolds(hw, states, steps, i);
    OnlineHolds(hw, states, steps, i);
    CallerKeepsInv(hw, states[i], u, FreeRange(n));
    WaitingFinishesIff(hw, u);
  }

  // Between batches.

  ghost predicate NoCallers(steps: seq<Step>) {
    forall i :: 0 <= i < |steps| ==> !IsCallerStep(steps[i])
  }

  /** The worker has seen an empty list and waits, or is about to, with all handlers done. */
  ghost predicate Overlooking(s: State) {
    (s.worker.Seen? || s.worker.Napping?) && Busy(s) == {}
  }

  lemma {:induction false} OverlooksOn(hw: Hw, states: seq<State>, steps: seq<Step>)
    requires Path(hw, states, steps) && NoCallers(steps) && Overlooking(states[0])
    ensures Overlooking(states[|steps|])
  {
    if steps != [] {
      var n := |steps| - 1;
      OverlooksOn(hw, states[..n + 1], steps[..n]);
      assert Next(hw, states[n], states[n + 1], steps[n]) && !IsCallerStep(steps[n]);
      if IsrStep(hw, states[n], states[n + 1], steps[n]) {
        HandlersAreBusy(hw, states[n], states[n + 1], steps[n]);
      }
    }
  }

  /** In every state of every run between batches, a pending free is taken up without
      another free, if and only if the worker has not seen the list empty before; and then
      it is the next thing that happens. */
  lemma {:induction false} FreeTakenIff(hw: Hw, states: seq<State>, steps: seq<Step>, i: nat)
    requires Injective(hw.apic) && Injective(hw.arb) && Run(hw, states, steps) && i < |states|
    requires Idle(states[i].worker) && states[i].pending != []
    ensures (exists path: seq<State>, own: seq<Step> :: Path(hw, path, own) && NoCallers(own) && path[0] == states[i] && path[|own|].worker.Arming?)
       <==> states[i].worker.Sleeping?
    ensures states[i].worker.Sleeping? ==> forall t, step :: !IsCallerStep(step) && Next(hw, states[i], t, step) ==> step.Take?
  {
    InvHolds(hw, states, steps, i);
    var s := states[i];
    assert Busy(s) == {};
    if s.worker.Sleeping? {
      var t := s.(trans := s.pending, pending := [], worker := Arming(0), batch := s.regs, done := {});
      assert Path(hw, [s, t], [Take]) && NoCallers([Take]);
    } else {
      forall path: seq<State>, own: seq<Step> | Path(hw, path, own) && NoCallers(own) && path[0] == s ensures !path[|own|].worker.Arming? {
        OverlooksOn(hw, path, own);
      }
    }
  }

  // Runs that go wrong.

  /** A page freed between the worker's look at the list and its sleep stays pending. */
  lemma {:induction false} FreeIsOverlooked(hw: Hw, s: State, p: Page) returns (t: State)
    requires Init(s) && p in s.free
    ensures Leads(hw, s, t) && t.worker.Napping? && Pages(t.pending) == {p}
  {
    SettlesHere(hw, s);
    var s1 := s.(worker := Seen);
    LeadsThen(hw, s, s, SeeNone, s1);
    var s2 := s1.(free := s.free - {p}, owned := {p});
    LeadsThen(hw, s, s1, Alloc({p}), s2);
    var n := Node(p, PAGE, {p});
    assert WellFormed(n);
    var s3 := s2.(owned := {}, pending := [n]);
    assert [n] + s2.pending == s3.pending && s2.owned - n.pages == {};
    LeadsThen(hw, s, s2, FreeRange(n), s3);
    t := s3.(worker := Napping);
    LeadsThen(hw, s, s3, Nap, t);
    PagesSplit(t.pending);
  }

  /** One handler from start to end on a batch of one page. */
  function Answered(hw: Hw, s: State, c: Cpu, p: Page): State
    requires c in s.tlb
  {
    s.(ipi := s.ipi - {c}, tlb := Dropped(s.tlb, c, p), entries := Disarmed(hw, s.entries, hw.arb(c)), done := s.done + {c},
       worker := Woken(s.worker))
  }

  lemma {:induction false} HandlerRuns(hw: Hw, s0: State, s: State, c: Cpu, p: Page)
    requires Leads(hw, s0, s) && c in s.ipi && c !in s.isr && c in s.tlb && s.trans == [Node(p, PAGE, {p})]
    ensures Leads(hw, s0, Answered(hw, s, c, p))
  {
    var s1 := s.(ipi := s.ipi - {c}, isr := s.isr[c := Walking(s.trans, 0)]);
    LeadsThen(hw, s0, s, IsrStart(c), s1);
    HandlerWalks(hw, s0, s1, c, p);
    var s3 := s1.(tlb := Dropped(s1.tlb, c, p), isr := s1.isr[c := Walking([], 0)]);
    var s4 := Answered(hw, s, c, p);
    assert s3.isr - {c} == s.isr;
    LeadsThen(hw, s0, s3, IsrDisarm(c), s4);
  }

  lemma {:induction false} HandlerWalks(hw: Hw, s0: State, s: State, c: Cpu, p: Page)
    requires Leads(hw, s0, s) && c in s.isr && c in s.tlb && s.isr[c] == Walking([Node(p, PAGE, {p})], 0)
    ensures Leads(hw, s0, s.(tlb := Dropped(s.tlb, c, p), isr := s.isr[c := Walking([], 0)]))
  {
    var nodes := [Node(p, PAGE, {p})];
    var s1 := s.(tlb := Dropped(s.tlb, c, p), isr := s.isr[c := Walking(nodes, PAGE)]);
    LeadsThen(hw, s0, s, IsrInvalidate(c), s1);
    var s2 := s1.(isr := s1.isr[c := Walking([], 0)]);
    assert s1.isr[c].rest[1..] == [];
    LeadsThen(hw, s0, s1, IsrNextNode(c), s2);
    assert s2.isr == s.isr[c := Walking([], 0)];
  }

  /** One page taken for freeing. */
  function Taken(s: State, p: Page): State {
    s.(free := s.free - {p}, trans := [Node(p, PAGE, {p})], worker := Arming(0), batch := s.regs, done := {})
  }

  lemma {:induction false} ReachTaken(hw: Hw, s0: State, s: State, p: Page)
    requires Leads(hw, s0, s) && s.worker.Sleeping? && s.pending == [] && s.owned == {} && s.mapped == {} && p in s.free
    ensures Leads(hw, s0, Taken(s, p))
  {
    var s1 := s.(free := s.free - {p}, owned := {p});
    LeadsThen(hw, s0, s, Alloc({p}), s1);
    var n := Node(p, PAGE, {p});
    assert WellFormed(n);
    var s2 := s1.(owned := {}, pending := [n]);
    assert [n] + s1.pending == s2.pending && s1.owned - n.pages == {};
    LeadsThen(hw, s0, s1, FreeRange(n), s2);
    LeadsThen(hw, s0, s2, Take, Taken(s, p));
  }

  lemma {:induction false} ReachRegistered(hw: Hw, s0: State, s: State, c: Cpu)
    requires Leads(hw, s0, s) && s.worker.Sleeping? && c in s.tlb && c !in s.regs
    ensures Leads(hw, s0, s.(entries := [Entry(c, false)] + s.entries, regs := s.regs + {c}))
  {
    LeadsThen(hw, s0, s, Register(c), s.(entries := [Entry(c, false)] + s.entries, regs := s.regs + {c}));
  }

  ghost predicate Swapped(hw: Hw, a: Cpu, b: Cpu) {
    && hw.enabled && Injective(hw.apic) && Injective(hw.arb)
    && a != b && hw.arb(a) == hw.apic(b) && hw.arb(b) == hw.apic(a)
  }

  lemma {:induction false} SwappedDisarm(hw: Hw, a: Cpu, b: Cpu, x: bool, y: bool)
    requires Swapped(hw, a, b)
    ensures Disarmed(hw, [Entry(a, x), Entry(b, y)], hw.arb(a)) == [Entry(a, x), Entry(b, false)]
    ensures Disarmed(hw, [Entry(a, x), Entry(b, y)], hw.arb(b)) == [Entry(a, false), Entry(b, y)]
  {
    var es := [Entry(a, x), Entry(b, y)];
    assert es[1..] == [Entry(b, y)];
  }

  /** Entry k is armed, and its CPU's handler runs at once. */
  lemma {:induction false} ArmAndAnswer(hw: Hw, s0: State, s: State, c: Cpu, p: Page, k: nat) returns (t: State)
    requires hw.enabled && Leads(hw, s0, s) && s.worker == Arming(k) && k < |s.entries| && s.entries[k].cpu == c
    requires s.ipi == {} && c !in s.isr && c in s.tlb && s.trans == [Node(p, PAGE, {p})]
    ensures Leads(hw, s0, t) && t.entries == Disarmed(hw, s.entries[k := Entry(c, true)], hw.arb(c))
    ensures t.worker == Arming(k + 1) && t.ipi == {} && t.isr == s.isr && t.trans == s.trans && t.tlb.Keys == s.tlb.Keys
  {
    var u := s.(entries := s.entries[k := Entry(c, true)], ipi := {c}, worker := Arming(k + 1));
    LeadsThen(hw, s0, s, Arm, u);
    HandlerRuns(hw, s0, u, c, p);
    t := Answered(hw, u, c, p);
  }

  /** With swapped ids there is a run after which nobody will answer for b: a finishes
      before the entry of b is armed, and b's handler answers for a. From there on the
      worker waits whatever anybody does. */
  lemma {:induction false} SwappedIdsWaitForEver(hw: Hw, s: State, a: Cpu, b: Cpu, p: Page) returns (t: State)
    requires Swapped(hw, a, b) && Init(s) && a in s.tlb && b in s.tlb && p in s.free
    ensures Leads(hw, s, t) && Waiting(t) && forall u :: Leads(hw, t, u) ==> Waiting(u)
  {
    SettlesHere(hw, s);
    ReachRegistered(hw, s, s, b);
    var r := s.(entries := [Entry(b, false)], regs := {b});
    assert [Entry(b, false)] + s.entries == r.entries && s.regs + {b} == r.regs;
    ReachRegistered(hw, s, r, a);
    var r2 := r.(entries := [Entry(a, false)] + r.entries, regs := r.regs + {a});
    ReachTaken(hw, s, r2, p);
    var s1 := Taken(r2, p);
    var s2 := ArmAndAnswer(hw, s, s1, a, p, 0);
    assert s1.entries[0 := Entry(a, true)] == [Entry(a, true), Entry(b, false)];
    SwappedDisarm(hw, a, b, true, false);
    var s3 := ArmAndAnswer(hw, s, s2, b, p, 1);
    assert s2.entries[1 := Entry(b, true)] == [Entry(a, true), Entry(b, true)];
    SwappedDisarm(hw, a, b, true, true);
    t := s3.(worker := Polling);
    LeadsThen(hw, s, s3, ArmDone, t);
    StuckWithOrphan(hw, s, t, 1);
  }

  lemma {:induction false} StuckWithOrphan(hw: Hw, s: State, t: State, i: nat)
    requires Injective(hw.apic) && Injective(hw.arb) && Init(s) && Leads(hw, s, t) && Waiting(t) && Orphan(hw, t, i)
    ensures forall u :: Leads(hw, t, u) ==> Waiting(u)
  {
    var states, steps :| Path(hw, states, steps) && states[0] == s && states[|steps|] == t;
    InvHolds(hw, states, steps, |steps|);
    OrphanNeverServed(hw, t, i);
  }

  /** The lost wake-up, with a single CPU and equal ids: the handler finishes between the
      worker's look at the barrier and its sleep. The barrier is clear, and nothing but
      somebody else's free gets the worker up again. */
  lemma {:induction false} WakeUpIsLost(hw: Hw, s: State, c: Cpu, p: Page) returns (t: State)
    requires hw.enabled && hw.arb(c) == hw.apic(c) && Init(s) && c in s.tlb && p in s.free
    ensures Leads(hw, s, t) && t.worker.Dozing? && AllClear(t) && forall u :: Settles(hw, t, u) ==> Resting(u)
  {
    SettlesHere(hw, s);
    ReachRegistered(hw, s, s, c);
    var r := s.(entries := [Entry(c, false)], regs := {c});
    assert [Entry(c, false)] + s.entries == r.entries && s.regs + {c} == r.regs;
    ReachTaken(hw, s, r, p);
    var s1 := LookAtArmed(hw, s, Taken(r, p), c);
    HandlerRuns(hw, s, s1, c, p);
    var s2 := Answered(hw, s1, c, p);
    t := s2.(worker := Dozing);
    LeadsThen(hw, s, s2, Doze, t);
    forall u | Settles(hw, t, u) ensures Resting(u) {
      var states, steps :| Path(hw, states, steps) && BatchSteps(steps) && states[0] == t && states[|steps|] == u;
      RestsForEver(hw, states, steps);
    }
  }

  /** Without registration nothing is promised: a page that a CPU which did not register
      still caches goes back to the free list. */
  lemma {:induction false} StaleWithoutRegistration(hw: Hw, s: State, c: Cpu, p: Page) returns (t: State)
    requires Init(s) && c in s.tlb && p in s.free
    ensures Leads(hw, s, t) && p in t.free && c in t.tlb && p in t.tlb[c]
  {
    SettlesHere(hw, s);
    var s1 := s.(free := s.free - {p}, owned := {p});
    LeadsThen(hw, s, s, Alloc({p}), s1);
    var s2 := s1.(mapped := {p});
    LeadsThen(hw, s, s1, Map(p), s2);
    var s3 := s2.(tlb := s.tlb[c := {p}]);
    LeadsThen(hw, s, s2, Fill(c, p), s3);
    var s4 := s3.(mapped := {});
    LeadsThen(hw, s, s3, Unmap(p), s4);
    t := FreedUnseen(hw, s, s4, p);
  }

  /** A batch without registered CPUs. */
  lemma {:induction false} FreedUnseen(hw: Hw, s0: State, s: State, p: Page) returns (t: State)
    requires Leads(hw, s0, s) && s.worker.Sleeping? && s.entries == [] && s.pending == [] && s.owned == {p} && s.mapped == {}
    ensures Leads(hw, s0, t) && p in t.free && t.tlb == s.tlb
  {
    var n := Node(p, PAGE, {p});
    assert WellFormed(n);
    var s1 := s.(owned := {}, pending := [n]);
    assert [n] + s.pending == s1.pending && s.owned - n.pages == {};
    LeadsThen(hw, s0, s, FreeRange(n), s1);
    var s2 := s1.(trans := [n], pending := [], worker := Arming(0), batch := s.regs, done := {});
    LeadsThen(hw, s0, s1, Take, s2);
    NobodyToAsk(hw, s0, s2);
    var s3 := s2.(worker := Freeing);
    t := s3.(free := s.free + {p}, trans := [n][1..], guard := s3.guard + (map q | q in n.pages :: s3.batch));
    LeadsThen(hw, s0, s3, FreeOne, t);
  }

  lemma {:induction false} NobodyToAsk(hw: Hw, s0: State, s: State)
    requires Leads(hw, s0, s) && s.worker == Arming(0) && s.entries == []
    ensures Leads(hw, s0, s.(worker := Freeing))
  {
    var s1 := s.(worker := Polling);
    LeadsThen(hw, s0, s, ArmDone, s1);
    var s2 := s.(worker := Checking(0));
    LeadsThen(hw, s0, s1, CheckStart, s2);
    LeadsThen(hw, s0, s2, CheckDone, s.(worker := Freeing));
  }

  /** The only entry is armed and found armed. */
  lemma {:induction false} LookAtArmed(hw: Hw, s0: State, s: State, c: Cpu) returns (t: State)
    requires hw.enabled && Leads(hw, s0, s) && s.worker == Arming(0) && s.entries == [Entry(c, false)] && s.ipi == {}
    ensures t == s.(entries := [Entry(c, true)], ipi := {c}, worker := Looked) && Leads(hw, s0, t)
  {
    var s1 := s.(entries := [Entry(c, true)], ipi := {c}, worker := Arming(1));
    LeadsThen(hw, s0, s, Arm, s1);
    LeadsThen(hw, s0, s1, ArmDone, s1.(worker := Polling));
    LeadsThen(hw, s0, s1.(worker := Polling), CheckStart, s1.(worker := Checking(0)));
    t := s1.(worker := Looked);
    LeadsThen(hw, s0, s1.(worker := Checking(0)), CheckEntry, t);
  }
}
