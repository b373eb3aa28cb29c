/**
  Deferred freeing of virtual pages: the worker loop of mm.c that arms a barrier
  entry per registered CPU, and the interrupt handler of ipi.c that invalidates
  the pages of the batch and then disarms an entry. Every interleaving of the
  steps of the worker, the handlers, the callers and the TLBs is covered.
 */
module Shootdown {
  import Ranges

  const PAGE := 0x1000

  type Cpu = nat
  type Page = nat

  /** One mm_free_v call, with the pages it covers. */
  datatype Node = Node(base: nat, size: nat, pages: set<Page>)

  /** The invalidation loop visits base, base + 4K, ... below base + size. */
  predicate PageIn(p: Page, base: nat, size: nat) {
    base <= p < base + size && (p - base) % PAGE == 0
  }

  ghost predicate WellFormed(n: Node) {
    forall p {:trigger PageIn(p, n.base, n.size)} :: p in n.pages <==> PageIn(p, n.base, n.size)
  }

  /** mm_free rounds the size up to whole pages. The pages given back are the pages
      that were invalidated: rounding adds none. */
  lemma {:induction false} FreedPagesAreInvalidated(p: Page, base: nat, size: nat)
    ensures PageIn(p, base, size) <==> base <= p < base + Ranges.RoundUp(size) && (p - base) % PAGE == 0
  {
  }

  /** All pages of a list of frees. */
  function Pages(nodes: seq<Node>): set<Page> {
    set n, p | n in nodes && p in n.pages :: p
  }

  /** No page is in the list twice. */
  ghost predicate Distinct(nodes: seq<Node>) {
    forall i, j :: 0 <= i < j < |nodes| ==> nodes[i].pages !! nodes[j].pages
  }

  lemma {:induction false} PagesSplit(nodes: seq<Node>)
    requires nodes != []
    ensures Pages(nodes) == nodes[0].pages + Pages(nodes[1..])
    ensures Distinct(nodes) ==> nodes[0].pages !! Pages(nodes[1..]) && Distinct(nodes[1..])
  {
    assert nodes == [nodes[0]] + nodes[1..];
    forall p | p in nodes[0].pages ensures p in Pages(nodes) {
      assert nodes[0] in nodes;
    }
    forall p | p in Pages(nodes[1..]) ensures p in Pages(nodes) {
      var n :| n in nodes[1..] && p in n.pages;
      assert n in nodes;
    }
    if Distinct(nodes) {
      forall p | p in Pages(nodes[1..]) ensures p !in nodes[0].pages {
        var n :| n in nodes[1..] && p in n.pages;
        var j :| 0 <= j < |nodes[1..]| && nodes[1..][j] == n;
        assert nodes[j + 1] == n;
      }
    }
  }

  /** A barrier entry: registered under the APIC id of `cpu`. */
  datatype Entry = Entry(cpu: Cpu, armed: bool)

  /** Where the interrupt handler of one CPU is in the list. */
  datatype Isr = Walking(rest: seq<Node>, off: nat)

  /** Where free_all_pending is. Between batches it is `Sleeping` its fixed time, has
      `Seen` that nothing is pending, or is `Napping` in signal_wait. At the barrier it has
      `Looked` when it found an entry armed and gave up the lock, and is `Dozing` once it
      waits in signal_wait. */
  datatype Worker = Sleeping | Seen | Napping | Arming(k: nat) | Polling | Checking(k: nat) | Looked | Dozing | Freeing

  predicate Idle(w: Worker) {
    w.Sleeping? || w.Seen? || w.Napping?
  }

  /** signal_awake: whoever waits by then looks again. */
  function Woken(w: Worker): Worker {
    if w.Dozing? then Polling else if w.Napping? then Sleeping else w
  }

  /** Fixed hardware facts: APIC ids, arbitration ids, and whether the shootdown
      vector is installed. */
  datatype Hw = Hw(apic: Cpu -> nat, arb: Cpu -> nat, enabled: bool)

  ghost predicate Injective(f: Cpu -> nat) {
    forall a, b :: f(a) == f(b) ==> a == b
  }

  datatype State = State(
    entries: seq<Entry>,        // disarm_list
    regs: set<Cpu>,             // the CPUs on it
    pending: seq<Node>,         // pending_free
    trans: seq<Node>,           // transaction_list
    free: set<Page>,            // pages on the free list
    owned: set<Page>,           // pages handed out
    mapped: set<Page>,          // pages with a translation
    tlb: map<Cpu, set<Page>>,   // cached translations
    ipi: set<Cpu>,              // shootdown interrupts sent, not yet taken
    isr: map<Cpu, Isr>,         // handlers running
    worker: Worker,
    batch: set<Cpu>,            // CPUs registered when the batch was armed
    done: set<Cpu>,             // CPUs whose handler finished in this batch
    guard: map<Page, set<Cpu>>) // for a freed page, the batch that freed it

  ghost predicate LockHeld(s: State) {
    s.worker.Arming? || s.worker.Checking?
  }

  datatype Step =
    | Alloc(ps: set<Page>)
    | Map(p: Page)
    | Unmap(p: Page)
    | Fill(c: Cpu, p: Page)
    | Evict(c: Cpu, p: Page)
    | FreeRange(n: Node)
    | Register(c: Cpu)
    | SeeNone
    | Nap
    | Take
    | Arm
    | ArmDone
    | CheckStart
    | CheckEntry
    | Doze
    | CheckDone
    | FreeOne
    | FreeDone
    | IsrStart(c: Cpu)
    | IsrInvalidate(c: Cpu)
    | IsrNextNode(c: Cpu)
    | IsrDisarm(c: Cpu)

  /** First entry registered under `id` is disarmed. */
  function Disarmed(hw: Hw, es: seq<Entry>, id: nat): seq<Entry> {
    if es == [] then []
    else if hw.apic(es[0].cpu) == id then [es[0].(armed := false)] + es[1..]
    else [es[0]] + Disarmed(hw, es[1..], id)
  }

  /** Steps of the callers and of the hardware. */
  ghost predicate CallerStep(s: State, s': State, step: Step) {
    match step
    case Alloc(ps) => ps <= s.free && s' == s.(free := s.free - ps, owned := s.owned + ps)
    case Map(p) => p in s.owned && s' == s.(mapped := s.mapped + {p})
    case Unmap(p) => s' == s.(mapped := s.mapped - {p})
    case Fill(c, p) => c in s.tlb && p in s.mapped && s' == s.(tlb := s.tlb[c := s.tlb[c] + {p}])
    case Evict(c, p) => c in s.tlb && s' == s.(tlb := s.tlb[c := s.tlb[c] - {p}])
    case FreeRange(n) =>
      && !LockHeld(s) && WellFormed(n) && n.pages <= s.owned && n.pages !! s.mapped
      && s' == s.(owned := s.owned - n.pages, pending := [n] + s.pending, worker := Woken(s.worker))
    case Register(c) =>
      && !LockHeld(s) && c in s.tlb && c !in s.regs
      && s' == s.(entries := [Entry(c, false)] + s.entries, regs := s.regs + {c})
    case _ => false
  }

  /** Steps of free_all_pending. */
  ghost predicate WorkerStep(hw: Hw, s: State, s': State, step: Step) {
    match step
    case SeeNone => s.worker.Sleeping? && s.pending == [] && s' == s.(worker := Seen)
    case Nap => s.worker.Seen? && s' == s.(worker := Napping)
    case Take =>
      && s.worker.Sleeping? && s.pending != []
      && s' == s.(trans := s.pending, pending := [], worker := Arming(0), batch := s.regs, done := {})
    case Arm =>
      && s.worker.Arming? && s.worker.k < |s.entries|
      && var k := s.worker.k;
         s' == s.(entries := s.entries[k := s.entries[k].(armed := true)],
                  ipi := if hw.enabled then s.ipi + {s.entries[k].cpu} else s.ipi, worker := Arming(k + 1))
    case ArmDone => s.worker.Arming? && s.worker.k == |s.entries| && s' == s.(worker := Polling)
    case CheckStart => s.worker.Polling? && s' == s.(worker := Checking(0))
    case CheckEntry =>
      && s.worker.Checking? && s.worker.k < |s.entries|
      && s' == s.(worker := if s.entries[s.worker.k].armed then Looked else Checking(s.worker.k + 1))
    case Doze => s.worker.Looked? && s' == s.(worker := Dozing)
    case CheckDone => s.worker.Checking? && s.worker.k == |s.entries| && s' == s.(worker := Freeing)
    case FreeOne =>
      && s.worker.Freeing? && s.trans != []
      && s' == s.(free := s.free + s.trans[0].pages, trans := s.trans[1..],
                  guard := s.guard + (map p | p in s.trans[0].pages :: s.batch))
    case FreeDone => s.worker.Freeing? && s.trans == [] && s' == s.(worker := Sleeping, batch := {}, done := {})
    case _ => false
  }

  /** invlpg on one CPU. */
  function Dropped(tlb: map<Cpu, set<Page>>, c: Cpu, p: Page): map<Cpu, set<Page>>
    requires c in tlb
  {
    tlb[c := tlb[c] - {p}]
  }

  /** Steps of apic_tlb_shootdown_dispatch on one CPU. */
  ghost predicate IsrStep(hw: Hw, s: State, s': State, step: Step) {
    match step
    case IsrStart(c) =>
      && c in s.ipi && c !in s.isr
      && s' == s.(ipi := s.ipi - {c}, isr := s.isr[c := Walking(s.trans, 0)])
    case IsrInvalidate(c) =>
      && c in s.isr && c in s.tlb && s.isr[c].rest != [] && s.isr[c].off < s.isr[c].rest[0].size
      && s' == s.(tlb := Dropped(s.tlb, c, s.isr[c].rest[0].base + s.isr[c].off),
                  isr := s.isr[c := Walking(s.isr[c].rest, s.isr[c].off + PAGE)])
    case IsrNextNode(c) =>
      && c in s.isr && s.isr[c].rest != [] && s.isr[c].off >= s.isr[c].rest[0].size
      && s' == s.(isr := s.isr[c := Walking(s.isr[c].rest[1..], 0)])
    case IsrDisarm(c) =>
      && c in s.isr && s.isr[c].rest == []
      && s' == s.(isr := s.isr - {c}, entries := Disarmed(hw, s.entries, hw.arb(c)), done := s.done + {c},
                  worker := Woken(s.worker))
    case _ => false
  }

  ghost predicate Next(hw: Hw, s: State, s': State, step: Step) {
    CallerStep(s, s', step) || WorkerStep(hw, s, s', step) || IsrStep(hw, s, s', step)
  }

  ghost predicate Init(s: State) {
    && s.entries == [] && s.regs == {} && s.pending == [] && s.trans == [] && s.owned == {} && s.mapped == {}
    && (forall c :: c in s.tlb ==> s.tlb[c] == {})
    && s.ipi == {} && s.isr == map[] && s.worker == Sleeping && s.batch == {} && s.done == {} && s.guard == map[]
  }

  // The invariant.

  ghost predicate HasEntry(entries: seq<Entry>, c: Cpu) {
    exists i :: 0 <= i < |entries| && entries[i].cpu == c
  }

  /** One entry per registered CPU. */
  ghost predicate EntriesOK(entries: seq<Entry>, regs: set<Cpu>) {
    && (forall i, j :: 0 <= i < j < |entries| ==> entries[i].cpu != entries[j].cpu)
    && (forall i :: 0 <= i < |entries| ==> entries[i].cpu in regs)
    && (forall c {:trigger HasEntry(entries, c)} :: c in regs ==> HasEntry(entries, c))
  }

  /** A page is free, handed out, or waiting in exactly one batch; only pages
      that are handed out are mapped. */
  ghost predicate PagesOK(free: set<Page>, owned: set<Page>, mapped: set<Page>, pending: seq<Node>, trans: seq<Node>) {
    && mapped <= owned
    && free !! owned !! Pages(pending) !! Pages(trans)
    && Distinct(pending) && Distinct(trans)
    && (forall n :: n in pending || n in trans ==> WellFormed(n))
  }

  /** Entry `i` belongs to the batch and has been armed already. */
  ghost predicate WasArmed(entries: seq<Entry>, batch: set<Cpu>, worker: Worker, i: nat)
    requires i < |entries|
  {
    entries[i].cpu in batch && (worker.Arming? ==> i < worker.k)
  }

  /** Some finished handler answered for the entry of `cpu`. */
  ghost predicate Answered(hw: Hw, done: set<Cpu>, cpu: Cpu) {
    exists c :: c in done && hw.arb(c) == hw.apic(cpu)
  }

  /** Handlers run only for CPUs of the batch, each at most once. */
  ghost predicate HandlersOK(batch: set<Cpu>, ipi: set<Cpu>, active: set<Cpu>, done: set<Cpu>) {
    && ipi <= batch && active <= batch && done <= batch
    && ipi !! active && ipi !! done && active !! done
  }

  /** While entries are being armed the list is locked, and CPUs whose turn has
      not come have not been interrupted. */
  ghost predicate ArmingOK(entries: seq<Entry>, busy: set<Cpu>, worker: Worker) {
    worker.Arming? ==>
      && worker.k <= |entries|
      && forall i :: worker.k <= i < |entries| ==> entries[i].cpu !in busy
  }

  /** An entry that was armed and is clear again was cleared by a handler that
      finished. */
  ghost predicate ClearedOK(hw: Hw, entries: seq<Entry>, batch: set<Cpu>, done: set<Cpu>, worker: Worker) {
    !Idle(worker) && !worker.Freeing? ==>
      forall i :: 0 <= i < |entries| && WasArmed(entries, batch, worker, i) && !entries[i].armed ==>
        Answered(hw, done, entries[i].cpu)
  }

  ghost predicate PhaseOK(entries: seq<Entry>, trans: seq<Node>, batch: set<Cpu>, done: set<Cpu>, worker: Worker) {
    match worker
    case Sleeping => batch == {} && trans == []
    case Seen => batch == {} && trans == []
    case Napping => batch == {} && trans == []
    case Checking(k) => k <= |entries| && forall i :: 0 <= i < k ==> !entries[i].armed
    case Freeing => done == batch
    case _ => true
  }

  /** `rest` is what is left of the transaction list. */
  ghost predicate Suffix(rest: seq<Node>, trans: seq<Node>) {
    |rest| <= |trans| && rest == trans[|trans| - |rest|..]
  }

  /** Pages still to be invalidated by a handler. */
  function Ahead(w: Isr): set<Page> {
    if w.rest == [] then {}
    else (set p | p in w.rest[0].pages && p >= w.rest[0].base + w.off) + Pages(w.rest[1..])
  }

  /** Finished CPUs cache no page of the batch. */
  ghost predicate DoneOK(tlb: map<Cpu, set<Page>>, done: set<Cpu>, batch: set<Page>) {
    forall c :: c in done && c in tlb ==> tlb[c] !! batch
  }

  /** A running handler walks live list nodes, and what its CPU still caches of
      the batch lies ahead of it. */
  ghost predicate WalkOK(cached: set<Page>, w: Isr, trans: seq<Node>) {
    Suffix(w.rest, trans) && w.off % PAGE == 0 && cached * Pages(trans) <= Ahead(w)
  }

  ghost predicate WalksOK(tlb: map<Cpu, set<Page>>, isr: map<Cpu, Isr>, trans: seq<Node>) {
    forall c :: c in isr && c in tlb ==> WalkOK(tlb[c], isr[c], trans)
  }

  ghost predicate GuardOK(tlb: map<Cpu, set<Page>>, free: set<Page>, guard: map<Page, set<Cpu>>) {
    forall c, p :: c in tlb && p in tlb[c] && p in free && p in guard ==> c !in guard[p]
  }

  ghost predicate Inv(hw: Hw, s: State) {
    && EntriesOK(s.entries, s.regs)
    && PagesOK(s.free, s.owned, s.mapped, s.pending, s.trans)
    && s.batch <= s.regs && (s.worker.Arming? ==> s.batch == s.regs)
    && HandlersOK(s.batch, s.ipi, s.isr.Keys, s.done)
    && ArmingOK(s.entries, s.ipi + s.isr.Keys + s.done, s.worker)
    && ClearedOK(hw, s.entries, s.batch, s.done, s.worker)
    && PhaseOK(s.entries, s.trans, s.batch, s.done, s.worker)
    && DoneOK(s.tlb, s.done, Pages(s.trans))
    && WalksOK(s.tlb, s.isr, s.trans)
    && GuardOK(s.tlb, s.free, s.guard)
  }

  /** No page on the free list is cached by a CPU that was registered when the
      batch that freed it was armed. */
  ghost predicate Safe(s: State) {
    forall c, p :: p in s.free && p in s.guard && c in s.guard[p] && c in s.tlb ==> p !in s.tlb[c]
  }

  lemma {:induction false} InvImpliesSafe(hw: Hw, s: State)
    requires Inv(hw, s)
    ensures Safe(s)
  {
  }

  // Counting: a full set of cleared entries needs a handler from every CPU.

  /** If every id of `targets` is the arbitration id of some CPU in `finished`,
      and ids are unique, then there are at least as many finished CPUs. */
  lemma {:induction false} CountFinished(hw: Hw, targets: set<Cpu>, finished: set<Cpu>)
    requires Injective(hw.apic) && Injective(hw.arb)
    requires forall b :: b in targets ==> exists c :: c in finished && hw.arb(c) == hw.apic(b)
    ensures |targets| <= |finished|
    decreases targets
  {
    if targets != {} {
      var b :| b in targets;
      var c :| c in finished && hw.arb(c) == hw.apic(b);
      forall b' | b' in targets - {b}
        ensures exists c' :: c' in finished - {c} && hw.arb(c') == hw.apic(b')
      {
        var c' :| c' in finished && hw.arb(c') == hw.apic(b');
        assert c' != c;
      }
      CountFinished(hw, targets - {b}, finished - {c});
    }
  }

  lemma {:induction false} SubsetSameSize(a: set<Cpu>, b: set<Cpu>)
    requires a <= b && |b| <= |a|
    ensures a == b
  {
    forall x | x in b ensures x in a {
      if x !in a {
        SubsetSize(a, b - {x});
      }
    }
  }

  lemma {:induction false} SubsetSize(a: set<Cpu>, b: set<Cpu>)
    requires a <= b
    ensures |a| <= |b|
  {
    if a != {} {
      var x :| x in a;
      SubsetSize(a - {x}, b - {x});
    }
  }

  /** When the worker has seen every entry clear, all CPUs of the batch have
      finished and no handler is running. */
  lemma {:induction false} AllFinished(hw: Hw, s: State)
    requires Injective(hw.apic) && Injective(hw.arb) && Inv(hw, s)
    requires s.worker.Checking? && s.worker.k == |s.entries|
    ensures s.done == s.batch && s.ipi == {} && s.isr == map[]
  {
    ClearIsFinished(hw, s);
  }

  /** Behind the arming, clear entries mean finished CPUs, wherever the worker is. */
  lemma {:induction false} ClearIsFinished(hw: Hw, s: State)
    requires Injective(hw.apic) && Injective(hw.arb) && Inv(hw, s)
    requires !Idle(s.worker) && !s.worker.Arming? && !s.worker.Freeing? && forall i :: 0 <= i < |s.entries| ==> !s.entries[i].armed
    ensures s.done == s.batch && s.ipi == {} && s.isr == map[]
  {
    forall b | b in s.batch
      ensures exists c :: c in s.done && hw.arb(c) == hw.apic(b)
    {
      assert HasEntry(s.entries, b);
      var i :| 0 <= i < |s.entries| && s.entries[i].cpu == b;
      assert WasArmed(s.entries, s.batch, s.worker, i);
      assert Answered(hw, s.done, b);
    }
    CountFinished(hw, s.batch, s.done);
    SubsetSameSize(s.done, s.batch);
  }

  // Preservation, one lemma per kind of step.

  lemma {:induction false} DisarmedFacts(hw: Hw, es: seq<Entry>, id: nat)
    ensures var r := Disarmed(hw, es, id);
      && |r| == |es|
      && (forall i :: 0 <= i < |es| ==> r[i].cpu == es[i].cpu)
      && (forall i :: 0 <= i < |es| && r[i].armed != es[i].armed ==> hw.apic(es[i].cpu) == id && !r[i].armed)
  {
    if es != [] && hw.apic(es[0].cpu) != id {
      DisarmedFacts(hw, es[1..], id);
    }
  }

  lemma {:induction false} CallerKeepsInv(hw: Hw, s: State, s': State, step: Step)
    requires Inv(hw, s) && CallerStep(s, s', step)
    ensures Inv(hw, s')
  {
    match step
    case Alloc(ps) =>
    case Map(p) =>
    case Unmap(p) =>
    case Fill(c, p) => FillKeepsInv(hw, s, s', c, p);
    case Evict(c, p) => assert s'.tlb.Keys == s.tlb.Keys;
    case FreeRange(n) => FreeRangeKeepsInv(hw, s, s', n);
    case Register(c) => RegisterKeepsInv(hw, s, s', c);
    case _ =>
  }

  lemma {:induction false} FillKeepsInv(hw: Hw, s: State, s': State, c: Cpu, p: Page)
    requires Inv(hw, s) && CallerStep(s, s', Fill(c, p))
    ensures Inv(hw, s')
  {
    assert p !in Pages(s.trans) && p !in s.free;
    assert s'.tlb.Keys == s.tlb.Keys;
  }

  lemma {:induction false} FreeRangeKeepsInv(hw: Hw, s: State, s': State, n: Node)
    requires Inv(hw, s) && CallerStep(s, s', FreeRange(n))
    ensures Inv(hw, s')
  {
    PagesSplit(s'.pending);
    assert s'.pending[1..] == s.pending;
    forall i, j | 0 <= i < j < |s'.pending| ensures s'.pending[i].pages !! s'.pending[j].pages {
      if i == 0 {
        assert s'.pending[j] in s.pending;
      }
    }
  }

  lemma {:induction false} RegisterKeepsInv(hw: Hw, s: State, s': State, c: Cpu)
    requires Inv(hw, s) && CallerStep(s, s', Register(c))
    ensures Inv(hw, s')
  {
    assert forall i :: 0 <= i < |s'.entries| ==> s'.entries[i] == if i == 0 then Entry(c, false) else s.entries[i - 1];
    forall b | b in s'.regs ensures HasEntry(s'.entries, b) {
      if b == c {
        assert s'.entries[0].cpu == c;
      } else {
        assert HasEntry(s.entries, b);
        var i :| 0 <= i < |s.entries| && s.entries[i].cpu == b;
        assert s'.entries[i + 1].cpu == b;
      }
    }
    forall i | 0 <= i < |s'.entries| && WasArmed(s'.entries, s'.batch, s'.worker, i)
      ensures i > 0 && s'.entries[i] == s.entries[i - 1] && WasArmed(s.entries, s.batch, s.worker, i - 1)
    {
    }
  }

  lemma {:induction false} WorkerKeepsInv(hw: Hw, s: State, s': State, step: Step)
    requires Injective(hw.apic) && Injective(hw.arb) && Inv(hw, s) && WorkerStep(hw, s, s', step)
    ensures Inv(hw, s')
  {
    match step
    case SeeNone =>
    case Nap =>
    case Take =>
    case Arm => ArmKeepsInv(hw, s, s');
    case ArmDone =>
    case CheckStart =>
    case CheckEntry =>
    case Doze =>
    case CheckDone => AllFinished(hw, s);
    case FreeOne => FreeOneKeepsInv(hw, s, s');
    case FreeDone =>
    case _ =>
  }

  lemma {:induction false} ArmKeepsInv(hw: Hw, s: State, s': State)
    requires Inv(hw, s) && WorkerStep(hw, s, s', Arm)
    ensures Inv(hw, s')
  {
    assert forall i :: 0 <= i < |s.entries| ==> s'.entries[i].cpu == s.entries[i].cpu;
    SameCpus(s.entries, s'.entries, s.regs);
    forall i | 0 <= i < |s'.entries| && WasArmed(s'.entries, s'.batch, s'.worker, i) && !s'.entries[i].armed
      ensures Answered(hw, s'.done, s'.entries[i].cpu)
    {
      assert i != s.worker.k && WasArmed(s.entries, s.batch, s.worker, i);
    }
  }

  lemma {:induction false} FreeOneKeepsInv(hw: Hw, s: State, s': State)
    requires Inv(hw, s) && WorkerStep(hw, s, s', FreeOne)
    ensures Inv(hw, s')
  {
    PagesSplit(s.trans);
    assert s.isr.Keys == {};
    forall c, p | c in s'.tlb && p in s'.tlb[c] && p in s'.free && p in s'.guard
      ensures c !in s'.guard[p]
    {
      if p in s.trans[0].pages {
        assert p in Pages(s.trans);
      }
    }
  }

  lemma {:induction false} IsrKeepsInv(hw: Hw, s: State, s': State, step: Step)
    requires Inv(hw, s) && IsrStep(hw, s, s', step)
    ensures Inv(hw, s')
  {
    match step
    case IsrStart(c) => IsrStartKeepsInv(hw, s, s', c);
    case IsrInvalidate(c) => IsrInvalidateKeepsInv(hw, s, s', c);
    case IsrNextNode(c) => IsrNextNodeKeepsInv(hw, s, s', c);
    case IsrDisarm(c) => IsrDisarmKeepsInv(hw, s, s', c);
    case _ =>
  }

  lemma {:induction false} AllAhead(trans: seq<Node>)
    requires forall n :: n in trans ==> WellFormed(n)
    ensures Pages(trans) == Ahead(Walking(trans, 0))
  {
    if trans != [] {
      PagesSplit(trans);
      assert trans[0] in trans;
      forall p | p in trans[0].pages ensures p >= trans[0].base {
        assert PageIn(p, trans[0].base, trans[0].size);
      }
    }
  }

  lemma {:induction false} IsrStartKeepsInv(hw: Hw, s: State, s': State, c: Cpu)
    requires Inv(hw, s) && IsrStep(hw, s, s', IsrStart(c))
    ensures Inv(hw, s')
  {
    AllAhead(s.trans);
    assert s'.ipi + s'.isr.Keys + s'.done == s.ipi + s.isr.Keys + s.done;
  }

  /** Past offset `off` the next page of a node is one page further. */
  lemma {:induction false} NextOffset(p: Page, n: Node, off: nat)
    requires WellFormed(n) && p in n.pages && p > n.base + off && off % PAGE == 0
    ensures p >= n.base + off + PAGE
  {
    assert PageIn(p, n.base, n.size);
  }

  lemma {:induction false} SuffixWellFormed(rest: seq<Node>, trans: seq<Node>)
    requires Suffix(rest, trans) && forall n :: n in trans ==> WellFormed(n)
    ensures forall n :: n in rest ==> WellFormed(n)
    ensures rest != [] ==> rest[0] in rest
  {
  }

  lemma {:induction false} InvalidateWalk(cached: set<Page>, w: Isr, trans: seq<Node>)
    requires WalkOK(cached, w, trans) && w.rest != [] && WellFormed(w.rest[0])
    ensures WalkOK(cached - {w.rest[0].base + w.off}, Walking(w.rest, w.off + PAGE), trans)
  {
    var p0 := w.rest[0].base + w.off;
    forall p | p in Ahead(w) && p != p0 ensures p in Ahead(Walking(w.rest, w.off + PAGE)) {
      if p in w.rest[0].pages && p > p0 {
        NextOffset(p, w.rest[0], w.off);
      }
    }
    assert (cached - {p0}) * Pages(trans) <= Ahead(w) - {p0};
  }

  lemma {:induction false} InvalidateWalks(tlb: map<Cpu, set<Page>>, isr: map<Cpu, Isr>, trans: seq<Node>, c: Cpu,
                                           tlb': map<Cpu, set<Page>>, isr': map<Cpu, Isr>)
    requires WalksOK(tlb, isr, trans) && c in tlb && c in isr && isr[c].rest != []
    requires forall n :: n in trans ==> WellFormed(n)
    requires tlb' == Dropped(tlb, c, isr[c].rest[0].base + isr[c].off)
    requires isr' == isr[c := Walking(isr[c].rest, isr[c].off + PAGE)]
    ensures WalksOK(tlb', isr', trans)
  {
    SuffixWellFormed(isr[c].rest, trans);
    InvalidateWalk(tlb[c], isr[c], trans);
  }

  lemma {:induction false} IsrInvalidateKeepsInv(hw: Hw, s: State, s': State, c: Cpu)
    requires Inv(hw, s) && IsrStep(hw, s, s', IsrInvalidate(c))
    ensures Inv(hw, s')
  {
    assert s'.isr.Keys == s.isr.Keys && s'.tlb.Keys == s.tlb.Keys;
    InvalidateWalks(s.tlb, s.isr, s.trans, c, s'.tlb, s'.isr);
  }

  /** A handler at the end of a node has only later nodes ahead of it. */
  lemma {:induction false} NextNodeWalk(cached: set<Page>, w: Isr, trans: seq<Node>)
    requires WalkOK(cached, w, trans) && w.rest != [] && w.off >= w.rest[0].size
    requires forall n :: n in w.rest ==> WellFormed(n)
    ensures WalkOK(cached, Walking(w.rest[1..], 0), trans)
  {
    assert w.rest[0] in w.rest;
    forall p | p in w.rest[0].pages ensures p < w.rest[0].base + w.off {
      assert PageIn(p, w.rest[0].base, w.rest[0].size);
    }
    AllAhead(w.rest[1..]);
  }

  lemma {:induction false} IsrNextNodeKeepsInv(hw: Hw, s: State, s': State, c: Cpu)
    requires Inv(hw, s) && IsrStep(hw, s, s', IsrNextNode(c))
    ensures Inv(hw, s')
  {
    assert s'.isr.Keys == s.isr.Keys;
    if c in s.tlb {
      SuffixWellFormed(s.isr[c].rest, s.trans);
      NextNodeWalk(s.tlb[c], s.isr[c], s.trans);
    }
  }

  /** A handler that reached the end of the list has invalidated everything. */
  lemma {:induction false} DisarmDone(tlb: map<Cpu, set<Page>>, isr: map<Cpu, Isr>, done: set<Cpu>, trans: seq<Node>, c: Cpu)
    requires WalksOK(tlb, isr, trans) && DoneOK(tlb, done, Pages(trans)) && c in isr && isr[c].rest == []
    ensures WalksOK(tlb, isr - {c}, trans) && DoneOK(tlb, done + {c}, Pages(trans))
  {
    if c in tlb {
      assert WalkOK(tlb[c], isr[c], trans);
      EmptyMeet(tlb[c], Pages(trans));
    }
  }

  lemma {:induction false} EmptyMeet(a: set<Page>, b: set<Page>)
    requires a * b <= {}
    ensures a !! b
  {
    forall p | p in a ensures p !in b {
      assert p in b ==> p in a * b;
    }
  }

  /** Arming and disarming entries does not change who is registered. */
  lemma {:induction false} SameCpus(es: seq<Entry>, es': seq<Entry>, regs: set<Cpu>)
    requires EntriesOK(es, regs) && |es'| == |es|
    requires forall i :: 0 <= i < |es| ==> es'[i].cpu == es[i].cpu
    ensures EntriesOK(es', regs)
  {
    forall c | c in regs ensures HasEntry(es', c) {
      assert HasEntry(es, c);
      var i :| 0 <= i < |es| && es[i].cpu == c;
      assert es'[i].cpu == c;
    }
  }

  lemma {:induction false} DisarmPhase(hw: Hw, s: State, s': State, c: Cpu)
    requires Inv(hw, s) && IsrStep(hw, s, s', IsrDisarm(c))
    ensures EntriesOK(s'.entries, s'.regs)
    ensures ArmingOK(s'.entries, s'.ipi + s'.isr.Keys + s'.done, s'.worker)
    ensures PhaseOK(s'.entries, s'.trans, s'.batch, s'.done, s'.worker)
  {
    DisarmedFacts(hw, s.entries, hw.arb(c));
    SameCpus(s.entries, s'.entries, s.regs);
    assert s'.ipi + s'.isr.Keys + s'.done == s.ipi + s.isr.Keys + s.done;
  }

  lemma {:induction false} IsrDisarmKeepsInv(hw: Hw, s: State, s': State, c: Cpu)
    requires Inv(hw, s) && IsrStep(hw, s, s', IsrDisarm(c))
    ensures Inv(hw, s')
  {
    DisarmPhase(hw, s, s', c);
    DisarmCleared(hw, s, s', c);
    DisarmDone(s.tlb, s.isr, s.done, s.trans, c);
  }

  lemma {:induction false} DisarmCleared(hw: Hw, s: State, s': State, c: Cpu)
    requires ClearedOK(hw, s.entries, s.batch, s.done, s.worker)
    requires s'.entries == Disarmed(hw, s.entries, hw.arb(c)) && s'.done == s.done + {c}
    requires s'.batch == s.batch && s'.worker == Woken(s.worker)
    ensures ClearedOK(hw, s'.entries, s'.batch, s'.done, s'.worker)
  {
    DisarmedFacts(hw, s.entries, hw.arb(c));
    if !Idle(s.worker) && !s.worker.Freeing? {
      forall i | 0 <= i < |s'.entries| && WasArmed(s'.entries, s'.batch, s'.worker, i) && !s'.entries[i].armed
        ensures Answered(hw, s'.done, s'.entries[i].cpu)
      {
        assert WasArmed(s.entries, s.batch, s.worker, i);
        if s.entries[i].armed {
          assert c in s'.done && hw.arb(c) == hw.apic(s.entries[i].cpu);
        } else {
          var d :| d in s.done && hw.arb(d) == hw.apic(s.entries[i].cpu);
          assert d in s'.done;
        }
      }
    }
  }

  lemma {:induction false} InitKeepsInv(hw: Hw, s: State)
    requires Init(s)
    ensures Inv(hw, s)
  {
  }

  // Whole runs.

  /** A run: states linked by steps. */
  ghost predicate Run(hw: Hw, states: seq<State>, steps: seq<Step>) {
    && |states| == |steps| + 1 && Init(states[0])
    && forall i :: 0 <= i < |steps| ==> Next(hw, states[i], states[i + 1], steps[i])
  }

  lemma {:induction false} InvHolds(hw: Hw, states: seq<State>, steps: seq<Step>, i: nat)
    requires Injective(hw.apic) && Injective(hw.arb) && Run(hw, states, steps) && i < |states|
    ensures Inv(hw, states[i])
  {
    if i == 0 {
      InitKeepsInv(hw, states[0]);
    } else {
      InvHolds(hw, states, steps, i - 1);
      var s, s', step := states[i - 1], states[i], steps[i - 1];
      assert Next(hw, s, s', step);
      if CallerStep(s, s', step) {
        CallerKeepsInv(hw, s, s', step);
      } else if WorkerStep(hw, s, s', step) {
        WorkerKeepsInv(hw, s, s', step);
      } else {
        IsrKeepsInv(hw, s, s', step);
      }
    }
  }

  /** TLB shootdown safety over every run, for any injective assignment of APIC
      and arbitration ids. */
  lemma {:induction false} ShootdownSafety(hw: Hw, states: seq<State>, steps: seq<Step>, i: nat)
    requires Injective(hw.apic) && Injective(hw.arb) && Run(hw, states, steps) && i < |states|
    ensures Safe(states[i])
  {
    InvHolds(hw, states, steps, i);
    InvImpliesSafe(hw, states[i]);
  }

  /** Registered CPUs exist. */
  ghost predicate Online(s: State) {
    s.regs <= s.tlb.Keys
  }

  lemma {:induction false} StepKeepsOnline(hw: Hw, s: State, s': State, step: Step)
    requires Online(s) && Next(hw, s, s', step)
    ensures Online(s')
  {
    if IsrStep(hw, s, s', step) {
      assert s'.regs == s.regs && s'.tlb.Keys == s.tlb.Keys;
    } else if WorkerStep(hw, s, s', step) {
      assert s'.regs == s.regs && s'.tlb == s.tlb;
    } else if step.Fill? || step.Evict? {
      assert s'.regs == s.regs && s'.tlb.Keys == s.tlb.Keys;
    } else {
      assert s'.tlb == s.tlb;
    }
  }

  lemma {:induction false} OnlineHolds(hw: Hw, states: seq<State>, steps: seq<Step>, i: nat)
    requires Run(hw, states, steps) && i < |states|
    ensures Online(states[i])
  {
    if i > 0 {
      OnlineHolds(hw, states, steps, i - 1);
      assert Next(hw, states[i - 1], states[i], steps[i - 1]);
      StepKeepsOnline(hw, states[i - 1], states[i], steps[i - 1]);
    }
  }

  /** No handler ever reads a list node that was freed: its list is a live suffix
      of the transaction list, and none runs while nodes are being freed. */
  lemma {:induction false} HandlersWalkLiveNodes(hw: Hw, states: seq<State>, steps: seq<Step>, i: nat, c: Cpu)
    requires Injective(hw.apic) && Injective(hw.arb) && Run(hw, states, steps) && i < |states|
    requires c in states[i].isr
    ensures Suffix(states[i].isr[c].rest, states[i].trans) && !states[i].worker.Freeing?
  {
    InvHolds(hw, states, steps, i);
    OnlineHolds(hw, states, steps, i);
    assert c in states[i].isr.Keys;
    assert WalkOK(states[i].tlb[c], states[i].isr[c], states[i].trans);
  }

  // Where pages end up.

  /** Every page there is: free, handed out, waiting to be freed, or being freed. */
  ghost function AllPages(s: State): set<Page> {
    s.free + s.owned + Pages(s.pending) + Pages(s.trans)
  }

  /** Pages move in a circle: from free to handed out, to pending, to being freed, and
      back. None is lost or made. */
  ghost predicate Flows(s: State, s': State) {
    && AllPages(s') == AllPages(s)
    && Pages(s.trans) - Pages(s'.trans) <= s'.free
    && Pages(s.pending) - Pages(s'.pending) <= Pages(s'.trans)
    && s.owned - s'.owned <= Pages(s'.pending)
    && s.free - s'.free <= s'.owned
  }

  lemma {:induction false} CallerFlows(s: State, s': State, step: Step)
    requires CallerStep(s, s', step)
    ensures Flows(s, s')
  {
    if step.FreeRange? {
      PagesSplit(s'.pending);
      assert s'.pending[1..] == s.pending;
    } else {
      assert s'.pending == s.pending && s'.trans == s.trans;
    }
  }

  lemma {:induction false} WorkerFlows(hw: Hw, s: State, s': State, step: Step)
    requires WorkerStep(hw, s, s', step) && (step.Take? ==> s.trans == [])
    ensures Flows(s, s')
  {
    if step.FreeOne? {
      PagesSplit(s.trans);
    } else if step.Take? {
      assert Pages(s'.pending) == {} && Pages(s.trans) == {};
    } else {
      assert s'.pending == s.pending && s'.trans == s.trans && s'.free == s.free && s'.owned == s.owned;
    }
  }

  lemma {:induction false} StepFlows(hw: Hw, states: seq<State>, steps: seq<Step>, i: nat)
    requires Injective(hw.apic) && Injective(hw.arb) && Run(hw, states, steps) && i < |steps|
    ensures Flows(states[i], states[i + 1])
  {
    InvHolds(hw, states, steps, i);
    var s, s', step := states[i], states[i + 1], steps[i];
    assert Next(hw, s, s', step);
    if CallerStep(s, s', step) {
      CallerFlows(s, s', step);
    } else if WorkerStep(hw, s, s', step) {
      WorkerFlows(hw, s, s', step);
    } else {
      assert s'.pending == s.pending && s'.trans == s.trans && s'.free == s.free && s'.owned == s.owned;
    }
  }

  /** Each page is in one place. */
  ghost predicate InOnePlace(s: State) {
    s.free !! s.owned !! Pages(s.pending) !! Pages(s.trans)
  }

  lemma {:induction false} PagesPlaced(hw: Hw, states: seq<State>, steps: seq<Step>, i: nat)
    requires Injective(hw.apic) && Injective(hw.arb) && Run(hw, states, steps) && i < |states|
    ensures InOnePlace(states[i]) && (Idle(states[i].worker) ==> Pages(states[i].trans) == {})
  {
    InvHolds(hw, states, steps, i);
  }

  /** No page is lost or made, over every run and in every interleaving: in every state each
      page is free, handed out, pending or being freed, and only one of these. */
  lemma {:induction false} PagesConserved(hw: Hw, states: seq<State>, steps: seq<Step>, i: nat)
    requires Injective(hw.apic) && Injective(hw.arb) && Run(hw, states, steps) && i < |states|
    ensures AllPages(states[i]) == states[0].free && InOnePlace(states[i])
  {
    PagesPlaced(hw, states, steps, i);
    if i > 0 {
      PagesConserved(hw, states, steps, i - 1);
      StepFlows(hw, states, steps, i - 1);
    } else {
      assert Pages(states[0].pending) == {} && Pages(states[0].trans) == {};
    }
  }

  /** Pending, or being freed. */
  ghost predicate OnItsWay(s: State, p: Page) {
    p in Pages(s.pending) || p in Pages(s.trans)
  }

  lemma {:induction false} WayGoesOn(s: State, s': State, p: Page)
    requires Flows(s, s')
    ensures p in Pages(s.trans) ==> p in Pages(s'.trans) || p in s'.free
    ensures OnItsWay(s, p) ==> OnItsWay(s', p) || p in s'.free
  {
  }

  lemma {:induction false} OwnedIsElsewhere(s: State, p: Page)
    requires InOnePlace(s) && p in s.owned
    ensures !OnItsWay(s, p) && p !in s.free
  {
  }

  /** A page of a batch is on the free list at some time before the worker is idle again. */
  lemma {:induction false} BatchGivenBack(hw: Hw, states: seq<State>, steps: seq<Step>, i: nat, j: nat, p: Page) returns (k: nat)
    requires Injective(hw.apic) && Injective(hw.arb) && Run(hw, states, steps) && i <= j < |states|
    requires p in Pages(states[i].trans) && Idle(states[j].worker)
    ensures i < k <= j && p in states[k].free
    decreases j - i
  {
    PagesPlaced(hw, states, steps, j);
    StepFlows(hw, states, steps, i);
    WayGoesOn(states[i], states[i + 1], p);
    k := i + 1;
    if p in Pages(states[i + 1].trans) {
      k := BatchGivenBack(hw, states, steps, i + 1, j, p);
    }
  }

  /** A page that was freed is handed out again only after it was on the free list. */
  lemma {:induction false} FreedBeforeReused(hw: Hw, states: seq<State>, steps: seq<Step>, i: nat, j: nat, p: Page) returns (k: nat)
    requires Injective(hw.apic) && Injective(hw.arb) && Run(hw, states, steps) && i <= j < |states|
    requires OnItsWay(states[i], p) && p in states[j].owned
    ensures i < k < j && p in states[k].free
    decreases j - i
  {
    PagesPlaced(hw, states, steps, j);
    OwnedIsElsewhere(states[j], p);
    StepFlows(hw, states, steps, i);
    WayGoesOn(states[i], states[i + 1], p);
    k := i + 1;
    if p !in states[i + 1].free {
      k := FreedBeforeReused(hw, states, steps, i + 1, j, p);
    }
  }

  // CPUs that register before they cache anything.

  /** Every fill is by a registered CPU. */
  ghost predicate Disciplined(states: seq<State>, steps: seq<Step>)
    requires |states| == |steps| + 1
  {
    forall i :: 0 <= i < |steps| && steps[i].Fill? ==> steps[i].c in states[i].regs
  }

  /** Unregistered CPUs cache nothing, CPUs outside the batch cache none of its
      pages, and nobody caches a free page. */
  ghost predicate Clean(s: State) {
    && (forall c :: c in s.tlb && c !in s.regs ==> s.tlb[c] == {})
    && (forall c :: c in s.tlb && c !in s.batch ==> s.tlb[c] !! Pages(s.trans))
    && (forall c :: c in s.tlb ==> s.tlb[c] !! s.free)
  }

  lemma {:induction false} StepKeepsClean(hw: Hw, s: State, s': State, step: Step)
    requires Inv(hw, s) && Clean(s) && Next(hw, s, s', step)
    requires step.Fill? ==> step.c in s.regs
    ensures Clean(s')
  {
    if CallerStep(s, s', step) {
      CallerKeepsClean(s, s', step);
    } else if WorkerStep(hw, s, s', step) {
      match step
      case FreeOne => FreeOneKeepsClean(s, s');
      case FreeDone => assert Pages(s'.trans) == {};
      case _ =>
    } else if step.IsrInvalidate? {
      TlbShrinksClean(s, s');
    }
  }

  lemma {:induction false} CallerKeepsClean(s: State, s': State, step: Step)
    requires PagesOK(s.free, s.owned, s.mapped, s.pending, s.trans) && Clean(s) && CallerStep(s, s', step)
    requires s.batch <= s.regs
    requires step.Fill? ==> step.c in s.regs
    ensures Clean(s')
  {
    if step.Fill? {
      assert step.p !in s.free && step.p !in Pages(s.trans);
    }
  }

  lemma {:induction false} TlbShrinksClean(s: State, s': State)
    requires Clean(s) && s'.tlb.Keys == s.tlb.Keys && forall c :: c in s.tlb ==> s'.tlb[c] <= s.tlb[c]
    requires s'.regs == s.regs && s'.batch == s.batch && s'.trans == s.trans && s'.free == s.free
    ensures Clean(s')
  {
  }

  lemma {:induction false} FreeOneKeepsClean(s: State, s': State)
    requires Clean(s) && DoneOK(s.tlb, s.done, Pages(s.trans)) && s.done == s.batch && s.trans != []
    requires s'.tlb == s.tlb && s'.regs == s.regs && s'.batch == s.batch
    requires s'.free == s.free + s.trans[0].pages && s'.trans == s.trans[1..]
    ensures Clean(s')
  {
    PagesSplit(s.trans);
    forall c | c in s.tlb ensures s.tlb[c] !! Pages(s.trans) {
      assert c in s.batch ==> c in s.done;
    }
  }

  /** If CPUs register before they cache anything, no CPU ever caches a page that
      is on the free list, so no page is handed out while a stale translation for
      it exists. */
  lemma {:induction false} NoStaleTranslation(hw: Hw, states: seq<State>, steps: seq<Step>, i: nat)
    requires Injective(hw.apic) && Injective(hw.arb) && Run(hw, states, steps) && i < |states|
    requires Disciplined(states, steps)
    ensures Clean(states[i])
  {
    if i == 0 {
      assert Pages(states[0].trans) == {};
    } else {
      NoStaleTranslation(hw, states, steps, i - 1);
      InvHolds(hw, states, steps, i - 1);
      StepKeepsClean(hw, states[i - 1], states[i], steps[i - 1]);
    }
  }
}
