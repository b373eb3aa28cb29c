/**
  What the scheduler's critical sections mean for the lists, and what holds over
  whole multi-CPU runs of them.
 */
module SchedModel {
  import opened Sequences
  import opened SchedLists

  type Times = map<nat, nat>

  /** The critical sections, in the order a CPU or a waker goes through them. */
  datatype Event =
    | Preempt(c: nat)             // SCHED_READY: back to the active queue
    | Nap(c: nat, time: nat)      // SCHED_SLEEP with this wake time
    | Block(c: nat, w: nat)       // signal_wait_callback on wait queue w
    | Kill(c: nat)                // process_discard
    | Exec(c: nat, stale: nat)    // process_execve: the stale pcb is discarded
    | Take(k: nat, w: nat)        // signal_awake takes the whole wait queue
    | WakeNext(k: nat)            // and schedules the first process it took
    | Collect(k: nat)             // the reaper takes the reap queue
    | Bury(k: nat)                // and finishes the first process it took
    | Spawn(p: nat)               // scheduler_schedule of a new process
    | Dispatch(c: nat, now: nat)  // wake sleepers, run the head of the active queue

  /** The lists, the list of every live process, and the wake times. */
  datatype Model = Model(lists: Lists, place: Places, wake: Times)

  /** The lists a scheduler always has. */
  ghost predicate HasLists(lists: Lists) {
    Active in lists && Sleep in lists && Reap in lists
  }

  ghost predicate OnCpu(lists: Lists, c: nat) {
    Cpu(c) in lists && |lists[Cpu(c)]| == 1
  }

  /** Somebody is walking the list he took. */
  ghost predicate Walking(lists: Lists, id: Id) {
    id in lists && lists[id] != []
  }

  /** A process that exists but is on no list yet. */
  ghost predicate New(m: Model, p: nat) {
    p != 0 && p !in m.place && p in m.wake
  }

  /** Which event can happen. */
  ghost predicate Enabled(m: Model, e: Event) {
    HasLists(m.lists) &&
    match e
    case Preempt(c) => OnCpu(m.lists, c)
    case Nap(c, time) => OnCpu(m.lists, c)
    case Block(c, w) => OnCpu(m.lists, c) && Wait(w) in m.lists
    case Kill(c) => OnCpu(m.lists, c)
    case Exec(c, stale) => OnCpu(m.lists, c) && New(m, stale)
    case Take(k, w) => Wait(w) in m.lists && Woken(k) in m.lists && m.lists[Woken(k)] == []
    case WakeNext(k) => Walking(m.lists, Woken(k))
    case Collect(k) => Doomed(k) in m.lists && m.lists[Doomed(k)] == []
    case Bury(k) => Walking(m.lists, Doomed(k))
    case Spawn(p) => New(m, p)
    case Dispatch(c, now) => Cpu(c) in m.lists && m.lists[Cpu(c)] == []
  }

  /** Position of a new sleeper: behind all that wake later. */
  function SleepSpot(l: seq<nat>, wake: Times, time: nat): (i: nat)
    requires forall j :: 0 <= j < |l| ==> l[j] in wake
    ensures i <= |l| && (forall j :: 0 <= j < i ==> time < wake[l[j]]) && (i < |l| ==> wake[l[i]] <= time)
    decreases |l|
  {
    if l == [] || wake[l[0]] <= time then 0 else 1 + SleepSpot(l[1..], wake, time)
  }

  /** How many sleepers the loop at the head of the queue wakes. */
  function Due(l: seq<nat>, wake: Times, now: nat): (n: nat)
    requires forall j :: 0 <= j < |l| ==> l[j] in wake
    ensures n <= |l| && (forall j :: 0 <= j < n ==> wake[l[j]] <= now) && (n < |l| ==> wake[l[n]] > now)
    decreases |l|
  {
    if l == [] || wake[l[0]] > now then 0 else 1 + Due(l[1..], wake, now)
  }

  ghost predicate Descending(l: seq<nat>, wake: Times) {
    && (forall i :: 0 <= i < |l| ==> l[i] in wake)
    && (forall i, j :: 0 <= i < j < |l| ==> wake[l[i]] >= wake[l[j]])
  }

  /** The queue is kept in descending order and drained from the head, so either all
      sleepers are woken or none: a due sleeper waits for the last one to be due. */
  lemma {:induction false} AllOrNone(l: seq<nat>, wake: Times, now: nat)
    requires Descending(l, wake)
    ensures Due(l, wake, now) == 0 || Due(l, wake, now) == |l|
    ensures Due(l, wake, now) == |l| <==> forall i :: 0 <= i < |l| ==> wake[l[i]] <= now
  {
  }

  // The primitives.

  /** The first process of list id leaves it. */
  function Pop(m: Model, id: Id): Model
    requires id in m.lists && m.lists[id] != []
  {
    m.(lists := m.lists[id := m.lists[id][1..]], place := m.place - {m.lists[id][0]})
  }

  /** Process p joins list id at position i. */
  function Put(m: Model, id: Id, i: nat, p: nat): Model
    requires id in m.lists && i <= |m.lists[id]|
  {
    m.(lists := m.lists[id := Inserted(m.lists[id], i, p)], place := m.place[p := id])
  }

  /** Process p goes to the end of the active queue. */
  function Queue(m: Model, p: nat): Model
    requires Active in m.lists
  {
    Put(m, Active, |m.lists[Active]|, p)
  }

  function Move(m: Model, from: Id, to: Id): Model
    requires from in m.lists && to in m.lists
  {
    m.(lists := m.lists[to := m.lists[from]][from := []], place := Moved(m.place, from, to))
  }

  /** The first n sleepers join the active queue, one after the other. */
  function Rouse(m: Model, n: nat): (r: Model)
    requires Active in m.lists && Sleep in m.lists && n <= |m.lists[Sleep]|
    ensures r.lists.Keys == m.lists.Keys && r.wake == m.wake
    decreases n
  {
    if n == 0 then m else Rouse(Queue(Pop(m, Sleep), m.lists[Sleep][0]), n - 1)
  }

  /** CPU c runs the head of the active queue, if there is one. */
  function Start(m: Model, c: nat): Model
    requires Active in m.lists && Cpu(c) in m.lists
  {
    if m.lists[Active] == [] then m else Put(Pop(m, Active), Cpu(c), 0, m.lists[Active][0])
  }

  /** The state after an event. */
  ghost function Next(m: Model, e: Event): Model
    requires Enabled(m, e) && Descending(m.lists[Sleep], m.wake)
  {
    match e
    case Preempt(c) => Queue(Pop(m, Cpu(c)), m.lists[Cpu(c)][0])
    case Nap(c, time) =>
      var p := m.lists[Cpu(c)][0];
      Put(Pop(m, Cpu(c)), Sleep, SleepSpot(m.lists[Sleep], m.wake, time), p).(wake := m.wake[p := time])
    case Block(c, w) => Put(Pop(m, Cpu(c)), Wait(w), 0, m.lists[Cpu(c)][0])
    case Kill(c) => Put(Pop(m, Cpu(c)), Reap, 0, m.lists[Cpu(c)][0])
    case Exec(c, stale) => Put(Queue(Pop(m, Cpu(c)), m.lists[Cpu(c)][0]), Reap, 0, stale)
    case Take(k, w) => Move(m, Wait(w), Woken(k))
    case WakeNext(k) => Queue(Pop(m, Woken(k)), m.lists[Woken(k)][0])
    case Collect(k) => Move(m, Reap, Doomed(k))
    case Bury(k) => Pop(m, Doomed(k))
    case Spawn(p) => Queue(m, p)
    case Dispatch(c, now) => Start(Rouse(m, Due(m.lists[Sleep], m.wake, now)), c)
  }

  // Every event keeps the invariant.

  ghost predicate ModelOK(m: Model) {
    HasLists(m.lists) && Housed(m.lists, m.place) && m.place.Keys <= m.wake.Keys && Descending(m.lists[Sleep], m.wake)
  }

  /** The part of the invariant that a primitive step keeps whatever list it is about. */
  ghost predicate ListsOK(m: Model) {
    HasLists(m.lists) && Housed(m.lists, m.place) && m.place.Keys <= m.wake.Keys
  }

  lemma {:induction false} PopOK(m: Model, id: Id)
    requires ListsOK(m) && id in m.lists && m.lists[id] != []
    ensures ListsOK(Pop(m, id)) && m.lists[id][0] in m.place && m.lists[id][0] != 0
  {
    DetachKeepsHoused(m.lists, m.place, id);
    ListedIsPlaced(m.lists, m.place, id, m.lists[id][0]);
  }

  lemma {:induction false} PutOK(m: Model, id: Id, i: nat, p: nat)
    requires ListsOK(m) && id in m.lists && i <= |m.lists[id]| && New(m, p)
    ensures ListsOK(Put(m, id, i, p))
  {
    AttachKeepsHoused(m.lists, m.place, id, i, p);
  }

  /** From one list to a position of another. */
  lemma {:induction false} PopPutOK(m: Model, from: Id, to: Id, i: nat)
    requires ListsOK(m) && from in m.lists && m.lists[from] != [] && to in m.lists && from != to && i <= |m.lists[to]|
    ensures ListsOK(Put(Pop(m, from), to, i, m.lists[from][0]))
    ensures Put(Pop(m, from), to, i, m.lists[from][0]).place.Keys == m.place.Keys
  {
    PopOK(m, from);
    PutOK(Pop(m, from), to, i, m.lists[from][0]);
  }

  lemma {:induction false} MoveOK(m: Model, from: Id, to: Id)
    requires ListsOK(m) && from in m.lists && to in m.lists && from != to && m.lists[to] == []
    ensures ListsOK(Move(m, from, to)) && Move(m, from, to).place.Keys == m.place.Keys
  {
    TakeKeepsHoused(m.lists, m.place, from, to);
  }

  lemma {:induction false} RouseOK(m: Model, n: nat)
    requires ListsOK(m) && n <= |m.lists[Sleep]|
    ensures var r := Rouse(m, n);
      && ListsOK(r) && r.place.Keys == m.place.Keys
      && r.lists == m.lists[Active := m.lists[Active] + m.lists[Sleep][..n]][Sleep := m.lists[Sleep][n..]]
    decreases n
  {
    if n == 0 {
      assert m.lists[Active] + m.lists[Sleep][..n] == m.lists[Active] && m.lists[Sleep][n..] == m.lists[Sleep];
    } else {
      PopPutOK(m, Sleep, Active, |m.lists[Active]|);
      var s := Queue(Pop(m, Sleep), m.lists[Sleep][0]);
      RouseOK(s, n - 1);
      RouseStep(m.lists[Active], m.lists[Sleep], n);
    }
  }

  lemma {:induction false} RouseStep(active: seq<nat>, sleep: seq<nat>, n: nat)
    requires 0 < n <= |sleep|
    ensures Inserted(active, |active|, sleep[0]) + sleep[1..][..n - 1] == active + sleep[..n]
    ensures sleep[1..][n - 1..] == sleep[n..]
  {
  }

  lemma {:induction false} NapKeepsDescending(l: seq<nat>, wake: Times, p: nat, time: nat)
    requires Descending(l, wake) && p !in l
    ensures Descending(Inserted(l, SleepSpot(l, wake, time), p), wake[p := time])
  {
    var i := SleepSpot(l, wake, time);
    var l', wake' := Inserted(l, i, p), wake[p := time];
    forall j | 0 <= j < |l'| ensures l'[j] in wake' && wake'[l'[j]] == if j == i then time else wake[l[if j < i then j else j - 1]] {
    }
  }

  lemma {:induction false} DispatchOK(m: Model, c: nat, now: nat)
    requires ModelOK(m) && Enabled(m, Dispatch(c, now))
    ensures ModelOK(Next(m, Dispatch(c, now))) && Next(m, Dispatch(c, now)).place.Keys == m.place.Keys
  {
    var n := Due(m.lists[Sleep], m.wake, now);
    RouseOK(m, n);
    var r := Rouse(m, n);
    if r.lists[Active] != [] {
      PopPutOK(r, Active, Cpu(c), 0);
    }
  }

  lemma {:induction false} NapOK(m: Model, c: nat, time: nat)
    requires ModelOK(m) && Enabled(m, Nap(c, time))
    ensures ModelOK(Next(m, Nap(c, time))) && Next(m, Nap(c, time)).place.Keys == m.place.Keys
  {
    var p := m.lists[Cpu(c)][0];
    PopPutOK(m, Cpu(c), Sleep, SleepSpot(m.lists[Sleep], m.wake, time));
    if p in m.lists[Sleep] {
      ListedIsPlaced(m.lists, m.place, Sleep, p);
      ListedIsPlaced(m.lists, m.place, Cpu(c), p);
    }
    NapKeepsDescending(m.lists[Sleep], m.wake, p, time);
  }

  /** The processes an event adds to the live ones, and the one it removes. */
  function Born(e: Event): set<nat> {
    match e case Exec(c, stale) => {stale} case Spawn(p) => {p} case _ => {}
  }

  ghost function Buried(m: Model, e: Event): set<nat>
    requires Enabled(m, e)
  {
    match e case Bury(k) => {m.lists[Doomed(k)][0]} case _ => {}
  }

  /** The events in which a process leaves its CPU. */
  predicate Leaves(e: Event) {
    e.Preempt? || e.Nap? || e.Block? || e.Kill? || e.Exec?
  }

  lemma {:induction false} LeavingConserves(m: Model, e: Event)
    requires ModelOK(m) && Enabled(m, e) && Leaves(e)
    ensures ModelOK(Next(m, e)) && Next(m, e).place.Keys == m.place.Keys - Buried(m, e) + Born(e)
  {
    match e
    case Preempt(c) => PopPutOK(m, Cpu(c), Active, |m.lists[Active]|);
    case Nap(c, time) => NapOK(m, c, time);
    case Block(c, w) => PopPutOK(m, Cpu(c), Wait(w), 0);
    case Kill(c) => PopPutOK(m, Cpu(c), Reap, 0);
    case Exec(c, stale) =>
      PopPutOK(m, Cpu(c), Active, |m.lists[Active]|);
      PutOK(Queue(Pop(m, Cpu(c)), m.lists[Cpu(c)][0]), Reap, 0, stale);
  }

  lemma {:induction false} WakingConserves(m: Model, e: Event)
    requires ModelOK(m) && Enabled(m, e) && !Leaves(e)
    ensures ModelOK(Next(m, e)) && Next(m, e).place.Keys == m.place.Keys - Buried(m, e) + Born(e)
  {
    match e
    case Take(k, w) => MoveOK(m, Wait(w), Woken(k));
    case WakeNext(k) => PopPutOK(m, Woken(k), Active, |m.lists[Active]|);
    case Collect(k) => MoveOK(m, Reap, Doomed(k));
    case Bury(k) => PopOK(m, Doomed(k));
    case Spawn(p) => PutOK(m, Active, |m.lists[Active]|, p);
    case Dispatch(c, now) => DispatchOK(m, c, now);
  }

  /** Conservation: every event keeps the invariant that each live process is on
      exactly one list exactly once, and loses or duplicates nobody. */
  lemma {:induction false} EventConserves(m: Model, e: Event)
    requires ModelOK(m) && Enabled(m, e)
    ensures ModelOK(Next(m, e)) && Next(m, e).place.Keys == m.place.Keys - Buried(m, e) + Born(e)
    ensures Buried(m, e) <= m.place.Keys && Born(e) !! m.place.Keys
  {
    if Leaves(e) {
      LeavingConserves(m, e);
    } else {
      WakingConserves(m, e);
    }
    if e.Bury? {
      PopOK(m, Doomed(e.k));
    }
  }

  // Whole runs.

  ghost predicate Runs(m: Model, es: seq<Event>)
    requires ModelOK(m)
    decreases |es|
  {
    es == [] || (Enabled(m, es[0]) && (EventConserves(m, es[0]); Runs(Next(m, es[0]), es[1..])))
  }

  ghost function After(m: Model, es: seq<Event>): (r: Model)
    requires ModelOK(m) && Runs(m, es)
    ensures ModelOK(r)
    decreases |es|
  {
    if es == [] then m else EventConserves(m, es[0]); After(Next(m, es[0]), es[1..])
  }

  // First in, first out.

  lemma {:induction false} DispatchFifo(m: Model, c: nat, now: nat, k: nat)
    requires ModelOK(m) && Enabled(m, Dispatch(c, now)) && k < |m.lists[Active]|
    ensures var s := Next(m, Dispatch(c, now));
      && (k == 0 ==> s.lists[Cpu(c)] == [m.lists[Active][0]])
      && (k > 0 ==> k - 1 < |s.lists[Active]| && s.lists[Active][k - 1] == m.lists[Active][k])
  {
    RouseOK(m, Due(m.lists[Sleep], m.wake, now));
  }

  lemma {:induction false} StaysInPlace(m: Model, e: Event, k: nat)
    requires ModelOK(m) && Enabled(m, e) && !e.Dispatch? && k < |m.lists[Active]|
    ensures k < |Next(m, e).lists[Active]| && Next(m, e).lists[Active][k] == m.lists[Active][k]
  {
  }

  function Forward(e: Event): nat {
    if e.Dispatch? then 1 else 0
  }

  lemma {:induction false} EventAdvances(m: Model, e: Event, k: nat)
    requires ModelOK(m) && Enabled(m, e) && Forward(e) <= k < |m.lists[Active]|
    ensures Active in Next(m, e).lists && k - Forward(e) < |Next(m, e).lists[Active]|
    ensures Next(m, e).lists[Active][k - Forward(e)] == m.lists[Active][k]
  {
    EventConserves(m, e);
    if e.Dispatch? {
      DispatchFifo(m, e.c, e.now, k);
    } else {
      StaysInPlace(m, e, k);
    }
  }

  function Dispatches(es: seq<Event>): nat
    decreases |es|
  {
    if es == [] then 0 else Forward(es[0]) + Dispatches(es[1..])
  }

  /** Whatever else happens, only dispatches move a process forward in the active
      queue, each by exactly one place. */
  lemma {:induction false} QueueAdvances(m: Model, es: seq<Event>, k: nat)
    requires ModelOK(m) && Runs(m, es) && Dispatches(es) <= k < |m.lists[Active]|
    ensures var a := After(m, es).lists[Active];
      k - Dispatches(es) < |a| && a[k - Dispatches(es)] == m.lists[Active][k]
    decreases |es|
  {
    if es != [] {
      EventConserves(m, es[0]);
      EventAdvances(m, es[0], k);
      var m', rest, k' := Next(m, es[0]), es[1..], k - Forward(es[0]);
      assert Dispatches(es) == Forward(es[0]) + Dispatches(rest) && After(m, es) == After(m', rest);
      QueueAdvances(m', rest, k');
    }
  }

  /** The process at active position k is the one that the (k+1)-th dispatch runs,
      on whichever CPU that happens. */
  lemma {:induction false} DispatchedInTurn(m: Model, es: seq<Event>, k: nat, c: nat, now: nat)
    requires ModelOK(m) && Runs(m, es) && Dispatches(es) == k < |m.lists[Active]|
    requires Enabled(After(m, es), Dispatch(c, now))
    ensures Next(After(m, es), Dispatch(c, now)).lists[Cpu(c)] == [m.lists[Active][k]]
  {
    QueueAdvances(m, es, k);
    DispatchFifo(After(m, es), c, now, 0);
  }

  // Sleepers.

  lemma {:induction false} StillAsleep(m: Model, e: Event, p: nat)
    requires ModelOK(m) && Enabled(m, e) && p in m.lists[Sleep]
    requires e.Dispatch? ==> e.now < m.wake[p]
    ensures p in Next(m, e).lists[Sleep] && Next(m, e).wake[p] == m.wake[p]
  {
    match e
    case Dispatch(c, now) =>
      var n := Due(m.lists[Sleep], m.wake, now);
      RouseOK(m, n);
      var i :| 0 <= i < |m.lists[Sleep]| && m.lists[Sleep][i] == p;
      assert m.lists[Sleep][n..][i - n] == p;
    case Nap(c, time) =>
      var q := m.lists[Cpu(c)][0];
      ListedIsPlaced(m.lists, m.place, Sleep, p);
      ListedIsPlaced(m.lists, m.place, Cpu(c), q);
      InsertedHas(m.lists[Sleep], SleepSpot(m.lists[Sleep], m.wake, time), q, p);
    case _ =>
  }

  /** No dispatch of the run happens at or after this time. */
  predicate AllBefore(es: seq<Event>, time: nat) {
    forall i :: 0 <= i < |es| && es[i].Dispatch? ==> es[i].now < time
  }

  /** Never early: as long as every dispatch of a run reads a clock below its wake
      time, a sleeper is still on the sleep queue, hence neither runnable nor running. */
  lemma {:induction false} NeverEarly(m: Model, es: seq<Event>, p: nat)
    requires ModelOK(m) && Runs(m, es) && p in m.lists[Sleep] && AllBefore(es, m.wake[p])
    ensures var r := After(m, es);
      && p in r.lists[Sleep] && r.wake[p] == m.wake[p]
      && p !in r.lists[Active] && (forall c :: Cpu(c) in r.lists ==> p !in r.lists[Cpu(c)])
    decreases |es|
  {
    if es != [] {
      EventConserves(m, es[0]);
      StillAsleep(m, es[0], p);
      assert AllBefore(es[1..], m.wake[p]) by {
        assert forall i :: 0 <= i < |es[1..]| ==> es[1..][i] == es[i + 1];
      }
      NeverEarly(Next(m, es[0]), es[1..], p);
    } else {
      OnlyAsleep(m, p);
    }
  }

  lemma {:induction false} OnlyAsleep(m: Model, p: nat)
    requires ModelOK(m) && p in m.lists[Sleep]
    ensures p !in m.lists[Active] && (forall c :: Cpu(c) in m.lists ==> p !in m.lists[Cpu(c)])
  {
    ListedIsPlaced(m.lists, m.place, Sleep, p);
    assert Tenants(m.place, Active, m.lists[Active]);
    forall c | Cpu(c) in m.lists ensures p !in m.lists[Cpu(c)] {
      assert Tenants(m.place, Cpu(c), m.lists[Cpu(c)]);
    }
  }

  /** Everybody born in a run, and everybody buried in it. */
  function AllBorn(es: seq<Event>): multiset<nat>
    decreases |es|
  {
    if es == [] then multiset{} else multiset(Born(es[0])) + AllBorn(es[1..])
  }

  ghost function AllBuried(m: Model, es: seq<Event>): multiset<nat>
    requires ModelOK(m) && Runs(m, es)
    decreases |es|
  {
    if es == [] then multiset{} else EventConserves(m, es[0]); multiset(Buried(m, es[0])) + AllBuried(Next(m, es[0]), es[1..])
  }

  lemma {:induction false} SetBalance(live: set<nat>, born: set<nat>, buried: set<nat>)
    requires buried <= live && born !! live
    ensures multiset(live - buried + born) + multiset(buried) == multiset(live) + multiset(born)
  {
  }

  lemma {:induction false} Balances(live: multiset<nat>, born: multiset<nat>, buried: multiset<nat>, live': multiset<nat>,
                                    born': multiset<nat>, buried': multiset<nat>, last: multiset<nat>)
    requires live' + buried == live + born && live' + born' == last + buried'
    ensures live + (born + born') == last + (buried + buried')
  {
    assert live + (born + born') == live' + buried + born' == last + buried' + buried;
  }

  /** Conservation over every run: the live processes and the born ones are the processes
      still live and the buried ones, each counted as often as it was born or buried. */
  lemma {:induction false} RunConserves(m: Model, es: seq<Event>)
    requires ModelOK(m) && Runs(m, es)
    ensures multiset(m.place.Keys) + AllBorn(es) == multiset(After(m, es).place.Keys) + AllBuried(m, es)
    decreases |es|
  {
    if es != [] {
      EventConserves(m, es[0]);
      SetBalance(m.place.Keys, Born(es[0]), Buried(m, es[0]));
      var m', rest := Next(m, es[0]), es[1..];
      RunConserves(m', rest);
      Balances(multiset(m.place.Keys), multiset(Born(es[0])), multiset(Buried(m, es[0])), multiset(m'.place.Keys),
               AllBorn(rest), AllBuried(m', rest), multiset(After(m', rest).place.Keys));
    }
  }

  /** In particular a live process stays live unless the reaper finishes it. */
  lemma {:induction false} LiveUnlessBuried(m: Model, es: seq<Event>, p: nat)
    requires ModelOK(m) && Runs(m, es) && p in m.place && p !in AllBuried(m, es)
    ensures p in After(m, es).place && After(m, es).place[p] in After(m, es).lists
  {
    RunConserves(m, es);
    assert p in multiset(m.place.Keys) + AllBorn(es);
    assert p in multiset(After(m, es).place.Keys);
    assert Placed(After(m, es).lists, After(m, es).place, p);
  }
}

/**
  The scheduler's code: linked lists threaded through one `next` field.
 */
module Scheduler {
  import opened Sequences
  import opened SchedLists
  import opened SchedModel

  function Last(l: seq<nat>): nat {
    if l == [] then 0 else l[|l| - 1]
  }

  class Scheduler {
    var next: Links
    var head: Heads
    var tail: nat
    var wake: Times
    ghost var m: Model

    ghost predicate Linked()
      reads this
    {
      && ListsOK(m) && wake == m.wake && m.place.Keys <= next.Keys
      && Wired(next, head, m.lists) && tail == Last(m.lists[Active])
    }

    ghost predicate Valid()
      reads this
    {
      Linked() && ModelOK(m)
    }

    /** scheduler_init: all lists empty. */
    constructor (ids: set<Id>, pcbs: set<nat>)
      requires Active in ids && Sleep in ids && Reap in ids
      ensures Valid() && m == Model(map id | id in ids :: [], map[], map p | p in pcbs :: 0)
    {
      next, tail := map[], 0;
      head := map id | id in ids :: 0;
      wake := map p | p in pcbs :: 0;
      m := Model(map id | id in ids :: [], map[], map p | p in pcbs :: 0);
      new;
      forall id | id in m.lists ensures Tenants(m.place, id, m.lists[id]) && Wire(next, head, id, m.lists[id]) {
      }
    }

    /** _scheduler_schedule: append to the active queue. */
    method Schedule(p: nat)
      requires Linked() && New(m, p)
      modifies this`next, this`head, this`tail, this`m
      ensures Linked() && m == Queue(old(m), p)
    {
      ghost var l := m.lists[Active];
      assert Tenants(m.place, Active, l) && Wire(next, head, Active, l);
      ghost var next0, head0 := next, head;
      next := next[p := 0];
      if tail != 0 {
        next := next[tail := p];
        tail := p;
      } else {
        head := head[Active := p];
        tail := p;
      }
      AttachKeepsWired(next0, head0, m.lists, m.place, Active, |l|, p, next, head);
      PutOK(m, Active, |l|, p);
      m := Queue(m, p);
    }

    /** signal_wait_callback and process_discard: push in front of a list. */
    method PushFront(id: Id, p: nat)
      requires Linked() && New(m, p) && id in m.lists && !id.Cpu? && id != Active
      modifies this`next, this`head, this`m
      ensures Linked() && m == Put(old(m), id, 0, p)
    {
      ghost var next0, head0 := next, head;
      assert Wire(next, head, id, m.lists[id]);
      next := next[p := head[id]];
      head := head[id := p];
      AttachKeepsWired(next0, head0, m.lists, m.place, id, 0, p, next, head);
      PutOK(m, id, 0, p);
      m := Put(m, id, 0, p);
    }

    /** Taking the first process off a list other than the active queue. */
    method PopFront(id: Id) returns (p: nat)
      requires Linked() && id in m.lists && m.lists[id] != [] && id != Active
      modifies this`head, this`m
      ensures Linked() && m == Pop(old(m), id) && p == old(m).lists[id][0] && New(m, p)
    {
      ghost var l := m.lists[id];
      assert Wire(next, head, id, l) && Tenants(m.place, id, l);
      PopOK(m, id);
      DetachKeepsWired(next, head, m.lists, id);
      p := head[id];
      if id.Cpu? {
        head := head[id := 0];
      } else {
        assert Node(next, l, 0);
        head := head[id := next[p]];
      }
      m := Pop(m, id);
    }

    /** The walk over the sleep queue: `prev` is 0 for the queue head itself. */
    method FindSpot(time: nat) returns (prev: nat, at: nat)
      requires Linked() && Descending(m.lists[Sleep], m.wake)
      ensures var l := m.lists[Sleep]; var i := SleepSpot(l, m.wake, time); prev == At(l, i - 1) && at == At(l, i)
    {
      ghost var l := m.lists[Sleep];
      ghost var n := 0;
      assert Wire(next, head, Sleep, l) && Tenants(m.place, Sleep, l);
      prev, at := 0, head[Sleep];
      while at != 0 && time < wake[at]
        invariant 0 <= n <= |l| && at == At(l, n) && prev == At(l, n - 1)
        invariant forall j :: 0 <= j < n ==> time < wake[l[j]]
        decreases |l| - n
      {
        assert Node(next, l, n);
        prev, at := at, next[at];
        n := n + 1;
      }
      assert n < |l| ==> l[n] != 0;
      SpotUnique(l, wake, time, n);
    }

    /** SCHED_SLEEP: insertion by wake time. */
    method InsertSleep(p: nat, time: nat)
      requires Linked() && New(m, p) && Descending(m.lists[Sleep], m.wake)
      modifies this`next, this`head, this`wake, this`m
      ensures Linked() && m == Put(old(m), Sleep, SleepSpot(old(m).lists[Sleep], old(m).wake, time), p).(wake := old(m).wake[p := time])
    {
      ghost var l := m.lists[Sleep];
      ghost var i := SleepSpot(l, m.wake, time);
      ghost var next0, head0 := next, head;
      assert Wire(next, head, Sleep, l) && Tenants(m.place, Sleep, l);
      var prev, at := FindSpot(time);
      if prev == 0 {
        head := head[Sleep := p];
      } else {
        next := next[prev := p];
      }
      next := next[p := at];
      AttachKeepsWired(next0, head0, m.lists, m.place, Sleep, i, p, next, head);
      PutOK(m, Sleep, i, p);
      wake := wake[p := time];
      m := Put(m, Sleep, i, p).(wake := wake);
    }

    /** signal_awake_locked and process_reap take over a whole list. */
    method TakeAll(from: Id, to: Id)
      requires Linked() && from in m.lists && to in m.lists && m.lists[to] == [] && from != Active && to != Active
      requires !from.Cpu? && !to.Cpu? && from != to
      modifies this`head, this`m
      ensures Linked() && m == Move(old(m), from, to)
    {
      assert Wire(next, head, from, m.lists[from]);
      TakeKeepsWired(next, head, m.lists, from, to);
      MoveOK(m, from, to);
      head := head[to := head[from]][from := 0];
      m := Move(m, from, to);
    }

    /** The first sleeper, or 0, and whether it is due. */
    method FirstDue(now: nat) returns (due: bool)
      requires Linked() && Known(m)
      ensures due <==> m.lists[Sleep] != [] && m.wake[m.lists[Sleep][0]] <= now
    {
      assert Wire(next, head, Sleep, m.lists[Sleep]) && Tenants(m.place, Sleep, m.lists[Sleep]);
      due := head[Sleep] != 0 && wake[head[Sleep]] <= now;
    }

    /** The wake-up loop at the head of the sleep queue. */
    method WakeSleepers(now: nat)
      requires Linked() && Known(m)
      modifies this`next, this`head, this`tail, this`m
      ensures Linked() && m == RousedAt(old(m), now)
    {
      var due := FirstDue(now);
      while due
        invariant Linked() && Known(m) && RousedAt(m, now) == RousedAt(old(m), now)
        invariant due <==> m.lists[Sleep] != [] && m.wake[m.lists[Sleep][0]] <= now
        decreases |m.lists[Sleep]|
      {
        RouseFirst(m, now);
        var i := PopFront(Sleep);
        Schedule(i);
        due := FirstDue(now);
      }
      assert Due(m.lists[Sleep], m.wake, now) == 0;
    }

    /** The head of the active queue becomes the current process of CPU c. */
    method RunNext(c: nat)
      requires Linked() && Cpu(c) in m.lists && m.lists[Cpu(c)] == []
      modifies this`head, this`tail, this`m
      ensures Linked() && m == Start(old(m), c)
    {
      ghost var l := m.lists[Active];
      assert Wire(next, head, Active, l) && Tenants(m.place, Active, l);
      if head[Active] != 0 {
        var run := head[Active];
        assert Node(next, l, 0);
        PopOK(m, Active);
        DetachKeepsWired(next, head, m.lists, Active);
        PutOK(Pop(m, Active), Cpu(c), 0, run);
        RunKeepsWired(next, head[Active := next[run]], Pop(m, Active).lists, c, run);
        head := head[Active := next[run]];
        if head[Active] == 0 {
          tail := 0;
        }
        head := head[Cpu(c) := run];
        assert Inserted(m.lists[Cpu(c)], 0, run) == [run];
        m := Start(m, c);
      }
    }

    // The critical sections.

    /** scheduler_run with SCHED_READY, scheduler_run with SCHED_KILL, and so on: the
        current process of CPU c leaves the CPU. */
    method Preempted(c: nat)
      requires Valid() && Enabled(m, Preempt(c))
      modifies this
      ensures Valid() && m == Next(old(m), Preempt(c))
    {
      EventConserves(m, Preempt(c));
      var p := PopFront(Cpu(c));
      Schedule(p);
    }

    method Napping(c: nat, time: nat)
      requires Valid() && Enabled(m, Nap(c, time))
      modifies this
      ensures Valid() && m == Next(old(m), Nap(c, time))
    {
      EventConserves(m, Nap(c, time));
      var p := PopFront(Cpu(c));
      InsertSleep(p, time);
    }

    method Blocked(c: nat, w: nat)
      requires Valid() && Enabled(m, Block(c, w))
      modifies this
      ensures Valid() && m == Next(old(m), Block(c, w))
    {
      EventConserves(m, Block(c, w));
      var p := PopFront(Cpu(c));
      PushFront(Wait(w), p);
    }

    method Killed(c: nat)
      requires Valid() && Enabled(m, Kill(c))
      modifies this
      ensures Valid() && m == Next(old(m), Kill(c))
    {
      EventConserves(m, Kill(c));
      var p := PopFront(Cpu(c));
      PushFront(Reap, p);
    }

    /** process_execve: the process goes on with its new image, the stale pcb is
        discarded. */
    method Executed(c: nat, stale: nat)
      requires Valid() && Enabled(m, Exec(c, stale))
      modifies this
      ensures Valid() && m == Next(old(m), Exec(c, stale))
    {
      EventConserves(m, Exec(c, stale));
      PopOK(m, Cpu(c));
      var p := PopFront(Cpu(c));
      Schedule(p);
      PushFront(Reap, stale);
    }

    method Took(k: nat, w: nat)
      requires Valid() && Enabled(m, Take(k, w))
      modifies this
      ensures Valid() && m == Next(old(m), Take(k, w))
    {
      EventConserves(m, Take(k, w));
      TakeAll(Wait(w), Woken(k));
    }

    /** One turn of signal_awake_locked's loop. */
    method WokeNext(k: nat)
      requires Valid() && Enabled(m, WakeNext(k))
      modifies this
      ensures Valid() && m == Next(old(m), WakeNext(k))
    {
      EventConserves(m, WakeNext(k));
      var i := PopFront(Woken(k));
      Schedule(i);
    }

    method Collected(k: nat)
      requires Valid() && Enabled(m, Collect(k))
      modifies this
      ensures Valid() && m == Next(old(m), Collect(k))
    {
      EventConserves(m, Collect(k));
      TakeAll(Reap, Doomed(k));
    }

    /** One turn of process_reap's loop. */
    method Finished(k: nat)
      requires Valid() && Enabled(m, Bury(k))
      modifies this
      ensures Valid() && m == Next(old(m), Bury(k))
    {
      EventConserves(m, Bury(k));
      var p := PopFront(Doomed(k));
    }

    /** scheduler_schedule of a new process. */
    method Spawned(p: nat)
      requires Valid() && Enabled(m, Spawn(p))
      modifies this
      ensures Valid() && m == Next(old(m), Spawn(p))
    {
      EventConserves(m, Spawn(p));
      Schedule(p);
    }

    /** The second half of scheduler_run. */
    method Dispatched(c: nat, now: nat)
      requires Valid() && Enabled(m, Dispatch(c, now))
      modifies this
      ensures Valid() && m == Next(old(m), Dispatch(c, now))
    {
      EventConserves(m, Dispatch(c, now));
      RouseOK(m, Due(m.lists[Sleep], m.wake, now));
      WakeSleepers(now);
      RunNext(c);
    }
  }

  /** Every sleeper has a wake time. */
  ghost predicate Known(m: Model) {
    Active in m.lists && Sleep in m.lists && forall j :: 0 <= j < |m.lists[Sleep]| ==> m.lists[Sleep][j] in m.wake
  }

  ghost function RousedAt(m: Model, now: nat): Model
    requires Known(m)
  {
    Rouse(m, Due(m.lists[Sleep], m.wake, now))
  }

  lemma {:induction false} RouseFirst(m: Model, now: nat)
    requires Known(m) && m.lists[Sleep] != [] && m.wake[m.lists[Sleep][0]] <= now
    ensures var s := Queue(Pop(m, Sleep), m.lists[Sleep][0]);
      Known(s) && RousedAt(s, now) == RousedAt(m, now) && |s.lists[Sleep]| < |m.lists[Sleep]|
  {
  }

  lemma {:induction false} SpotUnique(l: seq<nat>, wake: Times, time: nat, n: nat)
    requires n <= |l| && forall j :: 0 <= j < |l| ==> l[j] in wake
    requires (forall j :: 0 <= j < n ==> time < wake[l[j]]) && (n < |l| ==> wake[l[n]] <= time)
    ensures SleepSpot(l, wake, time) == n
  {
  }

  /** Nothing is queued or running, and all sleepers wake after time 0. */
  ghost predicate Quiet(m: Model, c: nat) {
    && HasLists(m.lists) && Cpu(c) in m.lists && m.lists[Active] == [] && m.lists[Cpu(c)] == []
    && Descending(m.lists[Sleep], m.wake) && forall i :: 0 <= i < |m.lists[Sleep]| ==> m.wake[m.lists[Sleep][i]] > 0
  }

  /** A new process runs at time 0 and goes to sleep. */
  method StartAndNap(s: Scheduler, c: nat, p: nat, time: nat)
    requires s.Valid() && Quiet(s.m, c) && New(s.m, p) && time > 0
    modifies s
    ensures s.Valid() && Quiet(s.m, c) && s.m.wake == old(s.m).wake[p := time]
    ensures s.m.lists[Sleep] == Inserted(old(s.m).lists[Sleep], SleepSpot(old(s.m).lists[Sleep], old(s.m).wake, time), p)
    ensures s.m.place.Keys == old(s.m).place.Keys + {p}
  {
    ghost var m := s.m;
    s.Spawned(p);
    assert s.m.lists[Active] == [p];
    assert Due(s.m.lists[Sleep], s.m.wake, 0) == 0;
    s.Dispatched(c, 0);
    assert s.m.lists[Cpu(c)] == [p] && s.m.lists[Active] == [];
    s.Napping(c, time);
    forall i | 0 <= i < |s.m.lists[Sleep]| ensures s.m.wake[s.m.lists[Sleep][i]] > 0 {
      InsertedHas(m.lists[Sleep], SleepSpot(m.lists[Sleep], m.wake, time), p, s.m.lists[Sleep][i]);
      ListedIsPlaced(s.m.lists, s.m.place, Sleep, s.m.lists[Sleep][i]);
    }
  }

  /** Two processes go to sleep, one for longer: at a time when only the other is due, a
      dispatch leaves it asleep and the CPU idle. */
  method DueSleeperWaits(soon: nat, now: nat, late: nat) returns (s: Scheduler)
    requires 0 < soon <= now < late
    ensures s.Valid() && 2 in s.m.lists[Sleep] && s.m.wake[2] <= now && Cpu(0) in s.m.lists && s.m.lists[Cpu(0)] == []
  {
    s := new Scheduler({Active, Sleep, Reap, Cpu(0)}, {1, 2});
    StartAndNap(s, 0, 1, late);
    assert s.m.lists[Sleep] == [1];
    StartAndNap(s, 0, 2, soon);
    assert s.m.lists[Sleep] == [1, 2];
    AllOrNone(s.m.lists[Sleep], s.m.wake, now);
    s.Dispatched(0, now);
  }
}
