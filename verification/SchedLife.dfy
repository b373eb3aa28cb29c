/**
  What each critical section does, in terms of the lists alone, and the life of a
  process over whole runs: who gets where, and by which events.
 */
module SchedLife {
  import opened Sequences
  import opened SchedLists
  import opened SchedModel

  /** All lists but these are as before. */
  ghost predicate OthersKept(lists: Lists, lists': Lists, ids: set<Id>) {
    lists'.Keys == lists.Keys && forall id :: id in lists && id !in ids ==> lists'[id] == lists[id]
  }

  /** The lists before and after an event. */
  ghost predicate Effect(m: Model, e: Event, m': Model)
    requires Enabled(m, e)
  {
    var l, l' := m.lists, m'.lists;
    match e
    case Preempt(c) =>
      OthersKept(l, l', {Cpu(c), Active}) && l'[Cpu(c)] == [] && l'[Active] == l[Active] + l[Cpu(c)] && m'.wake == m.wake
    case Nap(c, time) =>
      && OthersKept(l, l', {Cpu(c), Sleep}) && l'[Cpu(c)] == [] && m'.wake == m.wake[l[Cpu(c)][0] := time]
      && Descending(l'[Sleep], m'.wake) && multiset(l'[Sleep]) == multiset(l[Sleep]) + multiset(l[Cpu(c)])
    case Block(c, w) =>
      OthersKept(l, l', {Cpu(c), Wait(w)}) && l'[Cpu(c)] == [] && l'[Wait(w)] == l[Cpu(c)] + l[Wait(w)] && m'.wake == m.wake
    case Kill(c) =>
      OthersKept(l, l', {Cpu(c), Reap}) && l'[Cpu(c)] == [] && l'[Reap] == l[Cpu(c)] + l[Reap] && m'.wake == m.wake
    case Exec(c, stale) =>
      && OthersKept(l, l', {Cpu(c), Active, Reap}) && l'[Cpu(c)] == [] && l'[Active] == l[Active] + l[Cpu(c)]
      && l'[Reap] == [stale] + l[Reap] && m'.wake == m.wake
    case Take(k, w) =>
      OthersKept(l, l', {Wait(w), Woken(k)}) && l'[Wait(w)] == [] && l'[Woken(k)] == l[Wait(w)] && m'.wake == m.wake
    case WakeNext(k) =>
      && OthersKept(l, l', {Woken(k), Active}) && [l[Woken(k)][0]] + l'[Woken(k)] == l[Woken(k)]
      && l'[Active] == l[Active] + [l[Woken(k)][0]] && m'.wake == m.wake
    case Collect(k) =>
      OthersKept(l, l', {Reap, Doomed(k)}) && l'[Reap] == [] && l'[Doomed(k)] == l[Reap] && m'.wake == m.wake
    case Bury(k) => OthersKept(l, l', {Doomed(k)}) && [l[Doomed(k)][0]] + l'[Doomed(k)] == l[Doomed(k)] && m'.wake == m.wake
    case Spawn(p) => OthersKept(l, l', {Active}) && l'[Active] == l[Active] + [p] && m'.wake == m.wake
    case Dispatch(c, now) =>
      && OthersKept(l, l', {Cpu(c), Active, Sleep}) && m'.wake == m.wake
      && (if AllDue(m, now)
          then l'[Sleep] == [] && l'[Cpu(c)] + l'[Active] == l[Active] + l[Sleep]
          else l'[Sleep] == l[Sleep] && l'[Cpu(c)] + l'[Active] == l[Active])
      && |l'[Cpu(c)]| <= 1 && (l'[Cpu(c)] == [] ==> l'[Active] == [])
  }

  lemma {:induction false} OneOnCpu(l: seq<nat>)
    requires |l| == 1
    ensures l == [l[0]] && l[1..] == []
  {
  }

  lemma {:induction false} StartEffect(m: Model, c: nat)
    requires Active in m.lists && Cpu(c) in m.lists && m.lists[Cpu(c)] == []
    ensures var l, l' := m.lists, Start(m, c).lists;
      && OthersKept(l, l', {Cpu(c), Active}) && Start(m, c).wake == m.wake && l'[Cpu(c)] + l'[Active] == l[Active]
      && |l'[Cpu(c)]| <= 1 && (l'[Cpu(c)] == [] ==> l'[Active] == [])
  {
    var queue := m.lists[Active];
    if queue != [] {
      assert [queue[0]] + queue[1..] == queue;
      assert Inserted(m.lists[Cpu(c)], 0, queue[0]) == [queue[0]];
    }
  }

  ghost predicate AllDue(m: Model, now: nat) {
    Sleep in m.lists && forall i :: 0 <= i < |m.lists[Sleep]| ==> m.lists[Sleep][i] in m.wake && m.wake[m.lists[Sleep][i]] <= now
  }

  lemma {:induction false} RouseEffect(m: Model, now: nat)
    requires ModelOK(m)
    ensures var r := Rouse(m, Due(m.lists[Sleep], m.wake, now));
      && ListsOK(r) && OthersKept(m.lists, r.lists, {Active, Sleep}) && r.wake == m.wake
      && r.lists[Sleep] == (if AllDue(m, now) then [] else m.lists[Sleep])
      && r.lists[Active] == m.lists[Active] + if AllDue(m, now) then m.lists[Sleep] else []
  {
    var sleep := m.lists[Sleep];
    AllOrNone(sleep, m.wake, now);
    RouseOK(m, Due(sleep, m.wake, now));
    assert sleep[..0] == [] && sleep[0..] == sleep && sleep[..|sleep|] == sleep && sleep[|sleep|..] == [];
  }

  lemma {:induction false} DispatchEffect(m: Model, c: nat, now: nat)
    requires ModelOK(m) && Enabled(m, Dispatch(c, now))
    ensures Effect(m, Dispatch(c, now), Next(m, Dispatch(c, now)))
  {
    RouseEffect(m, now);
    StartEffect(Rouse(m, Due(m.lists[Sleep], m.wake, now)), c);
    assert m.lists[Active] + [] == m.lists[Active];
  }

  lemma {:induction false} NapEffect(m: Model, c: nat, time: nat)
    requires ModelOK(m) && Enabled(m, Nap(c, time))
    ensures Effect(m, Nap(c, time), Next(m, Nap(c, time)))
  {
    NapOK(m, c, time);
    var sleep, p := m.lists[Sleep], m.lists[Cpu(c)][0];
    OneOnCpu(m.lists[Cpu(c)]);
    var i := SleepSpot(sleep, m.wake, time);
    assert sleep == sleep[..i] + sleep[i..];
    assert Inserted(sleep, i, p) == sleep[..i] + [p] + sleep[i..];
  }

  lemma {:induction false} LeavingEffect(m: Model, e: Event)
    requires ModelOK(m) && Enabled(m, e) && Leaves(e) && !e.Nap?
    ensures Effect(m, e, Next(m, e))
  {
    OneOnCpu(m.lists[Cpu(e.c)]);
  }

  /** Every critical section does to the lists exactly this. */
  lemma {:induction false} NextEffect(m: Model, e: Event)
    requires ModelOK(m) && Enabled(m, e)
    ensures Effect(m, e, Next(m, e))
  {
    match e
    case Dispatch(c, now) => DispatchEffect(m, c, now);
    case Nap(c, time) => NapEffect(m, c, time);
    case Take(k, w) =>
    case WakeNext(k) =>
    case Collect(k) =>
    case Bury(k) =>
    case Spawn(p) =>
    case _ => LeavingEffect(m, e);
  }

  // The life of one process.

  /** The ways from one list to another, and the events that lead there. */
  predicate Edge(e: Event, from: Id, to: Id) {
    match e
    case Preempt(c) => from == Cpu(c) && to == Active
    case Nap(c, time) => from == Cpu(c) && to == Sleep
    case Block(c, w) => from == Cpu(c) && to == Wait(w)
    case Kill(c) => from == Cpu(c) && to == Reap
    case Exec(c, stale) => from == Cpu(c) && to == Active
    case Take(k, w) => from == Wait(w) && to == Woken(k)
    case WakeNext(k) => from == Woken(k) && to == Active
    case Collect(k) => from == Reap && to == Doomed(k)
    case Bury(k) => false
    case Spawn(p) => false
    case Dispatch(c, now) => (from == Sleep && (to == Active || to == Cpu(c))) || (from == Active && to == Cpu(c))
  }

  /** A process is on the list it is placed on, and on no other. */
  lemma {:induction false} OnlyThere(m: Model, p: nat, id: Id)
    requires ModelOK(m) && id in m.lists
    ensures p in m.lists[id] <==> p in m.place && m.place[p] == id
  {
    assert Placed(m.lists, m.place, p);
    if p in m.lists[id] {
      ListedIsPlaced(m.lists, m.place, id, p);
    }
  }

  /** Who is on a list after an event that was not on it before came from a list that the
      event connects with it. */
  lemma {:induction false} CameFrom(m: Model, e: Event, m': Model, p: nat, to: Id) returns (from: Id)
    requires Enabled(m, e) && Effect(m, e, m') && to in m'.lists && p in m'.lists[to] && p !in Born(e)
    ensures from in m.lists && p in m.lists[from] && (from == to || Edge(e, from, to))
  {
    var l, l' := m.lists, m'.lists;
    from := to;
    match e
    case Preempt(c) =>
      if to == Active && p in l[Cpu(c)] {
        from := Cpu(c);
      }
    case Nap(c, time) =>
      if to == Sleep {
        assert p in multiset(l'[Sleep]);
        if p in multiset(l[Cpu(c)]) {
          from := Cpu(c);
        }
      }
    case Block(c, w) =>
      if to == Wait(w) && p in l[Cpu(c)] {
        from := Cpu(c);
      }
    case Kill(c) =>
      if to == Reap && p in l[Cpu(c)] {
        from := Cpu(c);
      }
    case Exec(c, stale) =>
      if to == Active && p in l[Cpu(c)] {
        from := Cpu(c);
      }
    case Take(k, w) =>
      if to == Woken(k) {
        from := Wait(w);
      }
    case WakeNext(k) =>
      if to == Active && p == l[Woken(k)][0] {
        from := Woken(k);
      }
      assert to == Woken(k) ==> p in [l[Woken(k)][0]] + l'[Woken(k)];
    case Collect(k) =>
      if to == Doomed(k) {
        from := Reap;
      }
    case Bury(k) => assert to == Doomed(k) ==> p in [l[Doomed(k)][0]] + l'[Doomed(k)];
    case Spawn(q) =>
    case Dispatch(c, now) =>
      if to == Cpu(c) || to == Active {
        var queue: seq<nat> := l'[Cpu(c)] + l'[Active];
        assert p in queue;
        from := if p in l[Active] then Active else Sleep;
      }
  }

  /** Every event moves a process along one of these ways, or not at all. */
  lemma {:induction false} EventEdges(m: Model, e: Event, p: nat)
    requires ModelOK(m) && Enabled(m, e) && p in m.place
    ensures ModelOK(Next(m, e)) && (p in Next(m, e).place || (e.Bury? && m.place[p] == Doomed(e.k)))
    ensures p in Next(m, e).place ==> Next(m, e).place[p] == m.place[p] || Edge(e, m.place[p], Next(m, e).place[p])
  {
    EventConserves(m, e);
    NextEffect(m, e);
    var m' := Next(m, e);
    if p in m'.place {
      assert Placed(m'.lists, m'.place, p);
      var from := CameFrom(m, e, m', p, m'.place[p]);
      OnlyThere(m, p, from);
    } else {
      ListedIsPlaced(m.lists, m.place, Doomed(e.k), p);
    }
  }

  // Killed processes.

  predicate Dead(id: Id) {
    id == Reap || id.Doomed?
  }

  /** p is on no list, or waits to be reaped. */
  ghost predicate Gone(m: Model, p: nat) {
    p in m.place ==> Dead(m.place[p])
  }

  lemma {:induction false} GoneStays(m: Model, e: Event, p: nat)
    requires ModelOK(m) && Enabled(m, e) && Gone(m, p) && p !in Born(e)
    ensures ModelOK(Next(m, e)) && Gone(Next(m, e), p)
  {
    EventConserves(m, e);
    if p in m.place {
      EventEdges(m, e, p);
    }
  }

  lemma {:induction false} GoneOverRun(m: Model, es: seq<Event>, p: nat)
    requires ModelOK(m) && Runs(m, es) && Gone(m, p) && p !in AllBorn(es)
    ensures Gone(After(m, es), p)
    decreases |es|
  {
    if es != [] {
      EventConserves(m, es[0]);
      assert p !in multiset(Born(es[0])) && p !in AllBorn(es[1..]);
      GoneStays(m, es[0], p);
      GoneOverRun(Next(m, es[0]), es[1..], p);
    }
  }

  /** A killed process is never queued, asleep, waiting or running again, in any later state
      of any run, until a process is made of it anew; and only the reaper removes it. */
  lemma {:induction false} KilledNeverRuns(m: Model, c: nat, es: seq<Event>)
    requires ModelOK(m) && Enabled(m, Kill(c)) && ModelOK(Next(m, Kill(c))) && Runs(Next(m, Kill(c)), es)
    requires m.lists[Cpu(c)][0] !in AllBorn(es)
    ensures var p, r := m.lists[Cpu(c)][0], After(Next(m, Kill(c)), es);
      && (forall id :: id in r.lists && !Dead(id) ==> p !in r.lists[id])
      && (p !in AllBuried(Next(m, Kill(c)), es) ==> p in r.place && Dead(r.place[p]))
  {
    var p, m' := m.lists[Cpu(c)][0], Next(m, Kill(c));
    NextEffect(m, Kill(c));
    assert p in m'.lists[Reap];
    OnlyThere(m', p, Reap);
    GoneOverRun(m', es, p);
    var r := After(m', es);
    forall id | id in r.lists && !Dead(id) ensures p !in r.lists[id] {
      OnlyThere(r, p, id);
    }
    if p !in AllBuried(m', es) {
      LiveUnlessBuried(m', es, p);
    }
  }

  // Blocked processes.

  /** Waker k schedules somebody in the run. */
  predicate WakesFrom(es: seq<Event>, k: nat) {
    es != [] && (es[0] == WakeNext(k) || WakesFrom(es[1..], k))
  }

  /** Wait queue w is taken in the run, and the waker that took it schedules somebody
      afterwards. */
  predicate TakesAndWakes(es: seq<Event>, w: nat) {
    es != [] && ((es[0].Take? && es[0].w == w && WakesFrom(es[1..], es[0].k)) || TakesAndWakes(es[1..], w))
  }

  /** Who left a waker's list was woken from it. */
  lemma {:induction false} LeftWaker(m: Model, es: seq<Event>, p: nat, k: nat)
    requires ModelOK(m) && Runs(m, es) && p in m.place && m.place[p] == Woken(k)
    requires var r := After(m, es); p in r.place ==> !r.place[p].Woken?
    ensures WakesFrom(es, k)
    decreases |es|
  {
    EventEdges(m, es[0], p);
    if es[0] != WakeNext(k) {
      LeftWaker(Next(m, es[0]), es[1..], p, k);
    }
  }

  lemma {:induction false} LeavesWait(m: Model, e: Event, p: nat, w: nat)
    requires ModelOK(m) && Enabled(m, e) && p in m.place && m.place[p] == Wait(w)
    ensures ModelOK(Next(m, e)) && p in Next(m, e).place
    ensures Next(m, e).place[p] == if e.Take? && e.w == w then Woken(e.k) else Wait(w)
  {
    EventEdges(m, e, p);
    if e.Take? && e.w == w {
      NextEffect(m, e);
      OnlyThere(Next(m, e), p, Wait(w));
    }
  }

  /** A blocked process gets off its wait queue only when that queue is taken, and is
      scheduled only by the waker that took it, afterwards. */
  lemma {:induction false} BlockedUntilWoken(m: Model, es: seq<Event>, p: nat, w: nat)
    requires ModelOK(m) && Runs(m, es) && p in m.place && m.place[p] == Wait(w)
    requires var r := After(m, es); p in r.place ==> r.place[p] != Wait(w) && !r.place[p].Woken?
    ensures TakesAndWakes(es, w)
    decreases |es|
  {
    LeavesWait(m, es[0], p, w);
    if es[0].Take? && es[0].w == w {
      LeftWaker(Next(m, es[0]), es[1..], p, es[0].k);
    } else {
      BlockedUntilWoken(Next(m, es[0]), es[1..], p, w);
    }
  }
}
