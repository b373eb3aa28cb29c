/**
  The lists that share the one `next` field of a process control block: the active
  queue, the sleep queue, wait queues, the reap queue, lists that a waker or the
  reaper has taken and is walking, and the processors' current processes.
 */
module SchedLists {
  import opened Sequences

  /** Which list a process is on. `Woken(k)` is the list that waker k took off a wait queue,
      `Doomed(k)` the one that reaper k took off the reap queue, `Cpu(c)` the process that
      CPU c runs. */
  datatype Id = Active | Sleep | Wait(w: nat) | Reap | Woken(k: nat) | Doomed(k: nat) | Cpu(c: nat)

  type Links = map<nat, nat>
  type Heads = map<Id, nat>
  type Lists = map<Id, seq<nat>>
  type Places = map<nat, Id>

  ghost predicate Node(next: Links, l: seq<nat>, i: int) {
    0 <= i < |l| ==> l[i] in next && next[l[i]] == At(l, i + 1)
  }

  /** A chain of `next` fields from the head spells the list; a running process's
      `next` field is not in use. */
  ghost predicate Chained(next: Links, id: Id, l: seq<nat>) {
    if id.Cpu? then |l| <= 1 else forall i {:trigger Node(next, l, i)} :: Node(next, l, i)
  }

  ghost predicate Tenants(place: Places, id: Id, l: seq<nat>) {
    Distinct(l) && forall i :: 0 <= i < |l| ==> l[i] in place && place[l[i]] == id
  }

  ghost predicate Placed(lists: Lists, place: Places, p: nat) {
    p in place ==> place[p] in lists && p in lists[place[p]]
  }

  /** Every process is on exactly one list, exactly once. */
  ghost predicate Housed(lists: Lists, place: Places) {
    && 0 !in place
    && (forall id {:trigger Tenants(place, id, lists[id])} :: id in lists ==> Tenants(place, id, lists[id]))
    && (forall p {:trigger Placed(lists, place, p)} :: Placed(lists, place, p))
  }

  ghost predicate Wire(next: Links, head: Heads, id: Id, l: seq<nat>) {
    id in head && head[id] == At(l, 0) && Chained(next, id, l)
  }

  /** Every list is spelled by its own chain. */
  ghost predicate Wired(next: Links, head: Heads, lists: Lists) {
    forall id {:trigger Wire(next, head, id, lists[id])} :: id in lists ==> Wire(next, head, id, lists[id])
  }

  /** What this says to a reader. */
  lemma {:induction false} OnOneListOnce(lists: Lists, place: Places, id: Id, i: nat, id': Id, j: nat)
    requires Housed(lists, place) && id in lists && id' in lists
    requires i < |lists[id]| && j < |lists[id']| && lists[id][i] == lists[id'][j]
    ensures id == id' && i == j && lists[id][i] in place
  {
    assert Tenants(place, id, lists[id]) && Tenants(place, id', lists[id']);
  }

  lemma {:induction false} ListedIsPlaced(lists: Lists, place: Places, id: Id, p: nat)
    requires Housed(lists, place) && id in lists && p in lists[id]
    ensures p in place && place[p] == id && p != 0
  {
    assert Tenants(place, id, lists[id]);
  }

  /** The `next` fields after linking p in front of position i. */
  ghost predicate Relinked(next: Links, l: seq<nat>, i: nat, p: nat, next': Links)
    requires i <= |l|
  {
    && next'.Keys == next.Keys + {p}
    && next'[p] == At(l, i)
    && (forall k :: k in next && k != p ==> next'[k] == if i > 0 && k == l[i - 1] then p else next[k])
  }

  lemma {:induction false} LinkedChain(next: Links, id: Id, l: seq<nat>, i: nat, p: nat, next': Links)
    requires i <= |l| && Distinct(l) && p !in l && Relinked(next, l, i, p, next') && !id.Cpu? && Chained(next, id, l)
    ensures Chained(next', id, Inserted(l, i, p))
  {
    forall j ensures Node(next', Inserted(l, i, p), j) {
      InsertedAt(l, i, p, j);
      InsertedAt(l, i, p, j + 1);
      var k := if j < i then j else j - 1;
      assert Node(next, l, k);
    }
  }

  /** A list that neither p nor p's new neighbour is on is not affected. */
  lemma {:induction false} OtherChain(next: Links, id: Id, l: seq<nat>, next': Links)
    requires Chained(next, id, l) && forall i :: 0 <= i < |l| && l[i] in next ==> l[i] in next' && next'[l[i]] == next[l[i]]
    ensures Chained(next', id, l)
  {
    if !id.Cpu? {
      forall j ensures Node(next', l, j) {
        assert Node(next, l, j);
      }
    }
  }

  // A process that is on no list joins list id at position i.

  lemma {:induction false} AttachKeepsHoused(lists: Lists, place: Places, id: Id, i: nat, p: nat)
    requires Housed(lists, place) && p !in place && p != 0 && id in lists && i <= |lists[id]|
    ensures Housed(lists[id := Inserted(lists[id], i, p)], place[p := id])
  {
    var l := lists[id];
    var lists', place' := lists[id := Inserted(l, i, p)], place[p := id];
    assert Tenants(place, id, l);
    forall x | x in lists' ensures Tenants(place', x, lists'[x]) {
      assert Tenants(place, x, lists[x]);
      if x == id {
        InsertedDistinct(l, i, p);
      }
    }
    forall q ensures Placed(lists', place', q) {
      assert Placed(lists, place, q);
      InsertedHas(l, i, p, q);
    }
  }

  lemma {:induction false} AttachKeepsWired(next: Links, head: Heads, lists: Lists, place: Places, id: Id, i: nat, p: nat, next': Links, head': Heads)
    requires Housed(lists, place) && Wired(next, head, lists) && p !in place && id in lists && !id.Cpu?
    requires i <= |lists[id]| && Relinked(next, lists[id], i, p, next')
    requires head' == if i == 0 then head[id := p] else head
    ensures Wired(next', head', lists[id := Inserted(lists[id], i, p)])
  {
    var l := lists[id];
    var lists' := lists[id := Inserted(l, i, p)];
    assert Tenants(place, id, l) && Wire(next, head, id, l);
    forall x | x in lists' ensures Wire(next', head', x, lists'[x]) {
      assert Tenants(place, x, lists[x]) && Wire(next, head, x, lists[x]);
      if x == id {
        LinkedChain(next, id, l, i, p, next');
        InsertedAt(l, i, p, 0);
      } else {
        OtherChain(next, x, lists[x], next');
      }
    }
  }

  // The first process leaves list id.

  lemma {:induction false} DetachKeepsHoused(lists: Lists, place: Places, id: Id)
    requires Housed(lists, place) && id in lists && lists[id] != []
    ensures lists[id][0] in place && Housed(lists[id := lists[id][1..]], place - {lists[id][0]})
  {
    var l := lists[id];
    var p, l' := l[0], l[1..];
    var lists', place' := lists[id := l'], place - {p};
    assert Tenants(place, id, l);
    forall x | x in lists' ensures Tenants(place', x, lists'[x]) {
      assert Tenants(place, x, lists[x]);
    }
    forall q ensures Placed(lists', place', q) {
      assert Placed(lists, place, q);
      assert l == [p] + l';
    }
  }

  lemma {:induction false} DetachKeepsWired(next: Links, head: Heads, lists: Lists, id: Id)
    requires Wired(next, head, lists) && id in lists && lists[id] != []
    ensures Wired(next, head[id := At(lists[id], 1)], lists[id := lists[id][1..]])
  {
    var head', lists' := head[id := At(lists[id], 1)], lists[id := lists[id][1..]];
    forall x | x in lists' ensures Wire(next, head', x, lists'[x]) {
      assert Wire(next, head, x, lists[x]);
      if x == id {
        TailChain(next, id, lists[id]);
      }
    }
  }

  lemma {:induction false} TailChain(next: Links, id: Id, l: seq<nat>)
    requires l != [] && Chained(next, id, l)
    ensures Chained(next, id, l[1..])
  {
    if !id.Cpu? {
      forall j ensures Node(next, l[1..], j) {
        assert Node(next, l, j + 1);
      }
    }
  }

  // A whole list moves into an empty one.

  /** The places after everything on list `from` has moved to list `to`. */
  function Moved(place: Places, from: Id, to: Id): Places {
    map p | p in place :: if place[p] == from then to else place[p]
  }

  lemma {:induction false} TakeKeepsHoused(lists: Lists, place: Places, from: Id, to: Id)
    requires Housed(lists, place) && from in lists && to in lists && from != to && lists[to] == []
    ensures Housed(lists[to := lists[from]][from := []], Moved(place, from, to))
  {
    var lists', place' := lists[to := lists[from]][from := []], Moved(place, from, to);
    assert Tenants(place, from, lists[from]);
    forall x | x in lists' ensures Tenants(place', x, lists'[x]) {
      assert Tenants(place, x, lists[x]);
    }
    forall q ensures Placed(lists', place', q) {
      assert Placed(lists, place, q);
    }
  }

  lemma {:induction false} TakeKeepsWired(next: Links, head: Heads, lists: Lists, from: Id, to: Id)
    requires Wired(next, head, lists) && from in lists && to in lists && from != to && !from.Cpu? && !to.Cpu?
    ensures Wired(next, head[to := At(lists[from], 0)][from := 0], lists[to := lists[from]][from := []])
  {
    var head', lists' := head[to := At(lists[from], 0)][from := 0], lists[to := lists[from]][from := []];
    assert Wire(next, head, from, lists[from]);
    forall x | x in lists' ensures Wire(next, head', x, lists'[x]) {
      assert Wire(next, head, x, lists[x]);
    }
  }

  // A CPU with nothing to run takes process p.

  lemma {:induction false} RunKeepsWired(next: Links, head: Heads, lists: Lists, c: nat, p: nat)
    requires Wired(next, head, lists) && Cpu(c) in lists
    ensures Wired(next, head[Cpu(c) := p], lists[Cpu(c) := [p]])
  {
    var head', lists' := head[Cpu(c) := p], lists[Cpu(c) := [p]];
    forall x | x in lists' ensures Wire(next, head', x, lists'[x]) {
      assert Wire(next, head, x, lists[x]);
    }
  }
}
