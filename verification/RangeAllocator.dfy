/**
  The range allocator's list as the kernel keeps it: nodes linked both ways between
  two guard nodes, and a stack of spare nodes linked by the same `next` field.
 */
module RangeAllocator {
  import opened Sequences
  import opened Ranges

  datatype Node = Node(base: nat, size: nat, next: nat, prev: nat)

  type Nodes = map<nat, Node>

  /** Node k of the chain and the next one point at each other. */
  ghost predicate Link(nodes: Nodes, chain: seq<nat>, k: int) {
    0 <= k < |chain| - 1 ==>
      && chain[k] in nodes && chain[k + 1] in nodes
      && nodes[chain[k]].next == chain[k + 1] && nodes[chain[k + 1]].prev == chain[k]
  }

  ghost predicate Chained(nodes: Nodes, chain: seq<nat>) {
    forall k {:trigger Link(nodes, chain, k)} :: Link(nodes, chain, k)
  }

  ghost predicate Stacked(nodes: Nodes, top: nat, spare: seq<nat>) {
    top == At(spare, 0) && forall k {:trigger Below(nodes, spare, k)} :: Below(nodes, spare, k)
  }

  ghost predicate Below(nodes: Nodes, spare: seq<nat>, k: int) {
    0 <= k < |spare| ==> spare[k] in nodes && nodes[spare[k]].next == At(spare, k + 1)
  }

  /** The chain from the first guard to the last. */
  function Chain(first: nat, ids: seq<nat>, last: nat): seq<nat> {
    [first] + ids + [last]
  }

  function RangeOf(n: Node): Range {
    Range(n.base, n.size)
  }

  ghost function RangesOf(nodes: Nodes, ids: seq<nat>): (r: seq<Range>)
    requires forall k :: 0 <= k < |ids| ==> ids[k] in nodes
    ensures |r| == |ids| && forall k :: 0 <= k < |ids| ==> r[k] == RangeOf(nodes[ids[k]])
  {
    seq(|ids|, k requires 0 <= k < |ids| => RangeOf(nodes[ids[k]]))
  }

  /** Only links differ. */
  ghost predicate SameSpans(nodes: Nodes, nodes': Nodes) {
    nodes'.Keys == nodes.Keys && forall x :: x in nodes ==> RangeOf(nodes'[x]) == RangeOf(nodes[x])
  }

  // Linking and unlinking in the middle of a chain.

  /** `nodes'` is `nodes` with x linked in front of chain position k. */
  ghost predicate Links(nodes: Nodes, chain: seq<nat>, k: nat, x: nat, nodes': Nodes)
    requires 0 < k < |chain|
  {
    && nodes'.Keys == nodes.Keys + {x}
    && nodes'[x].next == chain[k] && nodes'[x].prev == chain[k - 1]
    && (forall y :: y in nodes && y != x ==>
          && nodes'[y].next == (if y == chain[k - 1] then x else nodes[y].next)
          && nodes'[y].prev == (if y == chain[k] then x else nodes[y].prev))
  }

  lemma {:induction false} LinkedChain(nodes: Nodes, chain: seq<nat>, k: nat, x: nat, nodes': Nodes)
    requires Chained(nodes, chain) && Distinct(chain) && x !in chain && 0 < k < |chain| && Links(nodes, chain, k, x, nodes')
    ensures Chained(nodes', Inserted(chain, k, x)) && Distinct(Inserted(chain, k, x))
  {
    InsertedDistinct(chain, k, x);
    forall j ensures Link(nodes', Inserted(chain, k, x), j) {
      LinkedAt(nodes, chain, k, x, nodes', j);
    }
  }

  lemma {:induction false} LinkedAt(nodes: Nodes, chain: seq<nat>, k: nat, x: nat, nodes': Nodes, j: int)
    requires Chained(nodes, chain) && Distinct(chain) && x !in chain && 0 < k < |chain| && Links(nodes, chain, k, x, nodes')
    ensures Link(nodes', Inserted(chain, k, x), j)
  {
    var long := Inserted(chain, k, x);
    assert Link(nodes, chain, k - 1);
    assert Link(nodes, chain, if j < k then j else j - 1);
    if 0 <= j < |long| - 1 {
      assert long[j] == if j < k then chain[j] else if j == k then x else chain[j - 1];
      assert long[j + 1] == if j + 1 < k then chain[j + 1] else if j + 1 == k then x else chain[j];
    }
  }

  /** `nodes'` is `nodes` with chain position k unlinked. */
  ghost predicate Unlinks(nodes: Nodes, chain: seq<nat>, k: nat, nodes': Nodes)
    requires 0 < k < |chain| - 1
  {
    && nodes'.Keys == nodes.Keys
    && (forall y :: y in nodes ==>
          && nodes'[y].next == (if y == chain[k - 1] then chain[k + 1] else nodes[y].next)
          && nodes'[y].prev == (if y == chain[k + 1] then chain[k - 1] else nodes[y].prev))
  }

  lemma {:induction false} UnlinkedChain(nodes: Nodes, chain: seq<nat>, k: nat, nodes': Nodes)
    requires Chained(nodes, chain) && Distinct(chain) && 0 < k < |chain| - 1 && Unlinks(nodes, chain, k, nodes')
    ensures Chained(nodes', Without(chain, k)) && Distinct(Without(chain, k))
  {
    WithoutDistinct(chain, k);
    forall j ensures Link(nodes', Without(chain, k), j) {
      UnlinkedAt(nodes, chain, k, nodes', j);
    }
  }

  lemma {:induction false} UnlinkedAt(nodes: Nodes, chain: seq<nat>, k: nat, nodes': Nodes, j: int)
    requires Chained(nodes, chain) && Distinct(chain) && 0 < k < |chain| - 1 && Unlinks(nodes, chain, k, nodes')
    ensures Link(nodes', Without(chain, k), j)
  {
    var short := Without(chain, k);
    assert Link(nodes, chain, j) && Link(nodes, chain, j + 1) && Link(nodes, chain, k);
    if 0 <= j < |short| - 1 {
      assert short[j] == if j < k then chain[j] else chain[j + 1];
      assert short[j + 1] == if j + 1 < k then chain[j + 1] else chain[j + 2];
    }
  }

  /** Nodes off the chain do not matter to it. */
  lemma {:induction false} ChainKept(nodes: Nodes, chain: seq<nat>, nodes': Nodes)
    requires Chained(nodes, chain)
    requires forall x :: x in nodes && x in chain ==> x in nodes' && nodes'[x].next == nodes[x].next && nodes'[x].prev == nodes[x].prev
    ensures Chained(nodes', chain)
  {
    forall j ensures Link(nodes', chain, j) {
      assert Link(nodes, chain, j);
    }
  }

  lemma {:induction false} StackKept(nodes: Nodes, top: nat, spare: seq<nat>, nodes': Nodes)
    requires Stacked(nodes, top, spare)
    requires forall x :: x in nodes && x in spare ==> x in nodes' && nodes'[x].next == nodes[x].next
    ensures Stacked(nodes', top, spare)
  {
    forall j ensures Below(nodes', spare, j) {
      assert Below(nodes, spare, j);
    }
  }

  lemma {:induction false} GluedRanges(nodes: Nodes, ids: seq<nat>, k: nat, nodes': Nodes)
    requires AllIn(nodes, ids) && k + 1 < |ids| && nodes'.Keys == nodes.Keys && forall j :: 0 <= j < |ids| && j != k ==> ids[j] != ids[k]
    requires RangeOf(nodes'[ids[k]]) == Range(nodes[ids[k]].base, nodes[ids[k]].size + nodes[ids[k + 1]].size)
    requires forall x :: x in nodes && x != ids[k] ==> RangeOf(nodes'[x]) == RangeOf(nodes[x])
    ensures AllIn(nodes', Without(ids, k + 1)) && RangesOf(nodes', Without(ids, k + 1)) == Glued(RangesOf(nodes, ids), k)
  {
    var short := Without(ids, k + 1);
    assert forall j :: 0 <= j < |short| ==> short[j] == if j < k + 1 then ids[j] else ids[j + 1];
  }

  lemma {:induction false} PutRanges(nodes: Nodes, ids: seq<nat>, k: nat, x: nat, nodes': Nodes)
    requires AllIn(nodes, ids) && k <= |ids| && x in nodes && SameSpans(nodes, nodes')
    ensures AllIn(nodes', Inserted(ids, k, x)) && RangesOf(nodes', Inserted(ids, k, x)) == Put(RangesOf(nodes, ids), k, RangeOf(nodes[x]))
  {
    var long := Inserted(ids, k, x);
    assert forall j :: 0 <= j < |long| ==> long[j] == if j < k then ids[j] else if j == k then x else ids[j - 1];
  }

  // The chain between the guards.

  lemma {:induction false} ChainInserted(first: nat, ids: seq<nat>, last: nat, k: nat, x: nat)
    requires k <= |ids|
    ensures Inserted(Chain(first, ids, last), k + 1, x) == Chain(first, Inserted(ids, k, x), last)
  {
  }

  lemma {:induction false} ChainWithout(first: nat, ids: seq<nat>, last: nat, k: nat)
    requires k < |ids|
    ensures Without(Chain(first, ids, last), k + 1) == Chain(first, Without(ids, k), last)
  {
  }

  lemma {:induction false} ChainHas(first: nat, ids: seq<nat>, last: nat, x: nat)
    ensures x in Chain(first, ids, last) <==> x == first || x == last || x in ids
  {
  }

  /** List nodes differ from the guards and from each other. */
  lemma {:induction false} ApartOnChain(first: nat, ids: seq<nat>, last: nat, k: nat)
    requires k < |ids| && Distinct(Chain(first, ids, last))
    ensures ids[k] != first && ids[k] != last && forall j :: 0 <= j < |ids| && j != k ==> ids[j] != ids[k]
  {
    var chain := Chain(first, ids, last);
    assert chain[0] == first && chain[|ids| + 1] == last && chain[k + 1] == ids[k];
    assert forall j :: 0 <= j < |ids| ==> chain[j + 1] == ids[j];
  }

  ghost predicate AllIn(nodes: Nodes, ids: seq<nat>) {
    forall k :: 0 <= k < |ids| ==> ids[k] in nodes
  }

  /** The guards are empty ranges at address 0, which ends every search. */
  ghost predicate Guards(nodes: Nodes, first: nat, last: nat) {
    && first in nodes && nodes[first].base == 0 && nodes[first].size == 0
    && last in nodes && nodes[last].base == 0 && nodes[last].size == 0
  }

  ghost predicate Wiring(nodes: Nodes, first: nat, ids: seq<nat>, last: nat, top: nat, spare: seq<nat>) {
    && 0 !in nodes && Guards(nodes, first, last) && AllIn(nodes, ids)
    && Chained(nodes, Chain(first, ids, last)) && Distinct(Chain(first, ids, last))
    && Stacked(nodes, top, spare) && Distinct(spare)
    && (forall x :: x in spare ==> x !in Chain(first, ids, last))
  }

  /** A node that is neither on the list nor spare. */
  ghost predicate Loose(nodes: Nodes, first: nat, ids: seq<nat>, last: nat, spare: seq<nat>, x: nat) {
    x in nodes && x !in Chain(first, ids, last) && x !in spare
  }

  class RangeList {
    const first: nat
    const last: nat
    var nodes: Nodes
    var reuse: nat
    ghost var ids: seq<nat>
    ghost var spare: seq<nat>

    ghost predicate Wired()
      reads this
    {
      Wiring(nodes, first, ids, last, reuse, spare)
    }

    /** The list as the ranges it stands for. */
    ghost function Ranges(): (r: seq<Range>)
      requires Wired()
      reads this
    {
      RangesOf(nodes, ids)
    }

    ghost predicate Valid()
      reads this
    {
      Wired() && ListOK(Ranges())
    }

    /** All that a list keeps once a page has been freed twice. */
    ghost predicate Usable()
      reads this
    {
      Wired() && Ascending(Ranges())
    }

    ghost predicate IsLoose(x: nat)
      reads this
    {
      Loose(nodes, first, ids, last, spare, x)
    }

    /** The empty list of mm_init. */
    constructor (first: nat, last: nat)
      requires first != 0 && last != 0 && first != last
      ensures Valid() && Ranges() == [] && this.first == first && this.last == last
    {
      this.first, this.last, reuse := first, last, 0;
      nodes := map[first := Node(0, 0, last, 0), last := Node(0, 0, 0, first)];
      ids, spare := [], [];
    }

    /** alloc_node: a spare node, or a new one. */
    method AllocNode(extra: nat) returns (x: nat)
      requires Wired() && extra != 0 && extra !in nodes
      modifies this
      ensures Wired() && IsLoose(x) && ids == old(ids) && Ranges() == old(Ranges())
    {
      ghost var nodes0 := nodes;
      if reuse != 0 {
        assert Below(nodes, spare, 0);
        x := reuse;
        reuse := nodes[reuse].next;
        PopStack(nodes, spare);
        spare := spare[1..];
      } else {
        x := extra;
        NotThere(nodes, first, ids, last, spare, extra);
        nodes := nodes[extra := Node(0, 0, 0, 0)];
        ChainKept(nodes0, Chain(first, ids, last), nodes);
        StackKept(nodes0, reuse, spare, nodes);
      }
    }

    /** free_node: onto the stack of spare nodes. */
    method FreeNode(x: nat)
      requires Wired() && IsLoose(x)
      modifies this
      ensures Wired() && ids == old(ids) && Ranges() == old(Ranges())
    {
      ghost var nodes0 := nodes;
      nodes := nodes[x := nodes[x].(next := reuse)];
      ChainKept(nodes0, Chain(first, ids, last), nodes);
      PushStack(nodes0, reuse, spare, x, nodes);
      reuse := x;
      spare := [x] + spare;
    }

    /** Storing base and size of a node. */
    method SetSpan(x: nat, base: nat, size: nat)
      requires Wired() && x in nodes && x != first && x != last
      modifies this`nodes
      ensures Wired() && nodes == old(nodes)[x := old(nodes)[x].(base := base, size := size)]
    {
      ghost var nodes0 := nodes;
      nodes := nodes[x := nodes[x].(base := base, size := size)];
      ChainKept(nodes0, Chain(first, ids, last), nodes);
      StackKept(nodes0, reuse, spare, nodes);
    }

    /** Linking loose node x in front of the node at list position k. */
    method LinkBefore(x: nat, at: nat, ghost k: nat)
      requires Wired() && IsLoose(x) && k <= |ids| && at == Chain(first, ids, last)[k + 1]
      modifies this`nodes, this`ids
      ensures Wired() && ids == Inserted(old(ids), k, x) && SameSpans(old(nodes), nodes)
    {
      ghost var nodes0, chain := nodes, Chain(first, ids, last);
      assert Link(nodes, chain, k);
      var before := nodes[at].prev;
      nodes := nodes[x := nodes[x].(next := at, prev := before)];
      nodes := nodes[before := nodes[before].(next := x)];
      nodes := nodes[at := nodes[at].(prev := x)];
      assert SameSpans(nodes0, nodes);
      assert Links(nodes0, chain, k + 1, x, nodes);
      LinkedChain(nodes0, chain, k + 1, x, nodes);
      ChainInserted(first, ids, last, k, x);
      InsertedAll(nodes, ids, k, x);
      StackKept(nodes0, reuse, spare, nodes);
      SpareApart(first, ids, last, spare, Inserted(ids, k, x), x);
      ids := Inserted(ids, k, x);
    }

    /** Unlinking the node at list position k. */
    method Unlink(x: nat, ghost k: nat)
      requires Wired() && k < |ids| && x == ids[k]
      modifies this`nodes, this`ids
      ensures Wired() && ids == Without(old(ids), k) && SameSpans(old(nodes), nodes) && IsLoose(x)
    {
      ghost var nodes0, chain := nodes, Chain(first, ids, last);
      assert Link(nodes, chain, k) && Link(nodes, chain, k + 1);
      var before, after := nodes[x].prev, nodes[x].next;
      nodes := nodes[before := nodes[before].(next := after)];
      nodes := nodes[after := nodes[after].(prev := before)];
      assert SameSpans(nodes0, nodes);
      assert Unlinks(nodes0, chain, k + 1, nodes);
      UnlinkedChain(nodes0, chain, k + 1, nodes);
      ChainWithout(first, ids, last, k);
      StackKept(nodes0, reuse, spare, nodes);
      UnlinkedApart(first, ids, last, k, spare);
      ids := Without(ids, k);
    }

    /** The loop of insert_node: the first node that does not start below `base`, or the
        last guard. */
    method Place(base: nat) returns (at: nat, ghost i: nat)
      requires Usable()
      ensures i <= |ids| && at == Chain(first, ids, last)[i + 1] && at in nodes
      ensures PlaceOf(Ranges(), base, i)
    {
      ghost var chain, list := Chain(first, ids, last), Ranges();
      assert Link(nodes, chain, 0);
      at, i := nodes[first].next, 0;
      while nodes[at].base != 0 && nodes[at].base < base
        invariant 0 <= i <= |ids| && at == chain[i + 1] && at in nodes
        invariant forall k :: 0 <= k < i ==> list[k].base < base
        decreases |ids| - i
      {
        assert i < |ids|;
        assert Link(nodes, chain, i + 1);
        at, i := nodes[at].next, i + 1;
      }
      forall k | i <= k < |ids| ensures base <= list[k].base {
        assert RangeOK(list[i]) && nodes[at] == nodes[ids[i]];
        assert i < k ==> list[i].base < list[k].base;
      }
    }

    /** Node x at position k grows over node y behind it, which becomes spare. */
    method Absorb(x: nat, y: nat, ghost k: nat)
      requires Wired() && k + 1 < |ids| && x == ids[k] && y == ids[k + 1]
      modifies this
      ensures Wired() && Ranges() == Glued(old(Ranges()), k) && ids == Without(old(ids), k + 1)
    {
      ghost var nodes0, ids0 := nodes, ids;
      ApartOnChain(first, ids, last, k);
      SetSpan(x, nodes[x].base, nodes[x].size + nodes[y].size);
      Unlink(y, k + 1);
      GluedRanges(nodes0, ids0, k, nodes);
      FreeNode(y);
    }

    /** The node before x grows over it when they touch. */
    method JoinPrev(x: nat, ghost k: nat) returns (y: nat, ghost l: nat)
      requires Wired() && k < |ids| && x == ids[k] && Ranges()[k].base > 0
      modifies this
      ensures Wired() && Ranges() == GluePrev(old(Ranges()), k) && l < |ids| && y == ids[l]
      ensures l == if Touch(old(Ranges()), k - 1) then k - 1 else k
    {
      assert Link(nodes, Chain(first, ids, last), k);
      y, l := x, k;
      var p := nodes[x].prev;
      assert k > 0 ==> p == ids[k - 1];
      if nodes[p].base + nodes[p].size == nodes[x].base {
        y, l := p, k - 1;
        Absorb(p, x, k - 1);
      }
    }

    /** Node x grows over the one behind it when they touch. */
    method JoinNext(x: nat, ghost k: nat)
      requires Wired() && k < |ids| && x == ids[k] && Ranges()[k].base > 0
      modifies this
      ensures Wired() && Ranges() == GlueNext(old(Ranges()), k)
    {
      assert Link(nodes, Chain(first, ids, last), k + 1);
      var n := nodes[x].next;
      assert k + 1 < |ids| ==> n == ids[k + 1];
      if nodes[x].base + nodes[x].size == nodes[n].base {
        Absorb(x, n, k);
      }
    }

    /** The relinking of insert_node. */
    method Join(x: nat, at: nat, ghost i: nat)
      requires Usable() && IsLoose(x) && i <= |ids| && at == Chain(first, ids, last)[i + 1] && nodes[x].base > 0
      modifies this
      ensures Wired() && Ranges() == Joined(old(Ranges()), i, old(RangeOf(nodes[x])))
    {
      ghost var list, n, nodes0, ids0 := Ranges(), RangeOf(nodes[x]), nodes, ids;
      LinkBefore(x, at, i);
      PutRanges(nodes0, ids0, i, x, nodes);
      JoinedIsGlued(list, i, n);
      var y, l := JoinPrev(x, i);
      GluedBase(list, i, n);
      JoinNext(y, l);
    }

    /** insert_node: rejects a range that runs into the following one, and otherwise links
        it in and merges it with the neighbours it touches. The free set then gains exactly
        the range, also on a list where ranges overlap; a list in normal form stays so
        exactly if no free range that starts below reaches over the new one. */
    method Insert(x: nat) returns (rejected: bool)
      requires Usable() && IsLoose(x) && RangeOK(RangeOf(nodes[x]))
      modifies this
      ensures Usable()
      ensures rejected <==> Hit(old(Ranges()), old(nodes[x]).base, old(nodes[x]).size)
      ensures rejected ==> nodes == old(nodes) && ids == old(ids)
      ensures !rejected ==> forall a :: Free(Ranges(), a) <==> Free(old(Ranges()), a) || In(old(RangeOf(nodes[x])), a)
      ensures !rejected && old(Valid()) ==> (Valid() <==> ClearBelow(old(Ranges()), old(nodes[x]).base))
    {
      ghost var list, n := Ranges(), RangeOf(nodes[x]);
      var at, i := Place(nodes[x].base);
      HitIsNext(list, i, n);
      if nodes[at].base != 0 && nodes[x].base + nodes[x].size > nodes[at].base {
        assert i < |ids| && at == ids[i];
        return true;
      }
      assert i < |ids| ==> at == ids[i] && RangeOK(list[i]);
      rejected := false;
      Join(x, at, i);
      JoinedAscends(list, i, n);
      if ListOK(list) {
        JoinedOKIff(list, i, n);
      }
      forall a ensures Free(Ranges(), a) <==> Free(list, a) || In(n, a) {
        JoinedAdds(list, i, n, a);
      }
    }

    /** mm_free. `room` is the node that kmalloc gives when no spare one is left. */
    method Release(base: nat, size: nat, room: nat) returns (rejected: bool)
      requires Usable() && room != 0 && room !in nodes && RangeOK(Range(base, Rounded(size)))
      modifies this
      ensures Usable()
      ensures rejected <==> Hit(old(Ranges()), base, Rounded(size))
      ensures rejected ==> Ranges() == old(Ranges())
      ensures !rejected ==> forall a :: Free(Ranges(), a) <==> Free(old(Ranges()), a) || In(Range(base, Rounded(size)), a)
      ensures !rejected && old(Valid()) ==> (Valid() <==> ClearBelow(old(Ranges()), base))
      ensures old(Valid()) && (forall a :: In(Range(base, Rounded(size)), a) ==> !Free(old(Ranges()), a)) ==> !rejected && Valid()
    {
      ghost var list := Ranges();
      var x := AllocNode(room);
      ChainHas(first, ids, last, x);
      SetSpan(x, base, Rounded(size));
      assert Ranges() == list;
      rejected := Insert(x);
      if ListOK(list) && forall a :: In(Range(base, Rounded(size)), a) ==> !Free(list, a) {
        DisjointIsClear(list, Range(base, Rounded(size)));
      }
    }

    /** The search of mm_alloc_max, backwards from the last guard; i is -1 at the first. */
    method Search(need: nat, max: nat) returns (x: nat, ghost i: int)
      requires Usable()
      ensures i == Chosen(Ranges(), need, max) && x in nodes && (nodes[x].base == 0 <==> i < 0) && (i >= 0 ==> x == ids[i])
    {
      ghost var chain, list := Chain(first, ids, last), Ranges();
      assert Link(nodes, chain, |ids|);
      x, i := nodes[last].prev, |ids| - 1;
      while nodes[x].base != 0 && !(nodes[x].base + nodes[x].size < max && nodes[x].size >= need)
        invariant -1 <= i < |ids| && x == chain[i + 1] && x in nodes && (nodes[x].base == 0 <==> i < 0)
        invariant forall k :: i < k < |ids| ==> !Qualifies(list[k], need, max)
        decreases i
      {
        assert Link(nodes, chain, i);
        assert i > 0 ==> RangeOK(list[i - 1]);
        x, i := nodes[x].prev, i - 1;
      }
      ChosenUnique(list, need, max, i);
    }

    /** The relinking of mm_alloc_max, in 64-bit arithmetic: an extra node for the front,
        the rest kept behind the allocation, the node made spare when nothing is left. */
    method Carve(x: nat, extra: nat, adj: nat, size: nat, ghost i: nat) returns (ret: nat)
      requires Wired() && i < |ids| && x == ids[i] && (adj > 0 ==> IsLoose(extra)) && Ranges()[i].base < WORD && Ranges()[i].size < WORD
      modifies this
      ensures Wired() && ret == Add64(old(Ranges())[i].base, adj)
      ensures Ranges() == old(Ranges())[..i] + WrappedRemains(old(Ranges())[i], adj, size) + old(Ranges())[i + 1..]
    {
      ghost var list := Ranges();
      ghost var k := i;
      if adj > 0 {
        Front(x, extra, adj, i);
        k := i + 1;
      }
      ret := nodes[x].base;
      Back(x, size, k);
      CarvedParts(list, i, adj, size);
    }

    /** The part in front of an aligned allocation gets a node of its own. */
    method Front(x: nat, extra: nat, adj: nat, ghost i: nat)
      requires Wired() && i < |ids| && x == ids[i] && IsLoose(extra)
      modifies this
      ensures Wired() && ids == Inserted(old(ids), i, extra) && x in nodes && nodes[x].base == Add64(old(Ranges())[i].base, adj)
      ensures Ranges() == old(Ranges())[..i]
        + [Range(old(Ranges())[i].base, adj), Range(Add64(old(Ranges())[i].base, adj), Sub64(old(Ranges())[i].size, adj))]
        + old(Ranges())[i + 1..]
    {
      ghost var nodes0, ids0 := nodes, ids;
      ApartOnChain(first, ids, last, i);
      ChainHas(first, ids, last, extra);
      SetSpan(extra, nodes[x].base, adj);
      SetSpan(x, Add64(nodes[x].base, adj), Sub64(nodes[x].size, adj));
      LinkBefore(extra, x, i);
      FrontRanges(nodes0, ids0, i, extra, adj, nodes);
    }

    /** The allocation itself is taken from the front of the node. */
    method Back(x: nat, size: nat, ghost k: nat)
      requires Wired() && k < |ids| && x == ids[k]
      modifies this
      ensures Wired()
      ensures var r := old(Ranges())[k];
        Ranges() == old(Ranges())[..k] + (if Sub64(r.size, size) != 0 then [Range(Add64(r.base, size), Sub64(r.size, size))] else []) + old(Ranges())[k + 1..]
    {
      ghost var list, nodes0, ids0 := Ranges(), nodes, ids;
      ApartOnChain(first, ids, last, k);
      var rest := Sub64(nodes[x].size, size);
      if rest != 0 {
        SetSpan(x, Add64(nodes[x].base, size), rest);
        assert Ranges() == list[k := Range(Add64(list[k].base, size), rest)];
      } else {
        SetSpan(x, nodes[x].base, 0);
        Unlink(x, k);
        assert forall j :: 0 <= j < |ids| ==> ids[j] == if j < k then ids0[j] else ids0[j + 1];
        assert Ranges() == list[..k] + [] + list[k + 1..];
        FreeNode(x);
      }
    }

    /** The body of mm_alloc_max. `room` is the node that kmalloc gives when no spare one
        is left; a failed request with an alignment does not give its node back. */
    method Take(size: nat, align: nat, max: nat, room: nat) returns (ret: nat)
      requires Usable() && room != 0 && room !in nodes
      modifies this
      ensures Wired() && Allocated(old(Ranges()), size, align, max) == Answer(ret, Ranges())
    {
      var extra := 0;
      if align != 0 {
        extra := AllocNode(room);
      }
      if size == 0 || align % 4096 != 0 {
        return 0;
      }
      ret := TakeSome(size, align, max, extra);
    }

    /** The search and the carving. */
    method TakeSome(size: nat, align: nat, max: nat, extra: nat) returns (ret: nat)
      requires Usable() && size != 0 && align % 4096 == 0 && (align > 0 ==> IsLoose(extra))
      modifies this
      ensures Wired() && Allocated(old(Ranges()), size, align, max) == Answer(ret, Ranges())
    {
      var need := Need(size, align);
      var x, i := Search(need, max);
      AllocatedAt(Ranges(), size, align, max, need, i);
      if nodes[x].base == 0 {
        return 0;
      }
      assert RangeOK(Ranges()[i]);
      var adj, asize := Adjust(nodes[x].base, align), Rounded(size);
      ret := Carve(x, extra, adj, asize, i);
    }

    /** mm_alloc_max, for every request: 0 and no change when the size is 0, the alignment
        is not a multiple of a page or the search finds nothing; otherwise the request is
        served, from a list in normal form, exactly if and only if neither addition wraps
        around. */
    method Alloc(size: nat, align: nat, max: nat, room: nat) returns (ret: nat)
      requires Usable() && size < WORD && align < WORD && room != 0 && room !in nodes
      modifies this
      ensures Wired() && Allocated(old(Ranges()), size, align, max) == Answer(ret, Ranges())
      ensures !Finds(old(Ranges()), size, align, max) ==> ret == 0 && Ranges() == old(Ranges())
      ensures old(Valid()) && Finds(old(Ranges()), size, align, max) ==>
        (Served(old(Ranges()), Answer(ret, Ranges()), size, align, max) <==> NoWrap(size, align))
      ensures old(Valid()) && NoWrap(size, align) ==> Valid()
      ensures old(Valid()) && size > 0 && Paged(align) && NoWrap(size, align) ==> InHighestRun(old(Ranges()), ret, size, align, max)
    {
      FoundOrNot(Ranges(), size, align, max);
      if ListOK(Ranges()) {
        AllocatedFacts(Ranges(), size, align, max);
        if size > 0 && Paged(align) && NoWrap(size, align) {
          TakesHighestRun(Ranges(), size, align, max);
        }
      }
      ret := Take(size, align, max, room);
    }
  }

  lemma {:induction false} PopStack(nodes: Nodes, spare: seq<nat>)
    requires spare != [] && Stacked(nodes, spare[0], spare) && Distinct(spare) && spare[0] in nodes
    ensures Stacked(nodes, nodes[spare[0]].next, spare[1..]) && Distinct(spare[1..]) && spare[0] !in spare[1..]
  {
    assert Below(nodes, spare, 0);
    forall j ensures Below(nodes, spare[1..], j) {
      assert Below(nodes, spare, j + 1);
    }
  }

  lemma {:induction false} PushStack(nodes: Nodes, top: nat, spare: seq<nat>, x: nat, nodes': Nodes)
    requires Stacked(nodes, top, spare) && Distinct(spare) && x !in spare && x in nodes && x != 0
    requires nodes' == nodes[x := nodes[x].(next := top)]
    ensures Stacked(nodes', x, [x] + spare) && Distinct([x] + spare)
  {
    forall j ensures Below(nodes', [x] + spare, j) {
      assert Below(nodes, spare, j - 1);
    }
  }

  /** Nodes of the list and spare nodes are nodes. */
  lemma {:induction false} NotThere(nodes: Nodes, first: nat, ids: seq<nat>, last: nat, spare: seq<nat>, x: nat)
    requires Guards(nodes, first, last) && AllIn(nodes, ids) && x !in nodes
    requires forall k {:trigger Below(nodes, spare, k)} :: Below(nodes, spare, k)
    ensures x !in Chain(first, ids, last) && x !in spare
  {
    ChainHas(first, ids, last, x);
    SpareIn(nodes, spare, x);
  }

  lemma {:induction false} SpareIn(nodes: Nodes, spare: seq<nat>, x: nat)
    requires forall k {:trigger Below(nodes, spare, k)} :: Below(nodes, spare, k)
    ensures x in spare ==> x in nodes
  {
    if x in spare {
      var k :| 0 <= k < |spare| && spare[k] == x;
      assert Below(nodes, spare, k);
    }
  }

  lemma {:induction false} InsertedAll(nodes: Nodes, ids: seq<nat>, k: nat, x: nat)
    requires AllIn(nodes, ids) && x in nodes && k <= |ids|
    ensures AllIn(nodes, Inserted(ids, k, x))
  {
  }

  lemma {:induction false} SpareApart(first: nat, ids: seq<nat>, last: nat, spare: seq<nat>, ids': seq<nat>, x: nat)
    requires forall y :: y in spare ==> y !in Chain(first, ids, last)
    requires x !in spare && forall y :: y in ids' ==> y in ids || y == x
    ensures forall y :: y in spare ==> y !in Chain(first, ids', last)
  {
    forall y | y in spare ensures y !in Chain(first, ids', last) {
      ChainHas(first, ids, last, y);
      ChainHas(first, ids', last, y);
    }
  }

  lemma {:induction false} UnlinkedApart(first: nat, ids: seq<nat>, last: nat, k: nat, spare: seq<nat>)
    requires k < |ids| && Distinct(Chain(first, ids, last)) && forall y :: y in spare ==> y !in Chain(first, ids, last)
    ensures ids[k] !in Chain(first, Without(ids, k), last) && ids[k] !in spare
    ensures forall y :: y in spare ==> y !in Chain(first, Without(ids, k), last)
  {
    WithoutHas(Chain(first, ids, last), k + 1, ids[k]);
    ChainWithout(first, ids, last, k);
    assert ids[k] == Chain(first, ids, last)[k + 1];
    forall y | y in spare ensures y !in Chain(first, Without(ids, k), last) {
      WithoutHas(Chain(first, ids, last), k + 1, y);
    }
  }

  lemma {:induction false} ChosenUnique(list: seq<Range>, need: nat, max: nat, i: int)
    requires -1 <= i < |list| && (i >= 0 ==> Qualifies(list[i], need, max)) && forall k :: i < k < |list| ==> !Qualifies(list[k], need, max)
    ensures Chosen(list, need, max) == i
  {
  }

  lemma {:induction false} FrontRanges(nodes: Nodes, ids: seq<nat>, i: nat, extra: nat, adj: nat, nodes': Nodes)
    requires AllIn(nodes, ids) && i < |ids| && extra !in ids && extra in nodes && nodes'.Keys == nodes.Keys
    requires forall j :: 0 <= j < |ids| && j != i ==> ids[j] != ids[i]
    requires RangeOf(nodes'[extra]) == Range(nodes[ids[i]].base, adj)
    requires RangeOf(nodes'[ids[i]]) == Range(Add64(nodes[ids[i]].base, adj), Sub64(nodes[ids[i]].size, adj))
    requires forall y :: y in nodes && y != extra && y != ids[i] ==> RangeOf(nodes'[y]) == RangeOf(nodes[y])
    ensures AllIn(nodes', Inserted(ids, i, extra))
    ensures var r := RangesOf(nodes, ids);
      RangesOf(nodes', Inserted(ids, i, extra))
      == r[..i] + [Range(r[i].base, adj), Range(Add64(r[i].base, adj), Sub64(r[i].size, adj))] + r[i + 1..]
  {
    var long := Inserted(ids, i, extra);
    assert forall j :: 0 <= j < |long| ==> long[j] == if j < i then ids[j] else if j == i then extra else ids[j - 1];
  }

  /** Both steps together are what the specification leaves of the range. */
  lemma {:induction false} CarvedParts(list: seq<Range>, i: nat, adj: nat, size: nat)
    requires i < |list| && list[i].base < WORD && list[i].size < WORD
    ensures var r := list[i];
      var node := if adj > 0 then Range(Add64(r.base, adj), Sub64(r.size, adj)) else r;
      var long := if adj > 0 then list[..i] + [Range(r.base, adj), node] + list[i + 1..] else list;
      var k := if adj > 0 then i + 1 else i;
      var rest := if Sub64(node.size, size) != 0 then [Range(Add64(node.base, size), Sub64(node.size, size))] else [];
      long[..k] + rest + long[k + 1..] == list[..i] + WrappedRemains(r, adj, size) + list[i + 1..]
  {
    var r := list[i];
    if adj > 0 {
      var node := Range(Add64(r.base, adj), Sub64(r.size, adj));
      var long := list[..i] + [Range(r.base, adj), node] + list[i + 1..];
      assert long[..i + 1] == list[..i] + [Range(r.base, adj)] && long[i + 2..] == list[i + 1..];
    } else {
      assert Add64(r.base, 0) == r.base && Sub64(r.size, 0) == r.size;
    }
  }
}
