/**
  Freeing any lower half: every frame that a lower-half entry points to is queued
  exactly once, and nothing of the shared upper half is.
 */
module PageRelease {
  import opened PageTables
  import opened PageTrees
  import opened PageFork
  import S = PageSpaces

  /** An entry of the lower half, named by the indices that lead to it. */
  ghost predicate LowerPath(o: seq<nat>) {
    1 <= |o| <= 4 && o[0] < 256 && forall i :: 0 <= i < |o| ==> o[i] < ENTRIES
  }

  /** The entry's table exists. */
  ghost predicate Here(mem: Mem, tables: S.Tables, root: nat, o: seq<nat>) {
    && LowerPath(o) && Below(root, o, |o| - 1) in tables
    && tables[Below(root, o, |o| - 1)] in mem && |mem[tables[Below(root, o, |o| - 1)]]| == ENTRIES
  }

  ghost function EntryOf(mem: Mem, tables: S.Tables, root: nat, o: seq<nat>): Entry
    requires Here(mem, tables, root, o)
  {
    mem[tables[Below(root, o, |o| - 1)]][o[|o| - 1]]
  }

  ghost predicate Present(mem: Mem, tables: S.Tables, root: nat, o: seq<nat>) {
    Here(mem, tables, root, o) && EntryOf(mem, tables, root, o).f.present
  }

  /** The entry maps a page. */
  ghost predicate Leaf(mem: Mem, tables: S.Tables, root: nat, o: seq<nat>) {
    Present(mem, tables, root, o) && !IsTable(EntryOf(mem, tables, root, o), 4 - |o|)
  }

  ghost predicate IsTableFrame(tables: S.Tables, f: nat) {
    exists pos :: pos in tables && tables[pos] == f
  }

  /** No page of the lower half is mapped twice under the same address, and none has the
      address of a table. */
  ghost predicate LeavesDiffer(mem: Mem, tables: S.Tables, root: nat) {
    && (forall o {:trigger Leaf(mem, tables, root, o)} :: Leaf(mem, tables, root, o) ==> !IsTableFrame(tables, EntryOf(mem, tables, root, o).addr))
    && (forall o, o' {:trigger Leaf(mem, tables, root, o), Leaf(mem, tables, root, o')} ::
          (Leaf(mem, tables, root, o) && Leaf(mem, tables, root, o')
           && EntryOf(mem, tables, root, o).addr == EntryOf(mem, tables, root, o').addr) ==> o == o')
  }

  /** What the entry accounts for. */
  ghost function ChunkOf(mem: Mem, tables: S.Tables, root: nat, o: seq<nat>): Chunk
    requires Here(mem, tables, root, o)
  {
    var e := EntryOf(mem, tables, root, o);
    if IsTable(e, 4 - |o|) then Chunk(e.addr, 0) else Chunk(e.addr, 4 - |o|)
  }

  /** An entry that points to a table points to the one at its own path. */
  lemma {:induction false} TableEntry(mem: Mem, tables: S.Tables, owner: S.Owners, root: nat, o: seq<nat>)
    requires S.TreeOK(mem, tables, owner) && Present(mem, tables, root, o) && IsTable(EntryOf(mem, tables, root, o), 4 - |o|)
    ensures |o| <= 3 && S.Lower(root, o) in tables && tables[S.Lower(root, o)] == EntryOf(mem, tables, root, o).addr
  {
    var n := |o| - 1;
    var pos := Below(root, o, n);
    assert o == o[..n] + [o[n]];
    assert S.NodeOK(mem, tables, owner, pos) && S.EdgeOK(mem, tables, pos, o[n]);
  }

  /** Different present entries of a lower half point to different frames. */
  lemma {:induction false} EntriesApart(mem: Mem, tables: S.Tables, owner: S.Owners, root: nat, o: seq<nat>, o': seq<nat>)
    requires S.TreeOK(mem, tables, owner) && LeavesDiffer(mem, tables, root)
    requires Present(mem, tables, root, o) && Present(mem, tables, root, o')
    requires EntryOf(mem, tables, root, o).addr == EntryOf(mem, tables, root, o').addr
    ensures o == o'
  {
    if !Leaf(mem, tables, root, o) {
      TableEntry(mem, tables, owner, root, o);
      assert IsTableFrame(tables, EntryOf(mem, tables, root, o).addr);
    }
    if !Leaf(mem, tables, root, o') {
      TableEntry(mem, tables, owner, root, o');
      assert IsTableFrame(tables, EntryOf(mem, tables, root, o').addr);
    }
    if !Leaf(mem, tables, root, o) && !Leaf(mem, tables, root, o') {
      assert S.NodeOK(mem, tables, owner, S.Lower(root, o)) && S.NodeOK(mem, tables, owner, S.Lower(root, o'));
    }
  }

  /** A table of the lower half, by its path; the empty path is the top level. */
  ghost predicate TableAt(mem: Mem, tables: S.Tables, root: nat, p: seq<nat>) {
    && |p| <= 3 && (p != [] ==> LowerPath(p)) && Below(root, p, |p|) in tables
    && HasTree(mem, tables[Below(root, p, |p|)], 3 - |p|)
  }

  ghost function Slots(mem: Mem, tables: S.Tables, root: nat, p: seq<nat>): (r: seq<Slot>)
    requires TableAt(mem, tables, root, p)
    ensures |r| == ENTRIES
  {
    View(mem, tables[Below(root, p, |p|)], 3 - |p|)
  }

  /** Entry i of the table at p is the entry with path p + [i]. */
  lemma {:induction false} SlotEntry(mem: Mem, tables: S.Tables, owner: S.Owners, root: nat, p: seq<nat>, i: nat)
    requires S.TreeOK(mem, tables, owner) && TableAt(mem, tables, root, p) && i < ENTRIES && (p == [] ==> i < 256)
    ensures Here(mem, tables, root, p + [i])
    ensures var e := EntryOf(mem, tables, root, p + [i]);
      && SlotTree(mem, e, 3 - |p|) && Slots(mem, tables, root, p)[i] == SlotOf(mem, e, 3 - |p|)
      && (IsTable(e, 3 - |p|) ==> TableAt(mem, tables, root, p + [i]) && Slots(mem, tables, root, p + [i]) == View(mem, e.addr, 2 - |p|))
  {
    var o := p + [i];
    assert o[..|p|] == p && p[..|p|] == p && o[..|o|] == o;
    assert Below(root, o, |o| - 1) == Below(root, p, |p|);
    var t := tables[Below(root, p, |p|)];
    assert SlotTree(mem, mem[t][i], 3 - |p|);
    if IsTable(mem[t][i], 3 - |p|) {
      TableEntry(mem, tables, owner, root, o);
    }
  }

  /** Everything queued for entry i of table p comes from a present entry at or below it. */
  lemma {:induction false} SlotOrigin(mem: Mem, tables: S.Tables, owner: S.Owners, root: nat, p: seq<nat>, i: nat, x: Chunk) returns (o: seq<nat>)
    requires S.TreeOK(mem, tables, owner) && TableAt(mem, tables, root, p) && i < ENTRIES && (p == [] ==> i < 256)
    requires x in Released(Slots(mem, tables, root, p)[i], 3 - |p|)
    ensures Present(mem, tables, root, o) && x == ChunkOf(mem, tables, root, o)
    ensures |o| > |p| && o[..|p| + 1] == p + [i]
    decreases 3 - |p|, 0
  {
    SlotEntry(mem, tables, owner, root, p, i);
    o := p + [i];
    var e := EntryOf(mem, tables, root, o);
    if IsTable(e, 3 - |p|) && x != Chunk(e.addr, 0) {
      var kids := Slots(mem, tables, root, p + [i]);
      assert kids[..ENTRIES] == kids;
      o := TableOrigin(mem, tables, owner, root, p + [i], ENTRIES, x);
      assert o[..|p| + 1] == p + [i];
    } else {
      assert o[..|p| + 1] == p + [i];
    }
  }

  lemma {:induction false} TableOrigin(mem: Mem, tables: S.Tables, owner: S.Owners, root: nat, p: seq<nat>, n: nat, x: Chunk) returns (o: seq<nat>)
    requires S.TreeOK(mem, tables, owner) && TableAt(mem, tables, root, p) && n <= ENTRIES && (p == [] ==> n <= 256)
    requires x in AllReleased(Slots(mem, tables, root, p)[..n], 3 - |p|)
    ensures Present(mem, tables, root, o) && x == ChunkOf(mem, tables, root, o)
    ensures |o| > |p| && o[..|p|] == p && o[|p|] < n
    decreases 3 - |p|, 1, n
  {
    var slots := Slots(mem, tables, root, p);
    assert n > 0;
    FramesOfPrefix(slots, n - 1, 3 - |p|);
    if x in AllReleased(slots[..n - 1], 3 - |p|) {
      o := TableOrigin(mem, tables, owner, root, p, n - 1, x);
    } else {
      o := SlotOrigin(mem, tables, owner, root, p, n - 1, x);
      assert o[..|p|] == o[..|p| + 1][..|p|] && o[|p|] == o[..|p| + 1][|p|];
    }
  }

  /** A table is not queued for anything below it. */
  lemma {:induction false} NotBelowItself(mem: Mem, tables: S.Tables, owner: S.Owners, root: nat, p: seq<nat>, f: nat)
    requires S.TreeOK(mem, tables, owner) && LeavesDiffer(mem, tables, root) && p != [] && TableAt(mem, tables, root, p)
    requires Present(mem, tables, root, p) && EntryOf(mem, tables, root, p).addr == f
    ensures Chunk(f, 0) !in AllReleased(Slots(mem, tables, root, p)[..ENTRIES], 3 - |p|)
  {
    if Chunk(f, 0) in AllReleased(Slots(mem, tables, root, p)[..ENTRIES], 3 - |p|) {
      var o := TableOrigin(mem, tables, owner, root, p, ENTRIES, Chunk(f, 0));
      EntriesApart(mem, tables, owner, root, o, p);
    }
  }

  /** How often x is queued for the first n entries of the table at p, and for entry i. */
  ghost function Count(mem: Mem, tables: S.Tables, root: nat, p: seq<nat>, n: nat, x: Chunk): nat
    requires TableAt(mem, tables, root, p) && n <= ENTRIES
  {
    multiset(AllReleased(Slots(mem, tables, root, p)[..n], 3 - |p|))[x]
  }

  ghost function SlotCount(mem: Mem, tables: S.Tables, root: nat, p: seq<nat>, i: nat, x: Chunk): nat
    requires TableAt(mem, tables, root, p) && i < ENTRIES
  {
    multiset(Released(Slots(mem, tables, root, p)[i], 3 - |p|))[x]
  }

  lemma {:induction false} CountStep(mem: Mem, tables: S.Tables, root: nat, p: seq<nat>, n: nat, x: Chunk)
    requires TableAt(mem, tables, root, p) && n < ENTRIES
    ensures Count(mem, tables, root, p, n + 1, x) == Count(mem, tables, root, p, n, x) + SlotCount(mem, tables, root, p, n, x)
    ensures Count(mem, tables, root, p, 0, x) == 0
  {
    var slots := Slots(mem, tables, root, p);
    FramesOfPrefix(slots, n, 3 - |p|);
    assert slots[..0] == [];
  }

  lemma {:induction false} SlotCountIs(mem: Mem, tables: S.Tables, owner: S.Owners, root: nat, p: seq<nat>, i: nat, x: Chunk)
    requires S.TreeOK(mem, tables, owner) && TableAt(mem, tables, root, p) && i < ENTRIES && (p == [] ==> i < 256)
    ensures Here(mem, tables, root, p + [i])
    ensures var e := EntryOf(mem, tables, root, p + [i]);
      if IsTable(e, 3 - |p|) then
        && TableAt(mem, tables, root, p + [i])
        && SlotCount(mem, tables, root, p, i, x) == Count(mem, tables, root, p + [i], ENTRIES, x) + (if x == Chunk(e.addr, 0) then 1 else 0)
      else SlotCount(mem, tables, root, p, i, x) <= 1
  {
    SlotEntry(mem, tables, owner, root, p, i);
    var e := EntryOf(mem, tables, root, p + [i]);
    if IsTable(e, 3 - |p|) {
      var kids := Slots(mem, tables, root, p + [i]);
      assert kids[..ENTRIES] == kids;
      var below := AllReleased(kids, 2 - |p|);
      assert Released(Slots(mem, tables, root, p)[i], 3 - |p|) == below + [Chunk(e.addr, 0)];
      assert multiset(below + [Chunk(e.addr, 0)]) == multiset(below) + multiset{Chunk(e.addr, 0)};
    }
  }

  lemma {:induction false} SlotOnce(mem: Mem, tables: S.Tables, owner: S.Owners, root: nat, p: seq<nat>, i: nat, x: Chunk)
    requires S.TreeOK(mem, tables, owner) && LeavesDiffer(mem, tables, root) && TableAt(mem, tables, root, p)
    requires i < ENTRIES && (p == [] ==> i < 256)
    ensures SlotCount(mem, tables, root, p, i, x) <= 1
    decreases 3 - |p|, 0
  {
    SlotCountIs(mem, tables, owner, root, p, i, x);
    var e := EntryOf(mem, tables, root, p + [i]);
    if IsTable(e, 3 - |p|) {
      TableOnce(mem, tables, owner, root, p + [i], ENTRIES, x);
      NotBelowItself(mem, tables, owner, root, p + [i], e.addr);
    }
  }

  lemma {:induction false} TableOnce(mem: Mem, tables: S.Tables, owner: S.Owners, root: nat, p: seq<nat>, n: nat, x: Chunk)
    requires S.TreeOK(mem, tables, owner) && LeavesDiffer(mem, tables, root) && TableAt(mem, tables, root, p)
    requires n <= ENTRIES && (p == [] ==> n <= 256)
    ensures Count(mem, tables, root, p, n, x) <= 1
    decreases 3 - |p|, 1, n
  {
    if n == 0 {
      CountStep(mem, tables, root, p, 0, x);
    } else {
      CountStep(mem, tables, root, p, n - 1, x);
      TableOnce(mem, tables, owner, root, p, n - 1, x);
      SlotOnce(mem, tables, owner, root, p, n - 1, x);
      NotInBoth(mem, tables, owner, root, p, n - 1, x);
    }
  }

  /** Nothing queued for entry n of a table was queued for an earlier one. */
  lemma {:induction false} NotInBoth(mem: Mem, tables: S.Tables, owner: S.Owners, root: nat, p: seq<nat>, n: nat, x: Chunk)
    requires S.TreeOK(mem, tables, owner) && LeavesDiffer(mem, tables, root) && TableAt(mem, tables, root, p)
    requires n < ENTRIES && (p == [] ==> n < 256)
    ensures x !in AllReleased(Slots(mem, tables, root, p)[..n], 3 - |p|) || x !in Released(Slots(mem, tables, root, p)[n], 3 - |p|)
  {
    if x in AllReleased(Slots(mem, tables, root, p)[..n], 3 - |p|) && x in Released(Slots(mem, tables, root, p)[n], 3 - |p|) {
      var o := TableOrigin(mem, tables, owner, root, p, n, x);
      var o' := SlotOrigin(mem, tables, owner, root, p, n, x);
      EntriesApart(mem, tables, owner, root, o, o');
      LastIndex(o', p, n);
    }
  }

  lemma {:induction false} LastIndex(o: seq<nat>, p: seq<nat>, n: nat)
    requires |o| > |p| && o[..|p| + 1] == p + [n]
    ensures o[|p|] == n && o[..|p|] == p
  {
    assert o[|p|] == o[..|p| + 1][|p|] && o[..|p|] == o[..|p| + 1][..|p|];
  }

  lemma {:induction false} OnceInSum(a: seq<Chunk>, b: seq<Chunk>, x: Chunk)
    requires multiset(a)[x] <= 1 && multiset(b)[x] <= 1 && (x !in a || x !in b)
    ensures multiset(a + b)[x] <= 1
  {
    assert multiset(a + b) == multiset(a) + multiset(b);
    assert x in a <==> multiset(a)[x] > 0;
    assert x in b <==> multiset(b)[x] > 0;
  }

  // What this says about freeing a space.

  /** What paging_free_userspace queues for a space. */
  ghost function Queued(mem: Mem, root: nat): seq<Chunk>
    requires HasTree(mem, root, 3)
  {
    AllReleased(View(mem, root, 3)[..256], 3) + [Chunk(root, 0)]
  }

  lemma {:induction false} TopIsTable(mem: Mem, tables: S.Tables, owner: S.Owners, root: nat)
    requires S.TreeOK(mem, tables, owner) && S.Root(root) in tables
    ensures TableAt(mem, tables, root, []) && HasTree(mem, root, 3) && Slots(mem, tables, root, []) == View(mem, root, 3)
  {
    SpacesAreTrees(mem, tables, owner, S.Root(root));
    assert S.NodeOK(mem, tables, owner, S.Root(root));
  }

  /** Whatever is queued below the top level comes from a lower-half entry, whose frame
      is no table of another position. */
  lemma {:induction false} QueuedOrigin(mem: Mem, tables: S.Tables, owner: S.Owners, root: nat, x: Chunk, pos: S.Pos) returns (o: seq<nat>)
    requires S.TreeOK(mem, tables, owner) && LeavesDiffer(mem, tables, root) && S.Root(root) in tables && HasTree(mem, root, 3)
    requires x in AllReleased(View(mem, root, 3)[..256], 3) && pos in tables && tables[pos] == x.addr
    ensures |o| <= 3 && pos == S.Lower(root, o) && x == Chunk(tables[pos], 0)
  {
    TopIsTable(mem, tables, owner, root);
    o := TableOrigin(mem, tables, owner, root, [], 256, x);
    assert IsTableFrame(tables, EntryOf(mem, tables, root, o).addr);
    assert !Leaf(mem, tables, root, o);
    TableEntry(mem, tables, owner, root, o);
    assert S.NodeOK(mem, tables, owner, pos) && S.NodeOK(mem, tables, owner, S.Lower(root, o));
  }

  /** Freeing any space queues no frame twice. */
  lemma {:induction false} QueuedOnce(mem: Mem, tables: S.Tables, owner: S.Owners, root: nat, x: Chunk)
    requires S.TreeOK(mem, tables, owner) && LeavesDiffer(mem, tables, root) && S.Root(root) in tables
    ensures HasTree(mem, root, 3) && multiset(Queued(mem, root))[x] <= 1
  {
    TopIsTable(mem, tables, owner, root);
    TableOnce(mem, tables, owner, root, [], 256, x);
    assert S.NodeOK(mem, tables, owner, S.Root(root));
    var lower := AllReleased(View(mem, root, 3)[..256], 3);
    if Chunk(root, 0) in lower {
      var o := QueuedOrigin(mem, tables, owner, root, Chunk(root, 0), S.Root(root));
    }
    OnceInSum(lower, [Chunk(root, 0)], x);
  }

  /** The tables queued are exactly the space's own: its top level and the tables of its
      lower half; none of the shared upper half and none of another space. */
  lemma {:induction false} QueuedTables(mem: Mem, tables: S.Tables, owner: S.Owners, root: nat, pos: S.Pos)
    requires S.TreeOK(mem, tables, owner) && LeavesDiffer(mem, tables, root) && S.Root(root) in tables && pos in tables
    ensures HasTree(mem, root, 3)
    ensures (exists l :: Chunk(tables[pos], l) in Queued(mem, root)) <==> pos == S.Root(root) || (pos.Lower? && pos.r == root)
    ensures pos == S.Root(root) || (pos.Lower? && pos.r == root) ==> Chunk(tables[pos], 0) in Queued(mem, root)
  {
    TopIsTable(mem, tables, owner, root);
    assert S.NodeOK(mem, tables, owner, pos) && S.NodeOK(mem, tables, owner, S.Root(root));
    if pos.Lower? && pos.r == root {
      LowerTablesReleased(mem, tables, owner, root, pos.path);
    }
    if l :| Chunk(tables[pos], l) in Queued(mem, root) {
      if Chunk(tables[pos], l) in AllReleased(View(mem, root, 3)[..256], 3) {
        var o := QueuedOrigin(mem, tables, owner, root, Chunk(tables[pos], l), pos);
      }
    }
  }

  /** The other chunks are exactly the pages of the lower half, with their sizes. */
  lemma {:induction false} QueuedPages(mem: Mem, tables: S.Tables, owner: S.Owners, root: nat, x: Chunk) returns (o: seq<nat>)
    requires S.TreeOK(mem, tables, owner) && S.Root(root) in tables && HasTree(mem, root, 3)
    requires x in Queued(mem, root) && !IsTableFrame(tables, x.addr)
    ensures Leaf(mem, tables, root, o) && x == Chunk(EntryOf(mem, tables, root, o).addr, 4 - |o|)
  {
    TopIsTable(mem, tables, owner, root);
    assert S.NodeOK(mem, tables, owner, S.Root(root));
    assert IsTableFrame(tables, root);
    o := TableOrigin(mem, tables, owner, root, [], 256, x);
    PointsToTable(mem, tables, owner, root, o);
  }

  lemma {:induction false} PointsToTable(mem: Mem, tables: S.Tables, owner: S.Owners, root: nat, o: seq<nat>)
    requires S.TreeOK(mem, tables, owner) && Present(mem, tables, root, o)
    ensures Leaf(mem, tables, root, o) || IsTableFrame(tables, EntryOf(mem, tables, root, o).addr)
  {
    if !Leaf(mem, tables, root, o) {
      TableEntry(mem, tables, owner, root, o);
    }
  }

  lemma {:induction false} TableOfPath(mem: Mem, tables: S.Tables, owner: S.Owners, root: nat, p: seq<nat>)
    requires S.TreeOK(mem, tables, owner) && S.Root(root) in tables && |p| <= 3
    requires p != [] ==> LowerPath(p) && S.Lower(root, p) in tables
    ensures TableAt(mem, tables, root, p)
  {
    assert p[..|p|] == p;
    SpacesAreTrees(mem, tables, owner, Below(root, p, |p|));
  }

  /** The slots of a table that belong to the lower half. */
  ghost function LowerSlots(mem: Mem, tables: S.Tables, root: nat, p: seq<nat>): seq<Slot>
    requires TableAt(mem, tables, root, p)
  {
    var slots := Slots(mem, tables, root, p);
    if p == [] && |slots| >= 256 then slots[..256] else slots
  }

  lemma {:induction false} QueuedAbove(mem: Mem, tables: S.Tables, owner: S.Owners, root: nat, q: seq<nat>, i: nat, x: Chunk)
    requires S.TreeOK(mem, tables, owner) && S.Root(root) in tables && TableAt(mem, tables, root, q + [i])
    requires x in AllReleased(Slots(mem, tables, root, q + [i]), 2 - |q|)
    ensures TableAt(mem, tables, root, q) && x in AllReleased(LowerSlots(mem, tables, root, q), 3 - |q|)
  {
    var p := q + [i];
    assert p[..|q|] == q && p[..|p|] == p && p[|q|] == i;
    AncestorsPresent(mem, tables, owner, root, p, |q|);
    assert q != [] ==> Below(root, p, |q|) == S.Lower(root, q);
    TableOfPath(mem, tables, owner, root, q);
    SlotEntry(mem, tables, owner, root, q, i);
    assert S.NodeOK(mem, tables, owner, Below(root, p, |q|)) && S.EdgeOK(mem, tables, Below(root, p, |q|), i);
    SlotIsReleased(LowerSlots(mem, tables, root, q), i, 3 - |q|, x);
  }

  /** What is queued below a table is queued for the space. */
  lemma {:induction false} QueuedBelow(mem: Mem, tables: S.Tables, owner: S.Owners, root: nat, p: seq<nat>, x: Chunk)
    requires S.TreeOK(mem, tables, owner) && S.Root(root) in tables && TableAt(mem, tables, root, p) && HasTree(mem, root, 3)
    requires x in AllReleased(LowerSlots(mem, tables, root, p), 3 - |p|)
    ensures x in AllReleased(View(mem, root, 3)[..256], 3)
    decreases |p|
  {
    if p == [] {
      TopIsTable(mem, tables, owner, root);
      assert LowerSlots(mem, tables, root, p) == View(mem, root, 3)[..256];
    } else {
      var n := |p| - 1;
      var q, i := p[..n], p[n];
      assert p == q + [i];
      QueuedAbove(mem, tables, owner, root, q, i, x);
      QueuedBelow(mem, tables, owner, root, q, x);
    }
  }

  /** Every page of the lower half is queued, with its size. */
  lemma {:induction false} LeafIsQueued(mem: Mem, tables: S.Tables, owner: S.Owners, root: nat, o: seq<nat>)
    requires S.TreeOK(mem, tables, owner) && S.Root(root) in tables && Leaf(mem, tables, root, o)
    ensures HasTree(mem, root, 3) && Chunk(EntryOf(mem, tables, root, o).addr, 4 - |o|) in Queued(mem, root)
  {
    var n := |o| - 1;
    var p, i := o[..n], o[n];
    assert o == p + [i] && p[..|p|] == p;
    assert p != [] ==> Below(root, o, n) == S.Lower(root, p);
    TopIsTable(mem, tables, owner, root);
    TableOfPath(mem, tables, owner, root, p);
    SlotEntry(mem, tables, owner, root, p, i);
    assert p != [];
    var x := Chunk(EntryOf(mem, tables, root, o).addr, 4 - |o|);
    SlotIsReleased(Slots(mem, tables, root, p), i, 3 - |p|, x);
    QueuedBelow(mem, tables, owner, root, p, x);
  }

  // The memory behind the chunks.

  /** The bytes of a page of a level. */
  function PageBytes(lvl: nat): nat {
    if lvl == 0 then 0x1000 else if lvl == 1 then 0x20_0000 else if lvl == 2 then 0x4000_0000 else 0x80_0000_0000
  }

  /** Two chunks have no byte in common. */
  predicate Disjoint(x: Chunk, y: Chunk) {
    x.addr + PageBytes(x.lvl) <= y.addr || y.addr + PageBytes(y.lvl) <= x.addr
  }

  /** Tables start at page boundaries; no page of the lower half has a byte in common with
      a table or with another page, of whatever size. */
  ghost predicate LeavesApart(mem: Mem, tables: S.Tables, root: nat) {
    && (forall pos :: pos in tables ==> tables[pos] % 0x1000 == 0)
    && (forall o, pos {:trigger Leaf(mem, tables, root, o), pos in tables} :: Leaf(mem, tables, root, o) && pos in tables ==>
          Disjoint(ChunkOf(mem, tables, root, o), Chunk(tables[pos], 0)))
    && (forall o, o' {:trigger Leaf(mem, tables, root, o), Leaf(mem, tables, root, o')} ::
          Leaf(mem, tables, root, o) && Leaf(mem, tables, root, o') && o != o' ==>
          Disjoint(ChunkOf(mem, tables, root, o), ChunkOf(mem, tables, root, o')))
  }

  lemma {:induction false} ApartDiffer(mem: Mem, tables: S.Tables, root: nat)
    requires LeavesApart(mem, tables, root)
    ensures LeavesDiffer(mem, tables, root)
  {
  }

  /** Whatever is queued is a table or a page of the lower half. */
  lemma {:induction false} QueuedKind(mem: Mem, tables: S.Tables, owner: S.Owners, root: nat, x: Chunk) returns (pos: S.Pos, o: seq<nat>)
    requires S.TreeOK(mem, tables, owner) && LeavesDiffer(mem, tables, root) && S.Root(root) in tables && HasTree(mem, root, 3)
    requires x in Queued(mem, root)
    ensures (pos in tables && x == Chunk(tables[pos], 0)) || (Leaf(mem, tables, root, o) && x == ChunkOf(mem, tables, root, o))
  {
    pos, o := S.Root(root), [];
    assert S.NodeOK(mem, tables, owner, S.Root(root));
    if !IsTableFrame(tables, x.addr) {
      o := QueuedPages(mem, tables, owner, root, x);
    } else if x in AllReleased(View(mem, root, 3)[..256], 3) {
      pos :| pos in tables && tables[pos] == x.addr;
      o := QueuedOrigin(mem, tables, owner, root, x, pos);
    }
  }

  lemma {:induction false} TwiceCounts(s: seq<Chunk>, i: nat, j: nat)
    requires i < j < |s| && s[i] == s[j]
    ensures multiset(s)[s[i]] >= 2
  {
    assert s == s[..j] + s[j..];
    assert s[..j][i] == s[i] && s[j..][0] == s[i];
  }

  /** Freeing any space gives back no byte twice: the queued chunks are pairwise disjoint. */
  lemma {:induction false} QueuedDisjoint(mem: Mem, tables: S.Tables, owner: S.Owners, root: nat, i: nat, j: nat)
    requires S.TreeOK(mem, tables, owner) && LeavesApart(mem, tables, root) && S.Root(root) in tables && HasTree(mem, root, 3)
    requires i < j < |Queued(mem, root)|
    ensures Disjoint(Queued(mem, root)[i], Queued(mem, root)[j])
  {
    var queue := Queued(mem, root);
    ApartDiffer(mem, tables, root);
    if queue[i] == queue[j] {
      TwiceCounts(queue, i, j);
      QueuedOnce(mem, tables, owner, root, queue[i]);
    }
    var pos, o := QueuedKind(mem, tables, owner, root, queue[i]);
    var pos', o' := QueuedKind(mem, tables, owner, root, queue[j]);
    if pos in tables && pos' in tables {
      assert tables[pos] % 0x1000 == 0 && tables[pos'] % 0x1000 == 0;
    }
  }
}
