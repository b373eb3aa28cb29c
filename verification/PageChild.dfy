/**
  A duplicated space joins the others: its tables get positions of their own, so that
  mapping, unmapping and the shared kernel half go on working.
 */
module PageChild {
  import opened Wrappers
  import opened PageTables
  import opened PageTrees
  import opened PageFork
  import S = PageSpaces

  // Paths to tables in a tree whose frames are all different.

  ghost predicate NoDuplicates(slots: seq<Slot>, lvl: nat) {
    forall x {:trigger multiset(AllFrames(slots, lvl))[x]} :: multiset(AllFrames(slots, lvl))[x] <= 1
  }

  lemma {:induction false} TableInFrames(slots: seq<Slot>, path: seq<nat>, lvl: nat)
    requires 0 < |path| <= lvl && TableIn(slots, path, lvl).Some?
    ensures path[0] < |slots| && Chunk(TableIn(slots, path, lvl).value, 0) in Frames(slots[path[0]], lvl)
    decreases lvl
  {
    if |path| > 1 {
      var kids, rest := slots[path[0]].kids, path[1..];
      TableInFrames(kids, rest, lvl - 1);
      var x := Chunk(TableIn(kids, rest, lvl - 1).value, 0);
      SlotInFrames(kids, rest[0], lvl - 1, x);
      BelowInFrames(slots[path[0]], lvl, x);
    }
  }

  lemma {:induction false} BelowInFrames(s: Slot, lvl: nat, x: Chunk)
    requires s.Table? && lvl > 0 && x in AllFrames(s.kids, lvl - 1)
    ensures x in Frames(s, lvl)
  {
  }

  lemma {:induction false} SlotInFrames(slots: seq<Slot>, i: nat, lvl: nat, x: Chunk)
    requires i < |slots|
    ensures multiset(Frames(slots[i], lvl))[x] <= multiset(AllFrames(slots, lvl))[x]
    ensures x in Frames(slots[i], lvl) ==> x in AllFrames(slots, lvl)
    decreases |slots|
  {
    if i < |slots| - 1 {
      SlotInFrames(slots[..|slots| - 1], i, lvl, x);
    }
  }

  lemma {:induction false} TwoSlots(slots: seq<Slot>, i: nat, j: nat, lvl: nat, x: Chunk)
    requires i < j < |slots|
    ensures multiset(Frames(slots[i], lvl))[x] + multiset(Frames(slots[j], lvl))[x] <= multiset(AllFrames(slots, lvl))[x]
    decreases |slots|
  {
    var init := slots[..|slots| - 1];
    if j < |slots| - 1 {
      TwoSlots(init, i, j, lvl, x);
    } else {
      SlotInFrames(init, i, lvl, x);
    }
  }

  lemma {:induction false} KidsHaveNoDuplicates(slots: seq<Slot>, i: nat, lvl: nat)
    requires i < |slots| && slots[i].Table? && lvl > 0 && NoDuplicates(slots, lvl)
    ensures NoDuplicates(slots[i].kids, lvl - 1) && Chunk(slots[i].frame, 0) !in AllFrames(slots[i].kids, lvl - 1)
  {
    var below := AllFrames(slots[i].kids, lvl - 1);
    forall x ensures multiset(below)[x] <= 1 && (x == Chunk(slots[i].frame, 0) ==> multiset(below)[x] == 0) {
      SlotInFrames(slots, i, lvl, x);
      assert multiset([Chunk(slots[i].frame, 0)] + below) == multiset{Chunk(slots[i].frame, 0)} + multiset(below);
    }
    assert multiset(below)[Chunk(slots[i].frame, 0)] == 0;
  }

  lemma {:induction false} SameFirstIndex(slots: seq<Slot>, p: seq<nat>, q: seq<nat>, lvl: nat)
    requires NoDuplicates(slots, lvl) && 0 < |p| <= lvl && 0 < |q| <= lvl
    requires TableIn(slots, p, lvl).Some? && TableIn(slots, p, lvl) == TableIn(slots, q, lvl)
    ensures p[0] == q[0] < |slots| && slots[p[0]].Table?
  {
    var x := Chunk(TableIn(slots, p, lvl).value, 0);
    TableInFrames(slots, p, lvl);
    TableInFrames(slots, q, lvl);
    var i, j := if p[0] < q[0] then p[0] else q[0], if p[0] < q[0] then q[0] else p[0];
    assert multiset(AllFrames(slots, lvl))[x] <= 1;
    if i < j {
      TwoSlots(slots, i, j, lvl, x);
    }
  }

  /** A table is not found again below itself. */
  lemma {:induction false} NotFoundBelow(slots: seq<Slot>, p: seq<nat>, lvl: nat)
    requires NoDuplicates(slots, lvl) && 1 < |p| <= lvl && TableIn(slots, p, lvl).Some?
    ensures TableIn(slots, p, lvl).value != slots[p[0]].frame
  {
    var s, rest := slots[p[0]], p[1..];
    KidsHaveNoDuplicates(slots, p[0], lvl);
    TableInFrames(s.kids, rest, lvl - 1);
    SlotInFrames(s.kids, rest[0], lvl - 1, Chunk(TableIn(s.kids, rest, lvl - 1).value, 0));
    assert TableIn(slots, p, lvl) == TableIn(s.kids, rest, lvl - 1);
  }

  /** Different paths lead to different tables. */
  lemma {:induction false} TableInInjective(slots: seq<Slot>, p: seq<nat>, q: seq<nat>, lvl: nat)
    requires NoDuplicates(slots, lvl) && 0 < |p| <= lvl && 0 < |q| <= lvl
    requires TableIn(slots, p, lvl).Some? && TableIn(slots, p, lvl) == TableIn(slots, q, lvl)
    ensures p == q
    decreases lvl
  {
    SameFirstIndex(slots, p, q, lvl);
    assert p == [p[0]] + p[1..] && q == [q[0]] + q[1..];
    if |p| > 1 {
      NotFoundBelow(slots, p, lvl);
    }
    if |q| > 1 {
      NotFoundBelow(slots, q, lvl);
    }
    if |p| > 1 && |q| > 1 {
      KidsHaveNoDuplicates(slots, p[0], lvl);
      TableInInjective(slots[p[0]].kids, p[1..], q[1..], lvl - 1);
    }
  }

  /** The table at a path is in memory, and its entries are the next steps. */
  lemma {:induction false} TableInMemory(mem: Mem, t: nat, lvl: nat, n: nat, p: seq<nat>)
    requires HasTree(mem, t, lvl) && lvl <= 3 && 0 < |p| <= lvl && n <= ENTRIES && TableIn(View(mem, t, lvl)[..n], p, lvl).Some?
    ensures p[0] < n && forall i :: 0 <= i < |p| ==> p[i] < ENTRIES
    ensures HasTree(mem, TableIn(View(mem, t, lvl)[..n], p, lvl).value, lvl - |p|)
    decreases lvl
  {
    var e := mem[t][p[0]];
    assert SlotTree(mem, e, lvl) && View(mem, t, lvl)[p[0]] == SlotOf(mem, e, lvl);
    if |p| > 1 {
      var kids := View(mem, e.addr, lvl - 1);
      assert kids[..ENTRIES] == kids;
      TableInMemory(mem, e.addr, lvl - 1, ENTRIES, p[1..]);
    }
  }

  lemma {:induction false} TableInNext(mem: Mem, t: nat, lvl: nat, n: nat, p: seq<nat>, i: nat)
    requires HasTree(mem, t, lvl) && lvl <= 3 && 0 < |p| < lvl && n <= ENTRIES && TableIn(View(mem, t, lvl)[..n], p, lvl).Some? && i < ENTRIES
    ensures var f := TableIn(View(mem, t, lvl)[..n], p, lvl).value;
      && HasTree(mem, f, lvl - |p|)
      && TableIn(View(mem, t, lvl)[..n], p + [i], lvl) == if IsTable(mem[f][i], lvl - |p|) then Some(mem[f][i].addr) else None
    decreases lvl
  {
    TableInMemory(mem, t, lvl, n, p);
    var e := mem[t][p[0]];
    assert SlotTree(mem, e, lvl) && View(mem, t, lvl)[p[0]] == SlotOf(mem, e, lvl);
    var kids := View(mem, e.addr, lvl - 1);
    assert kids[..ENTRIES] == kids && (p + [i])[1..] == p[1..] + [i];
    if |p| > 1 {
      TableInNext(mem, e.addr, lvl - 1, ENTRIES, p[1..], i);
    } else {
      TableInFirst(mem, e.addr, lvl - 1, ENTRIES, i);
    }
  }

  lemma {:induction false} TableInFirst(mem: Mem, t: nat, lvl: nat, n: nat, i: nat)
    requires HasTree(mem, t, lvl) && 0 < lvl <= 3 && i < n <= ENTRIES
    ensures TableIn(View(mem, t, lvl)[..n], [i], lvl) == if IsTable(mem[t][i], lvl) then Some(mem[t][i].addr) else None
  {
    assert SlotTree(mem, mem[t][i], lvl) && View(mem, t, lvl)[i] == SlotOf(mem, mem[t][i], lvl);
  }

  lemma {:induction false} TableInParent(slots: seq<Slot>, p: seq<nat>, lvl: nat)
    requires 1 < |p| <= lvl && TableIn(slots, p, lvl).Some?
    ensures TableIn(slots, p[..|p| - 1], lvl).Some?
    decreases lvl
  {
    assert p[..|p| - 1][1..] == p[1..][..|p| - 2];
    if |p| > 2 {
      TableInParent(slots[p[0]].kids, p[1..], lvl - 1);
    }
  }

  // The positions of a child's tables.

  /** The table with frame f is at path p of the lower half `low`. */
  ghost predicate ChildTable(low: seq<Slot>, p: seq<nat>, f: nat) {
    1 <= |p| <= 3 && TableIn(low, p, 3) == Some(f)
  }

  ghost predicate IsChildTable(low: seq<Slot>, f: nat) {
    exists p :: ChildTable(low, p, f)
  }

  ghost function PathFor(low: seq<Slot>, f: nat): (p: seq<nat>)
    requires IsChildTable(low, f)
    ensures ChildTable(low, p, f)
  {
    var p :| ChildTable(low, p, f);
    p
  }

  ghost function ChildFrames(low: seq<Slot>): set<nat> {
    set x | x in AllFrames(low, 3) && IsChildTable(low, x.addr) :: x.addr
  }

  ghost function ChildTables(g: nat, low: seq<Slot>): S.Tables {
    map f | f in ChildFrames(low) :: S.Lower(g, PathFor(low, f)) := f
  }

  ghost function ChildOwners(g: nat, low: seq<Slot>): S.Owners {
    map f | f in ChildFrames(low) :: S.Lower(g, PathFor(low, f))
  }

  lemma {:induction false} ChildTableIn(g: nat, low: seq<Slot>, p: seq<nat>, f: nat)
    requires NoDuplicates(low, 3) && ChildTable(low, p, f)
    ensures f in ChildFrames(low) && PathFor(low, f) == p && Chunk(f, 0) in AllFrames(low, 3)
    ensures S.Lower(g, p) in ChildTables(g, low) && ChildTables(g, low)[S.Lower(g, p)] == f
    ensures f in ChildOwners(g, low) && ChildOwners(g, low)[f] == S.Lower(g, p)
  {
    TableInFrames(low, p, 3);
    SlotInFrames(low, p[0], 3, Chunk(f, 0));
    assert IsChildTable(low, f);
    TableInInjective(low, p, PathFor(low, f), 3);
  }

  lemma {:induction false} ChildTableOnly(g: nat, low: seq<Slot>, pos: S.Pos)
    requires NoDuplicates(low, 3) && pos in ChildTables(g, low)
    ensures pos.Lower? && pos.r == g && ChildTable(low, pos.path, ChildTables(g, low)[pos])
  {
    var f :| f in ChildFrames(low) && pos == S.Lower(g, PathFor(low, f));
  }

  /** What duplication leaves: the new space g beside the old memory. */
  ghost predicate Forked(mem: Mem, kernel: nat, owner: S.Owners, mem': Mem, g: nat) {
    && Extends(mem, mem') && g !in mem && g !in owner && HasTree(mem', g, 3) && kernel in mem && |mem[kernel]| == ENTRIES
    && (forall i :: 256 <= i < ENTRIES ==> mem'[g][i] == mem[kernel][i])
    && var low := View(mem', g, 3)[..256];
    && NoDuplicates(low, 3)
    && (forall x :: x in AllFrames(low, 3) ==> x.addr !in mem && x.addr !in owner && x.addr != g)
  }

  ghost function Joined(tables: S.Tables, g: nat, low: seq<Slot>): S.Tables {
    tables[S.Root(g) := g] + ChildTables(g, low)
  }

  ghost function JoinedOwners(owner: S.Owners, g: nat, low: seq<Slot>): S.Owners {
    owner[g := S.Root(g)] + ChildOwners(g, low)
  }

  /** No position below a frame that is not in use. */
  lemma {:induction false} NothingOfFresh(mem: Mem, tables: S.Tables, owner: S.Owners, g: nat, p: seq<nat>)
    requires S.TreeOK(mem, tables, owner) && g !in mem
    ensures S.Root(g) !in tables && S.Lower(g, p) !in tables
    decreases |p|
  {
    assert S.NodeOK(mem, tables, owner, S.Root(g)) && S.NodeOK(mem, tables, owner, S.Lower(g, p));
    if |p| >= 2 {
      NothingOfFresh(mem, tables, owner, g, p[..|p| - 1]);
    }
  }

  /** Old tables keep their place. */
  lemma {:induction false} OldNode(mem: Mem, kernel: nat, tables: S.Tables, owner: S.Owners, mem': Mem, g: nat, q: S.Pos)
    requires S.TreeOK(mem, tables, owner) && Forked(mem, kernel, owner, mem', g) && q in tables
    ensures var low := View(mem', g, 3)[..256];
      q !in ChildTables(g, low) && S.NodeOK(mem', Joined(tables, g, low), JoinedOwners(owner, g, low), q)
  {
    var low := View(mem', g, 3)[..256];
    var tables', owner' := Joined(tables, g, low), JoinedOwners(owner, g, low);
    assert S.NodeOK(mem, tables, owner, q);
    OldIsNotNew(mem, tables, owner, g, low, q);
    assert tables'[q] == tables[q] && owner'[tables[q]] == q;
    forall i: nat ensures S.EdgeOK(mem', tables', q, i) {
      assert S.EdgeOK(mem, tables, q, i);
      if i < ENTRIES && S.Level(q) > 0 {
        S.ChildLevel(q, i);
        ChildIsNotNew(mem, tables, owner, g, low, q, i);
        if S.Child(q, i) in tables {
          OldIsNotNew(mem, tables, owner, g, low, S.Child(q, i));
        }
      }
    }
  }

  lemma {:induction false} OldIsNotNew(mem: Mem, tables: S.Tables, owner: S.Owners, g: nat, low: seq<Slot>, q: S.Pos)
    requires S.TreeOK(mem, tables, owner) && g !in mem && NoDuplicates(low, 3) && q in tables
    requires forall x :: x in AllFrames(low, 3) ==> x.addr !in owner
    ensures q !in ChildTables(g, low) && q != S.Root(g) && tables[q] !in ChildOwners(g, low) && (g !in owner ==> tables[q] != g)
  {
    assert S.NodeOK(mem, tables, owner, q);
    NothingOfFresh(mem, tables, owner, g, if q.Lower? then q.path else []);
    if q in ChildTables(g, low) {
      ChildTableOnly(g, low, q);
    }
  }

  /** Nothing new hangs below an old table. */
  lemma {:induction false} ChildIsNotNew(mem: Mem, tables: S.Tables, owner: S.Owners, g: nat, low: seq<Slot>, q: S.Pos, i: nat)
    requires S.TreeOK(mem, tables, owner) && g !in mem && NoDuplicates(low, 3) && q in tables && 0 < S.Level(q) <= 3
    ensures S.Child(q, i) !in ChildTables(g, low) && S.Child(q, i) != S.Root(g)
  {
    S.ChildLevel(q, i);
    NothingOfFresh(mem, tables, owner, g, if q.Lower? then q.path else []);
    if S.Child(q, i) in ChildTables(g, low) {
      ChildTableOnly(g, low, S.Child(q, i));
    }
  }

  /** A position below g is taken exactly if the tree has a table there. */
  lemma {:induction false} NewPosition(mem: Mem, tables: S.Tables, owner: S.Owners, g: nat, low: seq<Slot>, p: seq<nat>)
    requires S.TreeOK(mem, tables, owner) && g !in mem && NoDuplicates(low, 3) && 1 <= |p| <= 3
    ensures S.Lower(g, p) in Joined(tables, g, low) <==> TableIn(low, p, 3).Some?
    ensures TableIn(low, p, 3).Some? ==> Joined(tables, g, low)[S.Lower(g, p)] == TableIn(low, p, 3).value
  {
    NothingOfFresh(mem, tables, owner, g, p);
    if S.Lower(g, p) in ChildTables(g, low) {
      ChildTableOnly(g, low, S.Lower(g, p));
    }
    if TableIn(low, p, 3).Some? {
      ChildTableIn(g, low, p, TableIn(low, p, 3).value);
    }
  }

  lemma {:induction false} RootEdge(mem: Mem, kernel: nat, tables: S.Tables, owner: S.Owners, mem': Mem, g: nat, i: nat)
    requires S.TreeOK(mem, tables, owner) && S.KernelHalf(mem, kernel, tables) && Forked(mem, kernel, owner, mem', g)
    requires S.Root(g) in Joined(tables, g, View(mem', g, 3)[..256]) && Joined(tables, g, View(mem', g, 3)[..256])[S.Root(g)] == g
    ensures S.EdgeOK(mem', Joined(tables, g, View(mem', g, 3)[..256]), S.Root(g), i)
  {
    var low := View(mem', g, 3)[..256];
    if i < 256 {
      TableInFirst(mem', g, 3, 256, i);
      NewPosition(mem, tables, owner, g, low, [i]);
    } else if i < ENTRIES {
      assert S.NodeOK(mem, tables, owner, S.Root(kernel)) && S.EdgeOK(mem, tables, S.Root(kernel), i);
      if S.Upper([i]) in ChildTables(g, low) {
        ChildTableOnly(g, low, S.Upper([i]));
      }
    }
  }

  lemma {:induction false} RootPosition(g: nat, tables: S.Tables, owner: S.Owners, low: seq<Slot>)
    requires NoDuplicates(low, 3) && forall x :: x in AllFrames(low, 3) ==> x.addr != g
    ensures S.Root(g) in Joined(tables, g, low) && Joined(tables, g, low)[S.Root(g)] == g
    ensures g in JoinedOwners(owner, g, low) && JoinedOwners(owner, g, low)[g] == S.Root(g)
  {
    if S.Root(g) in ChildTables(g, low) {
      ChildTableOnly(g, low, S.Root(g));
    }
  }

  lemma {:induction false} RootNode(mem: Mem, kernel: nat, tables: S.Tables, owner: S.Owners, mem': Mem, g: nat)
    requires S.TreeOK(mem, tables, owner) && S.KernelHalf(mem, kernel, tables) && Forked(mem, kernel, owner, mem', g)
    ensures var low := View(mem', g, 3)[..256];
      S.NodeOK(mem', Joined(tables, g, low), JoinedOwners(owner, g, low), S.Root(g))
  {
    var low := View(mem', g, 3)[..256];
    RootPosition(g, tables, owner, low);
    var tables' := Joined(tables, g, low);
    forall i: nat ensures S.EdgeOK(mem', tables', S.Root(g), i) {
      RootEdge(mem, kernel, tables, owner, mem', g, i);
    }
  }

  lemma {:induction false} NewEdge(mem: Mem, tables: S.Tables, owner: S.Owners, mem': Mem, g: nat, low: seq<Slot>, p: seq<nat>, f: nat, i: nat)
    requires S.TreeOK(mem, tables, owner) && g !in mem && NoDuplicates(low, 3) && 1 <= |p| <= 3
    requires HasTree(mem', g, 3) && low == View(mem', g, 3)[..256] && TableIn(low, p, 3) == Some(f) && f in mem' && |mem'[f]| == ENTRIES
    requires S.Lower(g, p) in Joined(tables, g, low) && Joined(tables, g, low)[S.Lower(g, p)] == f
    ensures S.EdgeOK(mem', Joined(tables, g, low), S.Lower(g, p), i)
  {
    if i < ENTRIES && |p| < 3 {
      TableInNext(mem', g, 3, 256, p, i);
      NewPosition(mem, tables, owner, g, low, p + [i]);
    }
  }

  lemma {:induction false} NewParent(tables: S.Tables, g: nat, p: seq<nat>, q: seq<nat>)
    requires 1 <= |p| <= 3 && q == p[..|p| - 1] && S.Root(g) in tables && (|p| >= 2 ==> S.Lower(g, q) in tables)
    ensures S.ParentOK(tables, S.Lower(g, p))
  {
  }

  lemma {:induction false} NewNode(mem: Mem, kernel: nat, tables: S.Tables, owner: S.Owners, mem': Mem, g: nat, p: seq<nat>)
    requires S.TreeOK(mem, tables, owner) && Forked(mem, kernel, owner, mem', g) && 1 <= |p| <= 3
    requires TableIn(View(mem', g, 3)[..256], p, 3).Some?
    ensures var low := View(mem', g, 3)[..256];
      S.NodeOK(mem', Joined(tables, g, low), JoinedOwners(owner, g, low), S.Lower(g, p))
  {
    var low := View(mem', g, 3)[..256];
    var tables', owner', f := Joined(tables, g, low), JoinedOwners(owner, g, low), TableIn(low, p, 3).value;
    RootPosition(g, tables, owner, low);
    NewPosition(mem, tables, owner, g, low, p);
    ChildTableIn(g, low, p, f);
    TableInMemory(mem', g, 3, 256, p);
    var q := p[..|p| - 1];
    if |p| >= 2 {
      TableInParent(low, p, 3);
      NewPosition(mem, tables, owner, g, low, q);
    }
    NewParent(tables', g, p, q);
    assert f in mem' && |mem'[f]| == ENTRIES;
    forall i: nat ensures S.EdgeOK(mem', tables', S.Lower(g, p), i) {
      NewEdge(mem, tables, owner, mem', g, low, p, f, i);
    }
  }

  /** Duplication keeps every table at its one position and every space on the kernel's
      upper half: the child is a space like the others. */
  lemma {:induction false} ForkKeepsSpaces(mem: Mem, kernel: nat, tables: S.Tables, owner: S.Owners, mem': Mem, g: nat)
    requires S.TreeOK(mem, tables, owner) && S.KernelHalf(mem, kernel, tables) && Forked(mem, kernel, owner, mem', g)
    ensures var low := View(mem', g, 3)[..256];
      && S.TreeOK(mem', Joined(tables, g, low), JoinedOwners(owner, g, low))
      && S.KernelHalf(mem', kernel, Joined(tables, g, low))
      && S.Root(g) in Joined(tables, g, low)
  {
    var low := View(mem', g, 3)[..256];
    var tables', owner' := Joined(tables, g, low), JoinedOwners(owner, g, low);
    RootPosition(g, tables, owner, low);
    forall q ensures S.NodeOK(mem', tables', owner', q) {
      if q in tables {
        OldNode(mem, kernel, tables, owner, mem', g, q);
      } else if q == S.Root(g) {
        RootNode(mem, kernel, tables, owner, mem', g);
      } else if q in ChildTables(g, low) {
        ChildTableOnly(g, low, q);
        NewNode(mem, kernel, tables, owner, mem', g, q.path);
      }
    }
    forall r, i | S.Root(r) in tables' && 256 <= i < ENTRIES ensures S.SameTop(mem', kernel, r, i) {
      assert S.SameTop(mem, kernel, kernel, i);
      if S.Root(r) in tables {
        assert S.SameTop(mem, kernel, r, i) && S.NodeOK(mem, tables, owner, S.Root(r));
      } else if S.Root(r) in ChildTables(g, low) {
        ChildTableOnly(g, low, S.Root(r));
      }
    }
  }

  /** The roots afterwards are the old ones and the child. */
  lemma {:induction false} ForkRoots(tables: S.Tables, g: nat, low: seq<Slot>, r: nat)
    requires NoDuplicates(low, 3)
    ensures S.Root(r) in Joined(tables, g, low) <==> S.Root(r) in tables || r == g
  {
    if S.Root(r) in ChildTables(g, low) {
      ChildTableOnly(g, low, S.Root(r));
    }
  }

  /** What duplication promises is what joining needs. */
  lemma {:induction false} DuplicationForks(mem: Mem, kernel: nat, owner: S.Owners, data: Data, pool: seq<nat>, n: nat, mem': Mem, g: nat)
    requires PoolOK(pool, mem, data) && (forall i :: 0 <= i < |pool| ==> pool[i] !in owner) && n < |pool| && g == pool[0]
    requires Extends(mem, mem') && HasTree(mem', g, 3) && kernel in mem && |mem[kernel]| == ENTRIES
    requires forall i :: 256 <= i < ENTRIES ==> mem'[g][i] == mem[kernel][i]
    requires [Chunk(g, 0)] + AllFrames(View(mem', g, 3)[..256], 3) == Chunks(pool[..n + 1])
    ensures Forked(mem, kernel, owner, mem', g)
  {
    var rest := AllFrames(View(mem', g, 3)[..256], 3);
    PoolRest(pool, n, g, rest);
    forall x ensures multiset(rest)[x] <= 1 {
      OnceInDistinct(rest, x);
    }
  }

  lemma {:induction false} PoolRest(pool: seq<nat>, n: nat, g: nat, rest: seq<Chunk>)
    requires n < |pool| && (forall i, j :: 0 <= i < j < |pool| ==> pool[i] != pool[j]) && [Chunk(g, 0)] + rest == Chunks(pool[..n + 1])
    ensures forall i, j :: 0 <= i < j < |rest| ==> rest[i] != rest[j]
    ensures forall x :: x in rest ==> x.addr in pool && x.addr != pool[0]
  {
    var all := Chunks(pool[..n + 1]);
    assert forall i :: 0 <= i < |rest| ==> rest[i] == all[i + 1] && all[i + 1].addr == pool[i + 1];
  }

  /** Every old space translates as before. */
  lemma {:induction false} ForkKeepsOld(mem: Mem, tables: S.Tables, owner: S.Owners, mem': Mem, r: nat, path: seq<nat>)
    requires S.TreeOK(mem, tables, owner) && S.Root(r) in tables && Extends(mem, mem') && |path| == 4
    ensures Translate(mem', r, path, 3) == Translate(mem, r, path, 3)
  {
    assert S.NodeOK(mem, tables, owner, S.Root(r));
    SpacesAreTrees(mem, tables, owner, S.Root(r));
    ViewKept(mem, mem', r, 3);
    TranslateIsLookup(mem, r, path, 3);
    TranslateIsLookup(mem', r, path, 3);
  }
}
