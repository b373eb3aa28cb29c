/**
  What a change of the tables does to the rest of what an address has: its rights, and
  the guard bit by which the kernel marks 4K pages that must stay unmapped.
 */
module PageViews {
  import opened Wrappers
  import opened PageTables
  import opened PageSpaces
  import opened PageRights
  import T = PageTrees

  /** The walk from table t gets to a 4K entry, and that carries the guard bit. */
  function Guarded(mem: Mem, t: nat, path: seq<nat>, lvl: nat): bool
    requires |path| == lvl + 1
    decreases lvl
  {
    t in mem && path[0] < |mem[t]|
    && var e := mem[t][path[0]];
    if lvl == 0 then e.f.guard else IsTable(e, lvl) && Guarded(mem, e.addr, path[1..], lvl - 1)
  }

  /** An address has the same rights and the same guard bit in both memories. */
  ghost predicate Alike(mem: Mem, mem': Mem, root: nat, path: seq<nat>)
    requires |path| == 4
  {
    Access(mem', root, path, 3, All) == Access(mem, root, path, 3, All) && Guarded(mem', root, path, 3) == Guarded(mem, root, path, 3)
  }

  /** So has every address of every space. */
  ghost predicate SameViews(mem: Mem, mem': Mem, tables: Tables) {
    forall r, p {:trigger Alike(mem, mem', r, p)} :: Root(r) in tables && PathOK(p) ==> Alike(mem, mem', r, p)
  }

  /** So has every address outside one page, and that page is guarded or not. */
  ghost predicate OnlyView(mem: Mem, mem': Mem, tables: Tables, root: nat, path: seq<nat>, lvl: nat, guard: bool)
    requires lvl <= 3 && |path| == 4
  {
    forall r, p {:trigger Alike(mem, mem', r, p)} :: Root(r) in tables && PathOK(p) ==>
      if SamePage(root, path, r, p, 3 - lvl) then Guarded(mem', r, p, 3) == guard else Alike(mem, mem', r, p)
  }

  lemma {:induction false} GuardedFrom(mem: Mem, tables: Tables, owner: Owners, root: nat, path: seq<nat>, n: nat)
    requires TreeOK(mem, tables, owner) && Root(root) in tables && PathOK(path)
    requires n <= Stop(tables, root, path) && PosAt(root, path, n) in tables
    ensures var k := Stop(tables, root, path);
      Guarded(mem, tables[PosAt(root, path, n)], path[n..], 3 - n) <==> k == 3 && EntryOn(mem, tables, root, path, k).f.guard
    decreases 3 - n
  {
    var pos := PosAt(root, path, n);
    assert NodeOK(mem, tables, owner, pos) && EdgeOK(mem, tables, pos, path[n]);
    if n < 3 {
      PosStep(root, path, n);
      assert path[n..][1..] == path[n + 1..];
      if n < Stop(tables, root, path) {
        GuardedFrom(mem, tables, owner, root, path, n + 1);
      }
    }
  }

  /** The guard bit is read where the walk ends. */
  lemma {:induction false} GuardedEnds(mem: Mem, tables: Tables, owner: Owners, root: nat, path: seq<nat>)
    requires TreeOK(mem, tables, owner) && Root(root) in tables && PathOK(path)
    ensures var k := Stop(tables, root, path); Guarded(mem, root, path, 3) <==> k == 3 && EntryOn(mem, tables, root, path, k).f.guard
  {
    assert NodeOK(mem, tables, owner, Root(root));
    assert path[0..] == path;
    GuardedFrom(mem, tables, owner, root, path, 0);
  }

  /** Entries on the way point to tables. */
  lemma {:induction false} TableOnWay(mem: Mem, tables: Tables, owner: Owners, root: nat, path: seq<nat>, j: nat)
    requires TreeOK(mem, tables, owner) && Root(root) in tables && PathOK(path) && j < Stop(tables, root, path)
    ensures PosAt(root, path, j) in tables && IsTable(EntryOn(mem, tables, root, path, j), 3 - j)
  {
    var pos := PosAt(root, path, j);
    assert pos in tables;
    assert NodeOK(mem, tables, owner, pos) && EdgeOK(mem, tables, pos, path[j]);
    PosStep(root, path, j);
  }

  /** With the same entries on the way the rights on the way are the same. */
  ghost predicate SameWay(mem: Mem, tables: Tables, mem': Mem, tables': Tables, root: nat, path: seq<nat>, k: nat)
    requires |path| == 4 && k <= 3
  {
    forall j {:trigger EntryOn(mem', tables', root, path, j)} :: 0 <= j < k ==>
      EntryOn(mem', tables', root, path, j) == EntryOn(mem, tables, root, path, j)
  }

  lemma {:induction false} SameWaySameRights(mem: Mem, tables: Tables, mem': Mem, tables': Tables, root: nat, path: seq<nat>, k: nat)
    requires |path| == 4 && k <= 3 && SameWay(mem, tables, mem', tables', root, path, k)
    ensures RightsTo(mem', tables', root, path, k) == RightsTo(mem, tables, root, path, k)
  {
    if k > 0 {
      SameWaySameRights(mem, tables, mem', tables', root, path, k - 1);
      assert EntryOn(mem', tables', root, path, k - 1) == EntryOn(mem, tables, root, path, k - 1);
    }
  }

  // One entry rewritten.

  lemma {:induction false} EditKeepsEntry(mem: Mem, tables: Tables, owner: Owners, pos: Pos, i: nat, e: Entry, r: nat, p: seq<nat>, j: nat)
    requires TreeOK(mem, tables, owner) && LeafEdit(mem, tables, pos, i, e) && Root(r) in tables && PathOK(p) && j <= 3
    requires PosAt(r, p, j) != pos || p[j] != i
    ensures EntryOn(Edited(mem, tables[pos], i, e), tables, r, p, j) == EntryOn(mem, tables, r, p, j)
  {
    assert NodeOK(mem, tables, owner, pos) && NodeOK(mem, tables, owner, PosAt(r, p, j));
  }

  lemma {:induction false} EditKeepsWay(mem: Mem, tables: Tables, owner: Owners, pos: Pos, i: nat, e: Entry, r: nat, p: seq<nat>)
    requires TreeOK(mem, tables, owner) && LeafEdit(mem, tables, pos, i, e) && Root(r) in tables && PathOK(p)
    ensures SameWay(mem, tables, Edited(mem, tables[pos], i, e), tables, r, p, Stop(tables, r, p))
  {
    forall j | 0 <= j < Stop(tables, r, p)
      ensures EntryOn(Edited(mem, tables[pos], i, e), tables, r, p, j) == EntryOn(mem, tables, r, p, j)
    {
      TableOnWay(mem, tables, owner, r, p, j);
      LevelOfPos(r, p, j);
      EditKeepsEntry(mem, tables, owner, pos, i, e, r, p, j);
    }
  }

  /** Rewriting an entry changes rights and guards of exactly the addresses behind it. */
  lemma {:induction false} EditView(mem: Mem, tables: Tables, owner: Owners, root: nat, path: seq<nat>, e: Entry, r: nat, p: seq<nat>)
    requires TreeOK(mem, tables, owner) && Root(root) in tables && Root(r) in tables && PathOK(path) && PathOK(p)
    requires var n := Stop(tables, root, path); LeafEdit(mem, tables, PosAt(root, path, n), path[n], e)
    ensures var n := Stop(tables, root, path);
      var mem' := Edited(mem, tables[PosAt(root, path, n)], path[n], e);
      if SamePage(root, path, r, p, n) then Guarded(mem', r, p, 3) == (n == 3 && e.f.guard) else Alike(mem, mem', r, p)
  {
    var n, k := Stop(tables, root, path), Stop(tables, r, p);
    var pos := PosAt(root, path, n);
    var mem' := Edited(mem, tables[pos], path[n], e);
    LevelOfPos(root, path, n);
    EditKeepsTree(mem, tables, owner, pos, path[n], e);
    GuardedEnds(mem', tables, owner, r, p);
    SameStop(tables, root, path, r, p);
    SamePageIsSameEntry(root, path, r, p, n);
    if SamePage(root, path, r, p, n) {
      assert EntryOn(mem', tables, r, p, k) == e;
    } else {
      EditKeepsEntry(mem, tables, owner, pos, path[n], e, r, p, k);
      EditKeepsWay(mem, tables, owner, pos, path[n], e, r, p);
      SameEndAlike(mem, tables, owner, mem', tables, owner, r, p);
    }
  }

  /** The same for all addresses. */
  lemma {:induction false} EditViews(mem: Mem, tables: Tables, owner: Owners, root: nat, path: seq<nat>, e: Entry)
    requires TreeOK(mem, tables, owner) && Root(root) in tables && PathOK(path)
    requires var n := Stop(tables, root, path); LeafEdit(mem, tables, PosAt(root, path, n), path[n], e)
    ensures var n := Stop(tables, root, path);
      OnlyView(mem, Edited(mem, tables[PosAt(root, path, n)], path[n], e), tables, root, path, 3 - n, n == 3 && e.f.guard)
  {
    forall r, p | Root(r) in tables && PathOK(p)
      ensures var n := Stop(tables, root, path);
        var mem' := Edited(mem, tables[PosAt(root, path, n)], path[n], e);
        if SamePage(root, path, r, p, n) then Guarded(mem', r, p, 3) == (n == 3 && e.f.guard) else Alike(mem, mem', r, p)
    {
      EditView(mem, tables, owner, root, path, e, r, p);
    }
  }

  /** Rewriting an absent entry above the 4K level with another one changes nothing. */
  lemma {:induction false} AbsentViews(mem: Mem, tables: Tables, owner: Owners, root: nat, path: seq<nat>, e: Entry)
    requires TreeOK(mem, tables, owner) && Root(root) in tables && PathOK(path) && !e.f.present
    requires var n := Stop(tables, root, path);
      n < 3 && LeafEdit(mem, tables, PosAt(root, path, n), path[n], e) && !EntryOn(mem, tables, root, path, n).f.present
    ensures var n := Stop(tables, root, path); SameViews(mem, Edited(mem, tables[PosAt(root, path, n)], path[n], e), tables)
  {
    var n := Stop(tables, root, path);
    var pos := PosAt(root, path, n);
    var mem' := Edited(mem, tables[pos], path[n], e);
    LevelOfPos(root, path, n);
    EditKeepsTree(mem, tables, owner, pos, path[n], e);
    forall r, p | Root(r) in tables && PathOK(p) ensures Alike(mem, mem', r, p) {
      EditView(mem, tables, owner, root, path, e, r, p);
      if SamePage(root, path, r, p, n) {
        SameStop(tables, root, path, r, p);
        SamePageIsSameEntry(root, path, r, p, n);
        NothingSeen(mem, tables, owner, r, p);
        NothingSeen(mem', tables, owner, r, p);
      }
    }
  }

  lemma {:induction false} SameEndAlike(mem: Mem, tables: Tables, owner: Owners, mem': Mem, tables': Tables, owner': Owners, r: nat, p: seq<nat>)
    requires TreeOK(mem, tables, owner) && TreeOK(mem', tables', owner') && Root(r) in tables && Root(r) in tables' && PathOK(p)
    requires Stop(tables', r, p) == Stop(tables, r, p) && SameWay(mem, tables, mem', tables', r, p, Stop(tables, r, p))
    requires EntryOn(mem', tables', r, p, Stop(tables, r, p)) == EntryOn(mem, tables, r, p, Stop(tables, r, p))
    ensures Alike(mem, mem', r, p)
  {
    SameWaySameRights(mem, tables, mem', tables', r, p, Stop(tables, r, p));
    AccessEnds(mem, tables, owner, r, p);
    AccessEnds(mem', tables', owner', r, p);
    GuardedEnds(mem, tables, owner, r, p);
    GuardedEnds(mem', tables', owner', r, p);
  }

  // An empty table linked where nothing was present.

  lemma {:induction false} LinkKeepsEntry(mem: Mem, tables: Tables, owner: Owners, pos: Pos, i: nat, g: nat, f: Flags, r: nat, p: seq<nat>, j: nat)
    requires TreeOK(mem, tables, owner) && CanLink(mem, tables, owner, pos, i, g, f) && Root(r) in tables && PathOK(p) && j <= 3
    requires PosAt(r, p, j) in tables && (PosAt(r, p, j) != pos || p[j] != i) && Child(pos, i) !in tables
    ensures EntryOn(Linked(mem, tables[pos], i, g, f), tables[Child(pos, i) := g], r, p, j) == EntryOn(mem, tables, r, p, j)
  {
    assert NodeOK(mem, tables, owner, pos) && NodeOK(mem, tables, owner, PosAt(r, p, j));
  }

  lemma {:induction false} LinkKeepsWay(mem: Mem, tables: Tables, owner: Owners, pos: Pos, i: nat, g: nat, f: Flags, r: nat, p: seq<nat>)
    requires TreeOK(mem, tables, owner) && CanLink(mem, tables, owner, pos, i, g, f) && Root(r) in tables && PathOK(p) && Child(pos, i) !in tables
    ensures SameWay(mem, tables, Linked(mem, tables[pos], i, g, f), tables[Child(pos, i) := g], r, p, Stop(tables, r, p))
  {
    forall j | 0 <= j < Stop(tables, r, p)
      ensures EntryOn(Linked(mem, tables[pos], i, g, f), tables[Child(pos, i) := g], r, p, j) == EntryOn(mem, tables, r, p, j)
    {
      TableOnWay(mem, tables, owner, r, p, j);
      LinkKeepsEntry(mem, tables, owner, pos, i, g, f, r, p, j);
    }
  }

  lemma {:induction false} EndsInTable(mem: Mem, tables: Tables, owner: Owners, r: nat, p: seq<nat>)
    requires TreeOK(mem, tables, owner) && Root(r) in tables && PathOK(p)
    ensures PosAt(r, p, Stop(tables, r, p)) in tables
  {
  }

  /** Nothing is seen through an empty table. */
  lemma {:induction false} NothingSeen(mem: Mem, tables: Tables, owner: Owners, r: nat, p: seq<nat>)
    requires TreeOK(mem, tables, owner) && Root(r) in tables && PathOK(p)
    requires var k := Stop(tables, r, p); var e := EntryOn(mem, tables, r, p, k); !e.f.present && (k == 3 ==> !e.f.guard)
    ensures Access(mem, r, p, 3, All) == None && !Guarded(mem, r, p, 3)
  {
    AccessEnds(mem, tables, owner, r, p);
    GuardedEnds(mem, tables, owner, r, p);
  }

  lemma {:induction false} AtLinked(mem: Mem, tables: Tables, owner: Owners, pos: Pos, i: nat, g: nat, f: Flags, r: nat, p: seq<nat>, k: nat)
    requires TreeOK(mem, tables, owner) && CanLink(mem, tables, owner, pos, i, g, f) && Root(r) in tables && PathOK(p)
    requires k < 3 && PosAt(r, p, k) in tables && PosAt(r, p, k + 1) == Child(pos, i)
    ensures PosAt(r, p, k) == pos && p[k] == i
  {
    assert NodeOK(mem, tables, owner, pos) && NodeOK(mem, tables, owner, PosAt(r, p, k));
    PosStep(r, p, k);
    ChildInjective(pos, i, PosAt(r, p, k), p[k]);
  }

  /** Linking an empty table changes no rights and no guards. */
  lemma {:induction false} LinkView(mem: Mem, tables: Tables, owner: Owners, pos: Pos, i: nat, g: nat, f: Flags, r: nat, p: seq<nat>)
    requires TreeOK(mem, tables, owner) && CanLink(mem, tables, owner, pos, i, g, f) && Root(r) in tables && PathOK(p)
    ensures Alike(mem, Linked(mem, tables[pos], i, g, f), r, p)
  {
    var c, k := Child(pos, i), Stop(tables, r, p);
    var mem', tables', owner' := Linked(mem, tables[pos], i, g, f), tables[c := g], owner[g := c];
    LinkKeepsTree(mem, tables, owner, pos, i, g, f);
    StopAfterLink(mem, tables, owner, pos, i, g, r, p);
    EndsInTable(mem, tables, owner, r, p);
    if k < 3 && PosAt(r, p, k + 1) == c {
      AtLinked(mem, tables, owner, pos, i, g, f, r, p, k);
      assert NodeOK(mem, tables, owner, pos);
      NothingSeen(mem, tables, owner, r, p);
      assert EntryOn(mem', tables', r, p, k + 1) == Zero;
      NothingSeen(mem', tables', owner', r, p);
    } else {
      if k < 3 {
        PosStep(r, p, k);
      }
      LevelOfPos(r, p, k);
      LinkKeepsEntry(mem, tables, owner, pos, i, g, f, r, p, k);
      LinkKeepsWay(mem, tables, owner, pos, i, g, f, r, p);
      SameEndAlike(mem, tables, owner, mem', tables', owner', r, p);
    }
  }

  lemma {:induction false} LinkViews(mem: Mem, tables: Tables, owner: Owners, pos: Pos, i: nat, g: nat, f: Flags)
    requires TreeOK(mem, tables, owner) && CanLink(mem, tables, owner, pos, i, g, f)
    ensures SameViews(mem, Linked(mem, tables[pos], i, g, f), tables)
  {
    forall r, p | Root(r) in tables && PathOK(p) ensures Alike(mem, Linked(mem, tables[pos], i, g, f), r, p) {
      LinkView(mem, tables, owner, pos, i, g, f, r, p);
    }
  }

  // More tables, the old ones untouched.

  lemma {:induction false} MoreFrom(mem: Mem, tables: Tables, owner: Owners, mem': Mem, root: nat, path: seq<nat>, n: nat, rights: Rights)
    requires TreeOK(mem, tables, owner) && PathOK(path) && n <= 3 && PosAt(root, path, n) in tables
    requires forall t :: t in mem ==> t in mem' && mem'[t] == mem[t]
    ensures var t := tables[PosAt(root, path, n)];
      && Access(mem', t, path[n..], 3 - n, rights) == Access(mem, t, path[n..], 3 - n, rights)
      && Guarded(mem', t, path[n..], 3 - n) == Guarded(mem, t, path[n..], 3 - n)
    decreases 3 - n
  {
    var pos := PosAt(root, path, n);
    assert NodeOK(mem, tables, owner, pos) && EdgeOK(mem, tables, pos, path[n]);
    if n < 3 {
      PosStep(root, path, n);
      assert path[n..][1..] == path[n + 1..];
      if PosAt(root, path, n + 1) in tables {
        MoreFrom(mem, tables, owner, mem', root, path, n + 1, Narrowed(rights, mem[tables[pos]][path[n]].f));
      }
    }
  }

  /** Memory added beside the tables changes no rights and no guards. */
  lemma {:induction false} MoreViews(mem: Mem, tables: Tables, owner: Owners, mem': Mem)
    requires TreeOK(mem, tables, owner) && forall t :: t in mem ==> t in mem' && mem'[t] == mem[t]
    ensures SameViews(mem, mem', tables)
  {
    forall r, p | Root(r) in tables && PathOK(p) ensures Alike(mem, mem', r, p) {
      assert NodeOK(mem, tables, owner, Root(r));
      assert p[0..] == p;
      MoreFrom(mem, tables, owner, mem', r, p, 0, All);
    }
  }

  // One change after another.

  lemma {:induction false} SameThenSame(mem: Mem, mem1: Mem, mem2: Mem, tables: Tables, tables1: Tables)
    requires SameViews(mem, mem1, tables) && SameViews(mem1, mem2, tables1) && forall r :: Root(r) in tables ==> Root(r) in tables1
    ensures SameViews(mem, mem2, tables)
  {
    forall r, p | Root(r) in tables && PathOK(p) ensures Alike(mem, mem2, r, p) {
      assert Alike(mem, mem1, r, p) && Alike(mem1, mem2, r, p);
    }
  }

  lemma {:induction false} SameThenOnly(mem: Mem, mem1: Mem, mem2: Mem, tables: Tables, tables1: Tables, root: nat, path: seq<nat>, lvl: nat, guard: bool)
    requires lvl <= 3 && |path| == 4 && SameViews(mem, mem1, tables) && OnlyView(mem1, mem2, tables1, root, path, lvl, guard)
    requires forall r :: Root(r) in tables ==> Root(r) in tables1
    ensures OnlyView(mem, mem2, tables, root, path, lvl, guard)
  {
    forall r, p | Root(r) in tables && PathOK(p)
      ensures if SamePage(root, path, r, p, 3 - lvl) then Guarded(mem2, r, p, 3) == guard else Alike(mem, mem2, r, p)
    {
      assert Alike(mem, mem1, r, p);
      assert Alike(mem1, mem2, r, p) || !Alike(mem1, mem2, r, p);
    }
  }

  // Copies of trees have no guards.

  function GuardIn(slots: seq<T.Slot>, path: seq<nat>, lvl: nat): bool
    requires |path| == lvl + 1
    decreases lvl
  {
    path[0] < |slots|
    && match slots[path[0]]
       case Absent(e) => lvl == 0 && e.f.guard
       case Page(frame, f) => lvl == 0 && f.guard
       case Table(frame, f, kids) => lvl > 0 && GuardIn(kids, path[1..], lvl - 1)
  }

  lemma {:induction false} GuardedIsGuardIn(mem: Mem, t: nat, path: seq<nat>, lvl: nat)
    requires |path| == lvl + 1 && T.HasTree(mem, t, lvl)
    ensures Guarded(mem, t, path, lvl) == GuardIn(T.View(mem, t, lvl), path, lvl)
    decreases lvl
  {
    if path[0] < ENTRIES {
      var e := mem[t][path[0]];
      assert T.SlotTree(mem, e, lvl) && T.View(mem, t, lvl)[path[0]] == T.SlotOf(mem, e, lvl);
      if IsTable(e, lvl) {
        GuardedIsGuardIn(mem, e.addr, path[1..], lvl - 1);
      }
    }
  }

  lemma {:induction false} CopiesUnguarded(ps: seq<T.Slot>, qs: seq<T.Slot>, data: T.Data, path: seq<nat>, lvl: nat)
    requires |path| == lvl + 1 && T.AllCopied(ps, qs, data)
    ensures !GuardIn(qs, path, lvl)
    decreases lvl
  {
    if path[0] < |ps| {
      var p, q := ps[path[0]], qs[path[0]];
      assert T.CopyOf(p, q, data);
      if p.Table? && lvl > 0 {
        assert T.AllCopied(p.kids, q.kids, data);
        CopiesUnguarded(p.kids, q.kids, data, path[1..], lvl - 1);
      }
    }
  }

  /** The lower half of a duplicate has no guards. */
  lemma {:induction false} ForkUnguarded(mem: Mem, cr3: nat, mem': Mem, g: nat, data: T.Data, path: seq<nat>)
    requires T.HasTree(mem, cr3, 3) && T.HasTree(mem', g, 3) && |path| == 4 && path[0] < 256
    requires T.AllCopied(T.View(mem, cr3, 3)[..256], T.View(mem', g, 3)[..256], data)
    ensures !Guarded(mem', g, path, 3)
  {
    var qs := T.View(mem', g, 3);
    GuardedIsGuardIn(mem', g, path, 3);
    CopiesUnguarded(T.View(mem, cr3, 3)[..256], qs[..256], data, path, 3);
    assert qs[..256][path[0]] == qs[path[0]];
  }

  /** Upper-half addresses are guarded in every space or in none. */
  lemma {:induction false} SharedGuards(mem: Mem, kernel: nat, tables: Tables, root: nat, path: seq<nat>)
    requires KernelHalf(mem, kernel, tables) && Root(root) in tables && PathOK(path) && path[0] >= 256
    ensures Access(mem, root, path, 3, All) == Access(mem, kernel, path, 3, All)
    ensures Guarded(mem, root, path, 3) == Guarded(mem, kernel, path, 3)
  {
    assert SameTop(mem, kernel, root, path[0]);
  }
}
