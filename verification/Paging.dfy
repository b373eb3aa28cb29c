/**
  The kernel's operations on address spaces. `pool` stands for the physical
  allocator: the frames that mm_alloc_p will hand out, in order, until it fails.
 */
module Paging {
  import opened Wrappers
  import opened PageTables
  import opened PageSpaces
  import opened PageRights
  import opened PageViews
  import T = PageTrees
  import F = PageFork
  import C = PageChild

  /** Flags of an entry that points to a table. */
  const TableFlags: Flags := Flags(true, true, true, false, false, false, 0)

  datatype Outcome = Mapped | Finer | Taken | NoMemory

  ghost predicate PoolOK(pool: seq<nat>, mem: Mem, owner: Owners) {
    && (forall i :: 0 <= i < |pool| ==> pool[i] != 0 && pool[i] !in mem && pool[i] !in owner)
    && (forall i, j :: 0 <= i < j < |pool| ==> pool[i] != pool[j])
  }

  /** Every address of every space translates as before. */
  ghost predicate SameTranslations(mem: Mem, mem': Mem, tables: Tables) {
    forall r, p {:trigger Translate(mem', r, p, 3)} :: Root(r) in tables && PathOK(p) ==>
      Translate(mem', r, p, 3) == Translate(mem, r, p, 3)
  }

  /** Exactly one page of the given level changes its translation. */
  ghost predicate OnlyPage(mem: Mem, mem': Mem, tables: Tables, root: nat, path: seq<nat>, lvl: nat, result: Option<Mapping>)
    requires lvl <= 3 && |path| == 4
  {
    forall r, p {:trigger Translate(mem', r, p, 3)} :: Root(r) in tables && PathOK(p) ==>
      Translate(mem', r, p, 3) == if SamePage(root, path, r, p, 3 - lvl) then result else Translate(mem, r, p, 3)
  }

  ghost predicate SameRoots(tables: Tables, tables': Tables) {
    forall r {:trigger Root(r) in tables'} :: Root(r) in tables' <==> Root(r) in tables
  }

  class Paging {
    const kernel: nat
    var mem: Mem
    var pool: seq<nat>
    ghost var tables: Tables
    ghost var owner: Owners

    ghost predicate Trees()
      reads this
    {
      TreeOK(mem, tables, owner) && PoolOK(pool, mem, owner) && Root(kernel) in tables
    }

    ghost predicate Valid()
      reads this
    {
      Trees() && KernelHalf(mem, kernel, tables)
    }

    /** The smallest start: the kernel's top-level table, empty. */
    constructor (kernel: nat, pool: seq<nat>)
      requires PoolOK(pool, map[kernel := Empty()], map[kernel := Root(kernel)])
      ensures Trees() && OnlyRoot(tables, kernel) && this.kernel == kernel && this.pool == pool
      ensures tables.Keys == {Root(kernel)}
    {
      this.kernel, this.pool := kernel, pool;
      mem, tables, owner := map[kernel := Empty()], map[Root(kernel) := kernel], map[kernel := Root(kernel)];
      new;
      forall i: nat ensures EdgeOK(mem, tables, Root(kernel), i) {
      }
    }

    /** page_walk: the entry where the walk ends. */
    method PageWalk(root: nat, path: seq<nat>) returns (lvl: nat, t: nat, i: nat)
      requires Trees() && Root(root) in tables && PathOK(path)
      ensures var n := Stop(tables, root, path);
        lvl == 3 - n && PosAt(root, path, n) in tables && t == tables[PosAt(root, path, n)] && i == path[n]
      ensures t in mem && i < |mem[t]| && !IsTable(mem[t][i], lvl)
      ensures Translate(mem, root, path, 3) == LeafOf(mem[t][i], lvl)
    {
      WalkEnds(mem, tables, owner, root, path);
      WalkStep(mem, tables, owner, root, path, 0);
      t, i, lvl := root, path[0], 3;
      var entry := mem[t][i];
      if !entry.f.present {
        return;
      }
      WalkStep(mem, tables, owner, root, path, 1);
      t, i, lvl := entry.addr, path[1], 2;
      entry := mem[t][i];
      if !entry.f.present || entry.f.ps {
        return;
      }
      WalkStep(mem, tables, owner, root, path, 2);
      t, i, lvl := entry.addr, path[2], 1;
      entry := mem[t][i];
      if !entry.f.present || entry.f.ps {
        return;
      }
      WalkStep(mem, tables, owner, root, path, 3);
      t, i, lvl := entry.addr, path[3], 0;
    }

    /** Storing an entry that is not a table pointer where the walk ends. */
    method SetLeaf(root: nat, path: seq<nat>, t: nat, i: nat, e: Entry)
      requires Valid() && Root(root) in tables && PathOK(path)
      requires EndsAt(mem, tables, root, path, t, i) && !IsTable(e, 3 - Stop(tables, root, path))
      modifies this`mem
      ensures Valid() && OnlyPage(old(mem), mem, tables, root, path, 3 - Stop(tables, root, path), LeafOf(e, 3 - Stop(tables, root, path)))
      ensures mem == Edited(old(mem), t, i, e)
      ensures OnlyView(old(mem), mem, tables, root, path, 3 - Stop(tables, root, path), Stop(tables, root, path) == 3 && e.f.guard)
    {
      ghost var n := Stop(tables, root, path);
      ghost var pos := PosAt(root, path, n);
      UpperGoesOn(mem, kernel, tables, owner, root, path);
      LevelOfPos(root, path, n);
      assert LeafEdit(mem, tables, pos, i, e);
      EditKeepsTree(mem, tables, owner, pos, i, e);
      EditKeepsKernelHalf(mem, kernel, tables, owner, pos, i, e);
      EditViews(mem, tables, owner, root, path, e);
      ghost var mem0 := mem;
      mem := Edited(mem, t, i, e);
      forall r, p | Root(r) in tables && PathOK(p)
        ensures Translate(mem, r, p, 3) == if SamePage(root, path, r, p, n) then LeafOf(e, 3 - n) else Translate(mem0, r, p, 3)
      {
        EditEffect(mem0, tables, owner, root, path, e, r, p);
      }
    }

    /** The same for a page, with the rights it then has. */
    method SetPage(root: nat, path: seq<nat>, t: nat, i: nat, e: Entry)
      requires Valid() && Root(root) in tables && PathOK(path)
      requires EndsAt(mem, tables, root, path, t, i) && !IsTable(e, 3 - Stop(tables, root, path))
      modifies this`mem
      ensures Valid() && OnlyPage(old(mem), mem, tables, root, path, 3 - Stop(tables, root, path), LeafOf(e, 3 - Stop(tables, root, path)))
      ensures e.f.present ==>
        Access(mem, root, path, 3, All) == Some(Narrowed(RightsTo(old(mem), tables, root, path, Stop(tables, root, path)), e.f))
      ensures OnlyView(old(mem), mem, tables, root, path, 3 - Stop(tables, root, path), Stop(tables, root, path) == 3 && e.f.guard)
      ensures mem == Edited(old(mem), t, i, e)
    {
      ghost var mem0, n := mem, Stop(tables, root, path);
      SetLeaf(root, path, t, i, e);
      AboveIsKept(mem0, tables, owner, root, path, mem, tables, n, n);
      AccessEnds(mem, tables, owner, root, path);
    }

    /** mm_alloc_p of one frame; 0 when there is none. */
    method AllocFrame() returns (g: nat)
      requires Trees()
      modifies this`pool
      ensures Trees() && (g == 0 <==> old(pool) == []) && (g != 0 ==> g == old(pool)[0] && pool == old(pool)[1..])
      ensures g != 0 ==> g !in mem && g !in owner && forall i :: 0 <= i < |pool| ==> pool[i] != g
      ensures g == 0 ==> pool == old(pool)
    {
      if pool == [] {
        return 0;
      }
      g, pool := pool[0], pool[1..];
    }

    /** One turn of increase_granularity: an empty table is linked where the walk
        ends, so that it goes one level further. */
    method Deepen(root: nat, path: seq<nat>, t: nat, i: nat) returns (g: nat)
      requires Valid() && Root(root) in tables && PathOK(path) && Stop(tables, root, path) < 3
      requires EndsAt(mem, tables, root, path, t, i) && !mem[t][i].f.present
      modifies this
      ensures Valid() && SameRoots(old(tables), tables) && SameTranslations(old(mem), mem, old(tables))
      ensures SameViews(old(mem), mem, old(tables))
      ensures g == 0 ==> old(pool) == [] && tables == old(tables) && mem == Edited(old(mem), t, i, Zero)
      ensures g != 0 ==> |pool| == |old(pool)| - 1
      ensures g != 0 ==> var n := Stop(tables, root, path);
        && n == old(Stop(tables, root, path)) + 1 && EndsAt(mem, tables, root, path, g, path[n]) && mem[g][path[n]] == Zero
        && RightsTo(mem, tables, root, path, n) == RightsTo(old(mem), old(tables), root, path, n - 1)
    {
      ghost var mem0, tables0, owner0 := mem, tables, owner;
      ghost var n := Stop(tables, root, path);
      ghost var pos := PosAt(root, path, n);
      assert Translate(mem, root, path, 3) == None by {
        WalkEnds(mem, tables, owner, root, path);
      }
      UpperGoesOn(mem, kernel, tables, owner, root, path);
      g := AllocFrame();
      if g == 0 {
        SetLeaf(root, path, t, i, Zero);
        AbsentStaysAbsent(mem0, mem, tables, owner0, root, path);
        LevelOfPos(root, path, n);
        AbsentViews(mem0, tables, owner0, root, path, Zero);
        return;
      }
      PosStep(root, path, n);
      assert CanLink(mem, tables, owner, pos, i, g, TableFlags);
      LinkKeepsTree(mem, tables, owner, pos, i, g, TableFlags);
      LinkKeepsKernelHalf(mem, kernel, tables, owner, pos, i, g, TableFlags);
      LinkViews(mem, tables, owner, pos, i, g, TableFlags);
      StopAfterLink(mem, tables, owner, pos, i, g, root, path);
      mem := Linked(mem, t, i, g, TableFlags);
      tables, owner := tables[Child(pos, i) := g], owner[g := Child(pos, i)];
      ChildLevel(pos, i);
      AboveIsKept(mem0, tables0, owner0, root, path, mem, tables, n, n);
      forall r, p | Root(r) in tables0 && PathOK(p) ensures Translate(mem, r, p, 3) == Translate(mem0, r, p, 3) {
        LinkKeepsTranslation(mem0, tables0, owner0, pos, i, g, TableFlags, r, p);
      }
    }

    /** increase_granularity: tables down to the level of the wanted page size. */
    method IncreaseGranularity(root: nat, path: seq<nat>, t0: nat, i0: nat, lvl0: nat, size: nat) returns (ok: bool, t: nat, i: nat)
      requires Valid() && Root(root) in tables && PathOK(path) && size <= lvl0 == 3 - Stop(tables, root, path)
      requires EndsAt(mem, tables, root, path, t0, i0) && !mem[t0][i0].f.present
      modifies this
      ensures Valid() && SameRoots(old(tables), tables) && SameTranslations(old(mem), mem, old(tables))
      ensures SameViews(old(mem), mem, old(tables))
      ensures ok <==> |old(pool)| >= lvl0 - size
      ensures ok ==> size == 3 - Stop(tables, root, path) && EndsAt(mem, tables, root, path, t, i) && !mem[t][i].f.present
      ensures ok && lvl0 == size ==> t == t0 && i == i0 && mem == old(mem) && tables == old(tables)
      ensures ok && lvl0 > size ==> mem[t][i] == Zero
      ensures ok ==> RightsTo(mem, tables, root, path, 3 - size) == RightsTo(old(mem), old(tables), root, path, 3 - lvl0)
    {
      t, i := t0, i0;
      var lvl := lvl0;
      while lvl > size
        invariant Valid() && SameRoots(old(tables), tables) && SameTranslations(old(mem), mem, old(tables))
        invariant SameViews(old(mem), mem, old(tables))
        invariant size <= lvl == 3 - Stop(tables, root, path) && |pool| == |old(pool)| - (lvl0 - lvl)
        invariant EndsAt(mem, tables, root, path, t, i) && !mem[t][i].f.present
        invariant if lvl == lvl0 then t == t0 && i == i0 && mem == old(mem) && tables == old(tables) else mem[t][i] == Zero
        invariant RightsTo(mem, tables, root, path, 3 - lvl) == RightsTo(old(mem), old(tables), root, path, 3 - lvl0)
        decreases lvl
      {
        ghost var mem1, tables1 := mem, tables;
        var g := Deepen(root, path, t, i);
        SameThenSame(old(mem), mem1, mem, old(tables), tables1);
        if g == 0 {
          return false, t, i;
        }
        lvl := lvl - 1;
        t, i := g, path[3 - lvl];
      }
      ok := true;
    }

    /** A page with these flags, where the walk ends at its level. */
    method Map(root: nat, path: seq<nat>, t: nat, i: nat, paddr: nat, flags: Flags, size: nat)
      requires Valid() && Root(root) in tables && PathOK(path) && size <= 2
      requires EndsAt(mem, tables, root, path, t, i) && 3 - Stop(tables, root, path) == size
      modifies this`mem
      ensures Valid() && OnlyPage(old(mem), mem, tables, root, path, size, LeafOf(Entry(paddr, Sized(flags, size)), size))
      ensures OnlyView(old(mem), mem, tables, root, path, size, size == 0 && flags.guard)
      ensures !flags.present ==> Translate(mem, root, path, 3) == None
      ensures flags.present ==> MapsTo(Translate(mem, root, path, 3), size, paddr, flags)
      ensures flags.present ==> Access(mem, root, path, 3, All) == Some(Narrowed(RightsTo(old(mem), tables, root, path, 3 - size), flags))
    {
      SetPage(root, path, t, i, Entry(paddr, Sized(flags, size)));
    }

    /** paging_map_proc. */
    method MapProc(root: nat, path: seq<nat>, paddr: nat, flags: Flags, size: nat) returns (r: Outcome)
      requires Valid() && Root(root) in tables && PathOK(path) && size <= 2
      modifies this
      ensures Valid() && SameRoots(old(tables), tables)
      ensures r == Finer <==> 3 - old(Stop(tables, root, path)) < size
      ensures r == Taken <==> size <= 3 - old(Stop(tables, root, path)) && Translate(old(mem), root, path, 3).Some?
      ensures r == Mapped ==> OnlyPage(old(mem), mem, old(tables), root, path, size, LeafOf(Entry(paddr, Sized(flags, size)), size))
      ensures r == Mapped && !flags.present ==> Translate(mem, root, path, 3) == None
      ensures r == Mapped && flags.present ==> MapsTo(Translate(mem, root, path, 3), size, paddr, flags)
      ensures r == Mapped && flags.present ==> var n := old(Stop(tables, root, path));
        Access(mem, root, path, 3, All) == Some(Narrowed(RightsTo(old(mem), old(tables), root, path, n), flags))
      ensures r != Mapped ==> SameTranslations(old(mem), mem, old(tables)) && SameViews(old(mem), mem, old(tables))
      ensures r == Mapped ==> OnlyView(old(mem), mem, old(tables), root, path, size, size == 0 && flags.guard)
      ensures r == NoMemory ==> |old(pool)| < 3 - old(Stop(tables, root, path)) - size
      ensures r == Mapped ==> |old(pool)| >= 3 - old(Stop(tables, root, path)) - size
    {
      var lvl, t, i := PageWalk(root, path);
      if lvl < size {
        return Finer;
      }
      if mem[t][i].f.present {
        return Taken;
      }
      ghost var mem0, tables0 := mem, tables;
      var ok, t', i' := IncreaseGranularity(root, path, t, i, lvl, size);
      if !ok {
        return NoMemory;
      }
      ghost var mem1, tables1 := mem, tables;
      Map(root, path, t', i', paddr, flags, size);
      SameThenOnly(mem0, mem1, mem, tables0, tables1, root, path, size, size == 0 && flags.guard);
      OnlyPageAfter(mem0, mem1, mem, tables0, tables1, root, path, size, LeafOf(Entry(paddr, Sized(flags, size)), size));
      r := Mapped;
    }

    /** paging_unmap, on the kernel's space: removes exactly one page of the given
        size, or nothing when the walk ends at another level. */
    method Unmap(path: seq<nat>, size: nat)
      requires Valid() && PathOK(path) && size <= 2
      modifies this`mem
      ensures Valid()
      ensures 3 - Stop(tables, kernel, path) == size ==>
        OnlyPage(old(mem), mem, tables, kernel, path, size, None) && OnlyView(old(mem), mem, tables, kernel, path, size, false)
      ensures 3 - Stop(tables, kernel, path) != size ==> mem == old(mem)
    {
      var lvl, t, i := PageWalk(kernel, path);
      if lvl != size {
        return;
      }
      SetLeaf(kernel, path, t, i, Zero);
    }

    /** paging_update_perms: replaces the permission bits of one page and keeps its
        address. The spaces stay in order exactly if the entry stays a page. */
    method UpdatePerms(root: nat, path: seq<nat>, present: bool, rw: bool, us: bool, xd: bool, size: nat) returns (failed: bool)
      requires Valid() && Root(root) in tables && PathOK(path) && size <= 2
      modifies this`mem
      ensures failed <==> 3 - Stop(tables, root, path) != size
      ensures failed ==> mem == old(mem)
      ensures !failed ==> (Valid() <==> StaysPage(EntryAt(old(mem), tables, root, path), present, size))
      ensures !failed && StaysPage(EntryAt(old(mem), tables, root, path), present, size) ==>
        OnlyPage(old(mem), mem, tables, root, path, size, LeafOf(Permitted(EntryAt(old(mem), tables, root, path), present, rw, us, xd), size))
      ensures !failed && StaysPage(EntryAt(old(mem), tables, root, path), present, size) ==>
        OnlyView(old(mem), mem, tables, root, path, size, Guarded(old(mem), root, path, 3))
      ensures !failed && present && StaysPage(EntryAt(old(mem), tables, root, path), present, size) ==>
        var up := RightsTo(old(mem), tables, root, path, 3 - size);
        Access(mem, root, path, 3, All) == Some(Rights(up.write && rw, up.user && us, up.execute && !xd))
      ensures !failed ==> var e, e' := EntryAt(old(mem), tables, root, path), EntryAt(mem, tables, root, path);
        && e'.addr == e.addr && e'.f.present == present && e'.f.rw == rw && e'.f.us == us && e'.f.xd == xd
        && e'.f.ps == e.f.ps && e'.f.guard == e.f.guard && e'.f.rest == e.f.rest
      ensures Translate(old(mem), root, path, 3).Some? ==>
        EntryAt(old(mem), tables, root, path) == Entry(Translate(old(mem), root, path, 3).value.addr, Translate(old(mem), root, path, 3).value.f)
    {
      var lvl, t, i := PageWalk(root, path);
      if lvl != size {
        return true;
      }
      failed := false;
      ghost var e := mem[t][i];
      PermittedStaysPageIff(e, present, rw, us, xd, size);
      GuardedEnds(mem, tables, owner, root, path);
      ghost var mem0 := mem;
      if IsTable(Permitted(mem[t][i], present, rw, us, xd), size) {
        mem := Edited(mem, t, i, Permitted(mem[t][i], present, rw, us, xd));
        WildTable(mem0, tables, owner, root, path, mem);
      } else {
        SetPage(root, path, t, i, Permitted(mem[t][i], present, rw, us, xd));
      }
    }

    /** paging_install_guard: marks an unmapped 4K page of the kernel's space. */
    method InstallGuard(path: seq<nat>) returns (done: bool)
      requires Valid() && PathOK(path)
      modifies this
      ensures Valid() && SameRoots(old(tables), tables) && SameTranslations(old(mem), mem, old(tables))
      ensures if done then OnlyView(old(mem), mem, old(tables), kernel, path, 0, true) else SameViews(old(mem), mem, old(tables))
      ensures done <==> Translate(old(mem), kernel, path, 3).None? && |old(pool)| >= 3 - old(Stop(tables, kernel, path))
    {
      var lvl, t, i := PageWalk(kernel, path);
      if mem[t][i].f.present {
        return false;
      }
      ghost var mem0, tables0 := mem, tables;
      var ok, t', i' := IncreaseGranularity(kernel, path, t, i, lvl, 0);
      if !ok {
        return false;
      }
      ghost var mem1 := mem;
      assert Translate(mem1, kernel, path, 3) == None;
      SetLeaf(kernel, path, t', i', mem[t'][i'].(f := mem[t'][i'].f.(guard := true)));
      AbsentStaysAbsent(mem1, mem, tables, owner, kernel, path);
      SameThenOnly(mem0, mem1, mem, tables0, tables, kernel, path, 0, true);
      done := true;
    }

    /** paging_remove_guard: clears a guarded page, and nothing else. */
    method RemoveGuard(path: seq<nat>) returns (done: bool)
      requires Valid() && PathOK(path)
      modifies this`mem
      ensures Valid() && (done <==> Guarded(old(mem), kernel, path, 3))
      ensures !done ==> mem == old(mem)
      ensures done ==> OnlyPage(old(mem), mem, tables, kernel, path, 0, None) && OnlyView(old(mem), mem, tables, kernel, path, 0, false)
    {
      var lvl, t, i := PageWalk(kernel, path);
      GuardedEnds(mem, tables, owner, kernel, path);
      if lvl != 0 || !mem[t][i].f.guard {
        return false;
      }
      SetLeaf(kernel, path, t, i, Zero);
      done := true;
    }

    /** paging_check_guard. */
    method CheckGuard(path: seq<nat>) returns (guarded: bool)
      requires Valid() && PathOK(path)
      ensures guarded <==> Guarded(mem, kernel, path, 3)
    {
      var lvl, t, i := PageWalk(kernel, path);
      GuardedEnds(mem, tables, owner, kernel, path);
      guarded := lvl == 0 && mem[t][i].f.guard;
    }

    /** paging_create_pml4: a new space with an empty lower half, or 0. */
    method CreatePml4() returns (g: nat)
      requires Valid()
      modifies this
      ensures Valid() && (g == 0 <==> old(pool) == [])
      ensures g == 0 ==> mem == old(mem) && tables == old(tables)
      ensures g != 0 ==> Root(g) !in old(tables) && tables == old(tables)[Root(g) := g]
      ensures g != 0 ==> SameTranslations(old(mem), mem, old(tables)) && SameViews(old(mem), mem, old(tables))
      ensures g != 0 ==> forall p {:trigger Translate(mem, g, p, 3)} :: PathOK(p) ==>
        Translate(mem, g, p, 3) == if p[0] < 256 then None else Translate(mem, kernel, p, 3)
    {
      ghost var mem0, tables0, owner0 := mem, tables, owner;
      g := AllocFrame();
      if g == 0 {
        return;
      }
      assert NodeOK(mem, tables, owner, Root(g)) && NodeOK(mem, tables, owner, Root(kernel));
      NewRootKeepsTree(mem, kernel, tables, owner, g);
      MoreViews(mem, tables, owner, mem[g := NewRoot(mem[kernel])]);
      mem := mem[g := NewRoot(mem[kernel])];
      tables, owner := tables[Root(g) := g], owner[g := Root(g)];
      forall r, p | Root(r) in tables0 && PathOK(p) ensures Translate(mem, r, p, 3) == Translate(mem0, r, p, 3) {
        NewRootKeepsTranslation(mem0, kernel, tables0, owner0, g, r, p);
      }
      forall p | PathOK(p) ensures Translate(mem, g, p, 3) == if p[0] < 256 then None else Translate(mem, kernel, p, 3) {
        NewRootKeepsTranslation(mem0, kernel, tables0, owner0, g, kernel, p);
        if p[0] >= 256 {
          KernelHalfCoherent(mem, kernel, tables, g, p);
        }
      }
    }

    /** paging_ensure_mapped, run before any other space exists: every upper-half entry
        of the kernel's top-level table gets a table. */
    method EnsureMapped() returns (ok: bool)
      requires Trees() && OnlyRoot(tables, kernel)
      modifies this
      ensures Trees() && OnlyRoot(tables, kernel) && SameTranslations(old(mem), mem, old(tables)) && SameViews(old(mem), mem, old(tables))
      ensures NewTops(old(tables), mem, tables)
      ensures ok ==> Valid()
      ensures |old(pool)| >= 256 ==> ok
      ensures ok ==> forall i :: 256 <= i < ENTRIES ==> TopAdded(old(mem), mem, kernel, i)
    {
      ghost var mem0, tables0, frames := mem, tables, |pool|;
      assert NodeOK(mem, tables, owner, Root(kernel));
      var i := 256;
      while i < ENTRIES
        invariant 256 <= i <= ENTRIES && Trees() && OnlyRoot(tables, kernel) && SameTranslations(mem0, mem, tables0)
        invariant SameRoots(tables0, tables) && TopPresent(mem, kernel, i) && SameViews(mem0, mem, tables0)
        invariant NewTops(tables0, mem, tables) && frames <= |pool| + (i - 256)
        invariant kernel in mem0 && |mem0[kernel]| == ENTRIES && forall j :: 256 <= j < i ==> TopAdded(mem0, mem, kernel, j)
        invariant forall j :: i <= j < ENTRIES ==> mem[kernel][j] == mem0[kernel][j]
      {
        if !mem[kernel][i].f.present {
          var g := AllocFrame();
          if g == 0 {
            return false;
          }
          ghost var mem1, tables1, owner1 := mem, tables, owner;
          LinkTop(i, g);
          SameThenSame(mem0, mem1, mem, tables0, tables1);
          NewTopsKept(tables0, mem1, tables1, owner1, kernel, i, g, mem, tables);
          assert forall j :: 256 <= j < i ==> TopAdded(mem0, mem1, kernel, j) && mem[kernel][j] == mem1[kernel][j];
        }
        i := i + 1;
      }
      ok := true;
      forall r, j | Root(r) in tables && 256 <= j < ENTRIES ensures SameTop(mem, kernel, r, j) {
      }
    }

    method LinkTop(i: nat, g: nat)
      requires Trees() && OnlyRoot(tables, kernel) && 256 <= i < ENTRIES && TopPresent(mem, kernel, i) && !mem[kernel][i].f.present
      requires g != 0 && g !in mem && g !in owner && forall k :: 0 <= k < |pool| ==> pool[k] != g
      modifies this`mem, this`tables, this`owner
      ensures Trees() && OnlyRoot(tables, kernel) && SameTranslations(old(mem), mem, old(tables))
      ensures SameViews(old(mem), mem, old(tables))
      ensures SameRoots(old(tables), tables) && TopPresent(mem, kernel, i + 1)
      ensures tables == old(tables)[Upper([i]) := g] && g in mem && mem[g] == Empty()
      ensures forall t :: t in old(mem) && t != kernel ==> t in mem && mem[t] == old(mem)[t]
      ensures TopAdded(old(mem), mem, kernel, i) && forall j :: 0 <= j < ENTRIES && j != i ==> mem[kernel][j] == old(mem)[kernel][j]
    {
      ghost var mem0, tables0, owner0 := mem, tables, owner;
      var f := Flags(true, true, false, false, false, false, 0);
      assert NodeOK(mem, tables, owner, Root(kernel));
      assert CanLink(mem, tables, owner, Root(kernel), i, g, f);
      LinkKeepsTree(mem, tables, owner, Root(kernel), i, g, f);
      LinkViews(mem, tables, owner, Root(kernel), i, g, f);
      mem := Linked(mem, kernel, i, g, f);
      tables, owner := tables[Upper([i]) := g], owner[g := Upper([i])];
      forall r, p | Root(r) in tables0 && PathOK(p) ensures Translate(mem, r, p, 3) == Translate(mem0, r, p, 3) {
        LinkKeepsTranslation(mem0, tables0, owner0, Root(kernel), i, g, f, r, p);
      }
    }

    /** paging_duplicate_lower: the child is a space like the others, with a copy of the
        parent's lower half; every other space translates as before. */
    method DuplicateLower(cr3: nat, data: T.Data) returns (g: nat, data': T.Data)
      requires Valid() && Root(cr3) in tables && T.HasTree(mem, cr3, 3) && (forall i :: 0 <= i < |pool| ==> pool[i] !in data)
      requires F.AllSmall(T.View(mem, cr3, 3)[..256], 3, data) && |pool| > |T.AllFrames(T.View(mem, cr3, 3)[..256], 3)|
      modifies this
      ensures Valid() && Root(g) !in old(tables) && (forall r {:trigger Root(r) in tables} :: Root(r) in tables <==> Root(r) in old(tables) || r == g)
      ensures SameTranslations(old(mem), mem, old(tables)) && SameViews(old(mem), mem, old(tables)) && T.Extends(data, data')
      ensures forall p {:trigger Translate(mem, g, p, 3)} :: PathOK(p) ==>
        if p[0] < 256 then T.TwinMappings(Translate(old(mem), cr3, p, 3), Translate(mem, g, p, 3), data')
        else Translate(mem, g, p, 3) == Translate(mem, kernel, p, 3)
      ensures forall p {:trigger Access(mem, g, p, 3, All)} :: PathOK(p) && p[0] < 256 ==>
        Access(mem, g, p, 3, All) == Access(old(mem), cr3, p, 3, All)
      ensures forall p {:trigger Guarded(mem, g, p, 3)} :: PathOK(p) && p[0] < 256 ==> !Guarded(mem, g, p, 3)
    {
      ghost var mem0, tables0, owner0 := mem, tables, owner;
      assert NodeOK(mem, tables, owner, Root(kernel));
      F.SpacesAreTrees(mem, tables, owner, Root(kernel));
      ghost var n := |T.AllFrames(T.View(mem, cr3, 3)[..256], 3)|;
      var m := new F.Memory(mem, data, pool);
      g := m.DuplicateLower(cr3, kernel);
      C.DuplicationForks(mem, kernel, owner, data, pool, n, m.mem, g);
      data' := m.data;
      Adopt(m.mem, m.pool, g, n);
      forall p | PathOK(p)
        ensures if p[0] < 256 then T.TwinMappings(Translate(mem0, cr3, p, 3), Translate(mem, g, p, 3), data')
                else Translate(mem, g, p, 3) == Translate(mem, kernel, p, 3)
      {
        if p[0] < 256 {
          F.ForkTranslatesAlike(mem0, cr3, mem, g, data', p);
        } else {
          KernelHalfCoherent(mem, kernel, tables, g, p);
        }
      }
      forall p | PathOK(p) && p[0] < 256 ensures Access(mem, g, p, 3, All) == Access(mem0, cr3, p, 3, All) {
        ForkGrantsAlike(mem0, cr3, mem, g, data', p);
      }
      forall p | PathOK(p) && p[0] < 256 ensures !Guarded(mem, g, p, 3) {
        ForkUnguarded(mem0, cr3, mem, g, data', p);
      }
    }

    /** The memory after a duplication becomes that of all spaces. */
    method Adopt(mem': Mem, pool': seq<nat>, g: nat, ghost n: nat)
      requires Valid() && C.Forked(mem, kernel, owner, mem', g) && n < |pool| && pool' == pool[n + 1..] && g == pool[0]
      requires [T.Chunk(g, 0)] + T.AllFrames(T.View(mem', g, 3)[..256], 3) == F.Chunks(pool[..n + 1])
      requires forall i :: 0 <= i < |pool'| ==> pool'[i] !in mem'
      modifies this
      ensures Valid() && mem == mem' && pool == pool' && Root(g) !in old(tables) && Root(g) in tables
      ensures forall r {:trigger Root(r) in tables} :: Root(r) in tables <==> Root(r) in old(tables) || r == g
      ensures SameTranslations(old(mem), mem, old(tables)) && SameViews(old(mem), mem, old(tables))
    {
      MoreViews(mem, tables, owner, mem');
      ghost var tables', owner' := Adopted(mem, kernel, tables, owner, pool, mem', g, n);
      mem, pool, tables, owner := mem', pool', tables', owner';
    }
  }

  /** One step of the walk: the entry points to a table exactly if the walk goes on. */
  lemma {:induction false} WalkStep(mem: Mem, tables: Tables, owner: Owners, root: nat, path: seq<nat>, n: nat)
    requires TreeOK(mem, tables, owner) && Root(root) in tables && PathOK(path) && n <= Stop(tables, root, path)
    requires n > 0 ==> PosAt(root, path, n) in tables
    ensures PosAt(root, path, n) in tables && tables[PosAt(root, path, n)] in mem
    ensures n == 0 ==> tables[PosAt(root, path, n)] == root
    ensures |mem[tables[PosAt(root, path, n)]]| == ENTRIES
    ensures var e := mem[tables[PosAt(root, path, n)]][path[n]];
      && (IsTable(e, 3 - n) <==> n < Stop(tables, root, path))
      && (n < Stop(tables, root, path) ==> PosAt(root, path, n + 1) in tables && tables[PosAt(root, path, n + 1)] == e.addr)
  {
    var pos := PosAt(root, path, n);
    assert NodeOK(mem, tables, owner, Root(root));
    assert NodeOK(mem, tables, owner, pos) && EdgeOK(mem, tables, pos, path[n]);
    LevelOfPos(root, path, n);
    if n < 3 {
      PosStep(root, path, n);
    }
  }

  /** The walk of `path` ends in entry i of table t. */
  ghost predicate EndsAt(mem: Mem, tables: Tables, root: nat, path: seq<nat>, t: nat, i: nat)
    requires |path| == 4
  {
    var n := Stop(tables, root, path);
    && PosAt(root, path, n) in tables && t == tables[PosAt(root, path, n)] && i == path[n]
    && t in mem && i < |mem[t]| && !IsTable(mem[t][i], 3 - n)
  }

  /** Upper-half walks always get past the top level. */
  lemma {:induction false} UpperGoesOn(mem: Mem, kernel: nat, tables: Tables, owner: Owners, root: nat, path: seq<nat>)
    requires TreeOK(mem, tables, owner) && KernelHalf(mem, kernel, tables) && Root(root) in tables && PathOK(path)
    ensures Stop(tables, root, path) == 0 ==> path[0] < 256
  {
    if path[0] >= 256 {
      assert SameTop(mem, kernel, root, path[0]);
      WalkStep(mem, tables, owner, root, path, 0);
    }
  }

  /** Rewriting an entry that is not present with another one changes nothing. */
  lemma {:induction false} AbsentStaysAbsent(mem: Mem, mem': Mem, tables: Tables, owner: Owners, root: nat, path: seq<nat>)
    requires TreeOK(mem, tables, owner) && Root(root) in tables && PathOK(path)
    requires OnlyPage(mem, mem', tables, root, path, 3 - Stop(tables, root, path), None) && Translate(mem, root, path, 3) == None
    requires Stop(tables, root, path) == 0 ==> path[0] < 256
    ensures SameTranslations(mem, mem', tables)
  {
    forall r, p | Root(r) in tables && PathOK(p) ensures Translate(mem', r, p, 3) == Translate(mem, r, p, 3) {
      if SamePage(root, path, r, p, Stop(tables, root, path)) {
        SamePageSameTranslation(mem, tables, owner, root, path, r, p);
      }
    }
  }

  lemma {:induction false} SamePageSameTranslation(mem: Mem, tables: Tables, owner: Owners, root: nat, path: seq<nat>, r: nat, p: seq<nat>)
    requires TreeOK(mem, tables, owner) && Root(root) in tables && Root(r) in tables && PathOK(path) && PathOK(p)
    requires SamePage(root, path, r, p, Stop(tables, root, path)) && (Stop(tables, root, path) == 0 ==> path[0] < 256)
    ensures Translate(mem, r, p, 3) == Translate(mem, root, path, 3)
  {
    SameStop(tables, root, path, r, p);
    SamePageIsSameEntry(root, path, r, p, Stop(tables, root, path));
    WalkEnds(mem, tables, owner, root, path);
    WalkEnds(mem, tables, owner, r, p);
  }

  lemma {:induction false} OnlyPageAfter(mem: Mem, mem1: Mem, mem2: Mem, tables: Tables, tables1: Tables, root: nat, path: seq<nat>, lvl: nat, y: Option<Mapping>)
    requires lvl <= 3 && PathOK(path) && Root(root) in tables
    requires SameTranslations(mem, mem1, tables) && OnlyPage(mem1, mem2, tables1, root, path, lvl, y) && SameRoots(tables, tables1)
    ensures OnlyPage(mem, mem2, tables, root, path, lvl, y)
  {
  }

  /** A page of this level at this address, with these bits; above 4K the page-size bit is
      set as well. */
  predicate MapsTo(y: Option<Mapping>, size: nat, paddr: nat, f: Flags) {
    && y.Some? && y.value.lvl == size && y.value.addr == paddr
    && y.value.f.present == f.present && y.value.f.rw == f.rw && y.value.f.us == f.us && y.value.f.xd == f.xd
    && y.value.f.guard == f.guard && y.value.f.rest == f.rest && (y.value.f.ps <==> f.ps || size != 0)
  }

  /** Pages above 4K carry the page-size bit. */
  function Sized(f: Flags, size: nat): Flags {
    f.(ps := f.ps || size != 0)
  }

  /** The entry where the walk of an address ends. */
  ghost function EntryAt(mem: Mem, tables: Tables, root: nat, path: seq<nat>): Entry
    requires |path| == 4
  {
    EntryOn(mem, tables, root, path, Stop(tables, root, path))
  }

  function Permitted(e: Entry, present: bool, rw: bool, us: bool, xd: bool): Entry {
    e.(f := e.f.(present := present, rw := rw, us := us, xd := xd))
  }

  /** New permissions keep a page a page exactly unless they make a 2M or 1G entry
      present that has no page-size bit: that entry becomes a table pointer. */
  lemma {:induction false} PermittedStaysPageIff(e: Entry, present: bool, rw: bool, us: bool, xd: bool, size: nat)
    requires size <= 2
    ensures !IsTable(Permitted(e, present, rw, us, xd), size) <==> StaysPage(e, present, size)
  {
  }

  /** A caller's view of that condition. */
  predicate StaysPage(e: Entry, present: bool, size: nat) {
    size == 0 || !present || e.f.ps
  }

  /** A table pointer to nowhere breaks the order of the spaces. */
  lemma {:induction false} WildTable(mem: Mem, tables: Tables, owner: Owners, root: nat, path: seq<nat>, mem': Mem)
    requires TreeOK(mem, tables, owner) && Root(root) in tables && PathOK(path)
    requires var n := Stop(tables, root, path);
      && 0 < n < 3 && PosAt(root, path, n) in tables && tables[PosAt(root, path, n)] in mem'
      && path[n] < |mem'[tables[PosAt(root, path, n)]]| && IsTable(mem'[tables[PosAt(root, path, n)]][path[n]], 3 - n)
    ensures !TreeOK(mem', tables, owner)
  {
    var n := Stop(tables, root, path);
    var pos := PosAt(root, path, n);
    PosStep(root, path, n);
    LevelOfPos(root, path, n);
    if TreeOK(mem', tables, owner) {
      EdgeOf(mem', tables, owner, pos, path[n]);
    }
  }

  lemma {:induction false} EdgeOf(mem: Mem, tables: Tables, owner: Owners, pos: Pos, i: nat)
    requires TreeOK(mem, tables, owner) && pos in tables && i < ENTRIES
    ensures tables[pos] in mem && |mem[tables[pos]]| == ENTRIES && EdgeOK(mem, tables, pos, i)
  {
    assert NodeOK(mem, tables, owner, pos);
  }

  ghost predicate OnlyRoot(tables: Tables, kernel: nat) {
    forall r {:trigger Root(r) in tables} :: Root(r) in tables <==> r == kernel
  }

  ghost predicate TopPresent(mem: Mem, kernel: nat, n: nat) {
    kernel in mem && |mem[kernel]| == ENTRIES && forall j :: 256 <= j < n && j < ENTRIES ==> mem[kernel][j].f.present
  }

  /** Entry i of the top level was there before, or lets the kernel do everything and users
      nothing. */
  ghost predicate TopAdded(mem: Mem, mem': Mem, kernel: nat, i: nat) {
    && kernel in mem && kernel in mem' && i < |mem[kernel]| && i < |mem'[kernel]|
    && if mem[kernel][i].f.present then mem'[kernel][i] == mem[kernel][i]
       else var f := mem'[kernel][i].f; f.present && f.rw && !f.us && !f.xd && !f.ps && !f.guard
  }

  /** The tables added stand right below the top level and are empty. */
  ghost predicate NewTops(tables: Tables, mem': Mem, tables': Tables) {
    forall pos :: pos in tables' ==>
      pos in tables || (pos.Upper? && |pos.path| == 1 && tables'[pos] in mem' && mem'[tables'[pos]] == Empty())
  }

  lemma {:induction false} NewTopsKept(tables0: Tables, mem: Mem, tables: Tables, owner: Owners, kernel: nat, i: nat, g: nat, mem': Mem, tables': Tables)
    requires TreeOK(mem, tables, owner) && Root(kernel) in tables && NewTops(tables0, mem, tables)
    requires tables' == tables[Upper([i]) := g] && g in mem' && mem'[g] == Empty()
    requires forall t :: t in mem && t != kernel ==> t in mem' && mem'[t] == mem[t]
    ensures NewTops(tables0, mem', tables')
  {
    assert NodeOK(mem, tables, owner, Root(kernel));
    forall pos | pos in tables' && pos !in tables0
      ensures pos.Upper? && |pos.path| == 1 && tables'[pos] in mem' && mem'[tables'[pos]] == Empty()
    {
      if pos != Upper([i]) {
        assert NodeOK(mem, tables, owner, pos);
      }
    }
  }

  /** An address of the upper half right after paging_ensure_mapped: the walk ends in an
      empty 1G entry. */
  lemma {:induction false} NothingYet(mem: Mem, tables: Tables, owner: Owners, kernel: nat, path: seq<nat>)
    requires TreeOK(mem, tables, owner) && KernelHalf(mem, kernel, tables) && NewTops(map[Root(kernel) := kernel], mem, tables)
    requires PathOK(path) && path[0] >= 256
    ensures Stop(tables, kernel, path) == 1 && EntryAt(mem, tables, kernel, path) == Zero
  {
    assert NodeOK(mem, tables, owner, Root(kernel)) && EdgeOK(mem, tables, Root(kernel), path[0]);
    assert SameTop(mem, kernel, kernel, path[0]);
    PosStep(kernel, path, 0);
    assert PosAt(kernel, path, 1) in tables && |path[..2]| == 2;
  }

  /** paging_update_perms on an upper-half address where nothing is mapped, right after
      start-up: asked to make a 1G page present, it succeeds and leaves a table pointer to
      nowhere. */
  method PermsWithoutPage(kernel: nat, pool: seq<nat>, path: seq<nat>) returns (p: Paging, failed: bool)
    requires PoolOK(pool, map[kernel := Empty()], map[kernel := Root(kernel)]) && |pool| >= 256
    requires PathOK(path) && path[0] >= 256
    ensures !failed && !p.Valid()
  {
    p := new Paging(kernel, pool);
    var ok := p.EnsureMapped();
    NothingYet(p.mem, p.tables, p.owner, p.kernel, path);
    failed := p.UpdatePerms(kernel, path, true, true, false, false, 2);
  }

  /** Upper-half addresses translate alike in every space, in every state that the
      operations can reach: they all keep Valid. */
  lemma {:induction false} SpacesAgree(p: Paging, r: nat, s: nat, path: seq<nat>)
    requires p.Valid() && Root(r) in p.tables && Root(s) in p.tables && PathOK(path) && path[0] >= 256
    ensures Translate(p.mem, r, path, 3) == Translate(p.mem, s, path, 3)
    ensures Access(p.mem, r, path, 3, All) == Access(p.mem, s, path, 3, All)
    ensures Guarded(p.mem, r, path, 3) == Guarded(p.mem, s, path, 3)
  {
    SharedGuards(p.mem, p.kernel, p.tables, r, path);
    SharedGuards(p.mem, p.kernel, p.tables, s, path);
    KernelHalfCoherent(p.mem, p.kernel, p.tables, r, path);
    KernelHalfCoherent(p.mem, p.kernel, p.tables, s, path);
  }

  /** The frames left in the pool are none of the child's. */
  lemma {:induction false} NotInPoolRest(pool: seq<nat>, n: nat, g: nat, low: seq<T.Slot>, x: T.Chunk, i: nat)
    requires n < i < |pool| && x in T.AllFrames(low, 3) && forall i, j :: 0 <= i < j < |pool| ==> pool[i] != pool[j]
    requires [T.Chunk(g, 0)] + T.AllFrames(low, 3) == F.Chunks(pool[..n + 1])
    ensures x.addr != pool[i]
  {
    var all := F.Chunks(pool[..n + 1]);
    assert x in all;
    var j :| 0 <= j < |all| && all[j] == x;
    assert x.addr == pool[j];
  }

  lemma {:induction false} NewOwners(pool: seq<nat>, n: nat, g: nat, owner: Owners, low: seq<T.Slot>)
    requires n < |pool| && g == pool[0] && (forall i :: 0 <= i < |pool| ==> pool[i] !in owner)
    requires forall i, j :: 0 <= i < j < |pool| ==> pool[i] != pool[j]
    requires [T.Chunk(g, 0)] + T.AllFrames(low, 3) == F.Chunks(pool[..n + 1])
    ensures forall i :: n < i < |pool| ==> pool[i] !in C.JoinedOwners(owner, g, low)
  {
    forall i, x | n < i < |pool| && x in T.AllFrames(low, 3) ensures x.addr != pool[i] {
      NotInPoolRest(pool, n, g, low, x, i);
    }
  }

  /** The positions after a duplication. */
  lemma {:induction false} Adopted(mem: Mem, kernel: nat, tables: Tables, owner: Owners, pool: seq<nat>, mem': Mem, g: nat, n: nat)
    returns (tables': Tables, owner': Owners)
    requires TreeOK(mem, tables, owner) && KernelHalf(mem, kernel, tables) && PoolOK(pool, mem, owner)
    requires C.Forked(mem, kernel, owner, mem', g) && n < |pool| && g == pool[0]
    requires [T.Chunk(g, 0)] + T.AllFrames(T.View(mem', g, 3)[..256], 3) == F.Chunks(pool[..n + 1])
    ensures TreeOK(mem', tables', owner') && KernelHalf(mem', kernel, tables') && Root(g) !in tables && Root(g) in tables'
    ensures forall r {:trigger Root(r) in tables'} :: Root(r) in tables' <==> Root(r) in tables || r == g
    ensures (forall i :: n < i < |pool| ==> pool[i] !in owner') && SameTranslations(mem, mem', tables)
  {
    var low := T.View(mem', g, 3)[..256];
    tables', owner' := C.Joined(tables, g, low), C.JoinedOwners(owner, g, low);
    C.ForkKeepsSpaces(mem, kernel, tables, owner, mem', g);
    C.NothingOfFresh(mem, tables, owner, g, []);
    NewOwners(pool, n, g, owner, low);
    forall r ensures Root(r) in tables' <==> Root(r) in tables || r == g {
      C.ForkRoots(tables, g, low, r);
    }
    forall r, p | Root(r) in tables && PathOK(p) ensures Translate(mem', r, p, 3) == Translate(mem, r, p, 3) {
      C.ForkKeepsOld(mem, tables, owner, mem', r, p);
    }
  }
}
