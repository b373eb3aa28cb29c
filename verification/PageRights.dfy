/**
  What the processor lets an address do (section 4.6 of the Intel SDM, volume 3A):
  writing and user access need the bit in every entry of the walk, and one entry with
  the execute-disable bit is enough to forbid execution.
 */
module PageRights {
  import opened Wrappers
  import opened PageTables
  import opened PageSpaces
  import T = PageTrees

  datatype Rights = Rights(write: bool, user: bool, execute: bool)

  const All: Rights := Rights(true, true, true)

  function Narrowed(r: Rights, f: Flags): Rights {
    Rights(r.write && f.rw, r.user && f.us, r.execute && !f.xd)
  }

  /** The rights at the end of the walk from table t, given those so far. */
  function Access(mem: Mem, t: nat, path: seq<nat>, lvl: nat, r: Rights): Option<Rights>
    requires |path| == lvl + 1
    decreases lvl
  {
    if t !in mem || path[0] >= |mem[t]| then None
    else
      var e := mem[t][path[0]];
      if IsTable(e, lvl) then (if lvl == 0 then None else Access(mem, e.addr, path[1..], lvl - 1, Narrowed(r, e.f)))
      else if e.f.present then Some(Narrowed(r, e.f))
      else None
  }

  /** The entry for a path in its table at depth n. */
  ghost function EntryOn(mem: Mem, tables: Tables, root: nat, path: seq<nat>, n: nat): Entry
    requires |path| == 4 && n <= 3
  {
    var pos := PosAt(root, path, n);
    if pos in tables && tables[pos] in mem && path[n] < |mem[tables[pos]]| then mem[tables[pos]][path[n]] else Zero
  }

  /** What the first n tables on a path leave of all rights. */
  ghost function RightsTo(mem: Mem, tables: Tables, root: nat, path: seq<nat>, n: nat): Rights
    requires |path| == 4 && n <= 3
  {
    if n == 0 then All else Narrowed(RightsTo(mem, tables, root, path, n - 1), EntryOn(mem, tables, root, path, n - 1).f)
  }

  lemma {:induction false} AccessFrom(mem: Mem, tables: Tables, owner: Owners, root: nat, path: seq<nat>, n: nat)
    requires TreeOK(mem, tables, owner) && Root(root) in tables && PathOK(path)
    requires n <= Stop(tables, root, path) && PosAt(root, path, n) in tables
    ensures var k := Stop(tables, root, path); var e := EntryOn(mem, tables, root, path, k);
      Access(mem, tables[PosAt(root, path, n)], path[n..], 3 - n, RightsTo(mem, tables, root, path, n))
      == if e.f.present then Some(Narrowed(RightsTo(mem, tables, root, path, k), e.f)) else None
    decreases 3 - n
  {
    var pos := PosAt(root, path, n);
    assert NodeOK(mem, tables, owner, pos) && EdgeOK(mem, tables, pos, path[n]);
    if n < 3 {
      PosStep(root, path, n);
      assert path[n..][1..] == path[n + 1..];
      if n < Stop(tables, root, path) {
        AccessFrom(mem, tables, owner, root, path, n + 1);
      }
    }
  }

  /** The rights of an address are those of its tables and of the entry where its walk
      ends. */
  lemma {:induction false} AccessEnds(mem: Mem, tables: Tables, owner: Owners, root: nat, path: seq<nat>)
    requires TreeOK(mem, tables, owner) && Root(root) in tables && PathOK(path)
    ensures var k := Stop(tables, root, path); var e := EntryOn(mem, tables, root, path, k);
      Access(mem, root, path, 3, All) == if e.f.present then Some(Narrowed(RightsTo(mem, tables, root, path, k), e.f)) else None
  {
    assert NodeOK(mem, tables, owner, Root(root));
    assert path[0..] == path;
    AccessFrom(mem, tables, owner, root, path, 0);
  }

  /** Writing the entry at the end of a walk does not touch the entries above it. */
  lemma {:induction false} AboveIsKept(mem: Mem, tables: Tables, owner: Owners, root: nat, path: seq<nat>, mem': Mem, tables': Tables, n: nat, k: nat)
    requires TreeOK(mem, tables, owner) && Root(root) in tables && PathOK(path) && k <= n == Stop(tables, root, path)
    requires PosAt(root, path, n) in tables && forall pos :: pos in tables ==> pos in tables' && tables'[pos] == tables[pos]
    requires forall t :: t in mem && t != tables[PosAt(root, path, n)] ==> t in mem' && mem'[t] == mem[t]
    ensures RightsTo(mem', tables', root, path, k) == RightsTo(mem, tables, root, path, k)
  {
    if k > 0 {
      AboveIsKept(mem, tables, owner, root, path, mem', tables', n, k - 1);
      assert NodeOK(mem, tables, owner, PosAt(root, path, k - 1)) && NodeOK(mem, tables, owner, PosAt(root, path, n));
      assert NodeOK(mem, tables, owner, Root(root));
      if 0 < k - 1 {
        assert PosAt(root, path, k - 1) in tables;
      }
      assert |path[..n]| == n && |path[..k - 1]| == k - 1;
    }
  }

  // Copies of trees grant the same.

  function Grants(slots: seq<T.Slot>, path: seq<nat>, lvl: nat, r: Rights): Option<Rights>
    requires |path| == lvl + 1
    decreases lvl
  {
    if path[0] >= |slots| then None
    else match slots[path[0]]
      case Absent(e) => None
      case Page(frame, f) => Some(Narrowed(r, f))
      case Table(frame, f, kids) => if lvl == 0 then None else Grants(kids, path[1..], lvl - 1, Narrowed(r, f))
  }

  lemma {:induction false} AccessIsGrants(mem: Mem, t: nat, path: seq<nat>, lvl: nat, r: Rights)
    requires |path| == lvl + 1 && T.HasTree(mem, t, lvl)
    ensures Access(mem, t, path, lvl, r) == Grants(T.View(mem, t, lvl), path, lvl, r)
    decreases lvl
  {
    if path[0] < ENTRIES {
      var e := mem[t][path[0]];
      assert T.SlotTree(mem, e, lvl) && T.View(mem, t, lvl)[path[0]] == T.SlotOf(mem, e, lvl);
      if IsTable(e, lvl) {
        AccessIsGrants(mem, e.addr, path[1..], lvl - 1, Narrowed(r, e.f));
      }
    }
  }

  lemma {:induction false} CopiesGrantAlike(ps: seq<T.Slot>, qs: seq<T.Slot>, data: T.Data, path: seq<nat>, lvl: nat, r: Rights)
    requires |path| == lvl + 1 && T.AllCopied(ps, qs, data)
    ensures Grants(qs, path, lvl, r) == Grants(ps, path, lvl, r)
    decreases lvl
  {
    if path[0] < |ps| {
      var p, q := ps[path[0]], qs[path[0]];
      assert T.CopyOf(p, q, data);
      if p.Table? && lvl > 0 {
        assert T.AllCopied(p.kids, q.kids, data);
        CopiesGrantAlike(p.kids, q.kids, data, path[1..], lvl - 1, Narrowed(r, p.f));
      }
    }
  }

  /** Parent and child of a duplication have the same rights at every lower-half address. */
  lemma {:induction false} ForkGrantsAlike(mem: Mem, cr3: nat, mem': Mem, g: nat, data: T.Data, path: seq<nat>)
    requires T.HasTree(mem, cr3, 3) && T.HasTree(mem', g, 3) && |path| == 4 && path[0] < 256
    requires T.AllCopied(T.View(mem, cr3, 3)[..256], T.View(mem', g, 3)[..256], data)
    ensures Access(mem', g, path, 3, All) == Access(mem, cr3, path, 3, All)
  {
    var ps, qs := T.View(mem, cr3, 3), T.View(mem', g, 3);
    AccessIsGrants(mem, cr3, path, 3, All);
    AccessIsGrants(mem', g, path, 3, All);
    CopiesGrantAlike(ps[..256], qs[..256], data, path, 3, All);
    assert ps[..256][path[0]] == ps[path[0]] && qs[..256][path[0]] == qs[path[0]];
  }
}
