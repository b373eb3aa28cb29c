/**
  Address spaces that share the kernel half. Every table has one position: the root
  of a space, a path of indices below the lower half of one space, or a path below
  the upper half, which all spaces share.
 */
module PageSpaces {
  import opened Wrappers
  import opened PageTables

  datatype Pos = Root(r: nat) | Lower(r: nat, path: seq<nat>) | Upper(path: seq<nat>)

  function Child(pos: Pos, i: nat): Pos {
    match pos
    case Root(r) => if i < 256 then Lower(r, [i]) else Upper([i])
    case Lower(r, p) => Lower(r, p + [i])
    case Upper(p) => Upper(p + [i])
  }

  function Level(pos: Pos): int {
    match pos
    case Root(r) => 3
    case Lower(r, p) => 3 - |p|
    case Upper(p) => 3 - |p|
  }

  type Tables = map<Pos, nat>
  type Owners = map<nat, Pos>

  /** Entry i of the table at pos points to a table exactly if there is one at the
      child's position. */
  ghost predicate EdgeOK(mem: Mem, tables: Tables, pos: Pos, i: nat)
    requires pos in tables && tables[pos] in mem && |mem[tables[pos]]| == ENTRIES
  {
    i < ENTRIES && Level(pos) > 0 ==>
      var e := mem[tables[pos]][i];
      && (IsTable(e, Level(pos)) <==> Child(pos, i) in tables)
      && (IsTable(e, Level(pos)) ==> tables[Child(pos, i)] == e.addr)
  }

  /** Tables hang below other tables. */
  ghost predicate ParentOK(tables: Tables, pos: Pos) {
    match pos
    case Root(r) => true
    case Lower(r, p) => if |p| >= 2 then Lower(r, p[..|p| - 1]) in tables else Root(r) in tables
    case Upper(p) => |p| >= 2 ==> Upper(p[..|p| - 1]) in tables
  }

  /** Indices are below 512, and the first one tells the halves apart. */
  ghost predicate IndicesOK(pos: Pos) {
    match pos
    case Root(r) => true
    case Lower(r, p) => p != [] && p[0] < 256 && forall i :: 0 <= i < |p| ==> p[i] < ENTRIES
    case Upper(p) => p != [] && p[0] >= 256 && forall i :: 0 <= i < |p| ==> p[i] < ENTRIES
  }

  ghost predicate NodeOK(mem: Mem, tables: Tables, owner: Owners, pos: Pos) {
    pos in tables ==>
      && 0 <= Level(pos) <= 3 && (pos.Root? ==> tables[pos] == pos.r) && (!pos.Root? ==> Level(pos) < 3) && IndicesOK(pos)
      && tables[pos] in mem && |mem[tables[pos]]| == ENTRIES
      && tables[pos] in owner && owner[tables[pos]] == pos && ParentOK(tables, pos)
      && (forall i {:trigger EdgeOK(mem, tables, pos, i)} :: EdgeOK(mem, tables, pos, i))
  }

  ghost predicate TreeOK(mem: Mem, tables: Tables, owner: Owners) {
    forall pos {:trigger NodeOK(mem, tables, owner, pos)} :: NodeOK(mem, tables, owner, pos)
  }

  /** Every space's upper half has the kernel's entries, and all of them are there. */
  ghost predicate KernelHalf(mem: Mem, kernel: nat, tables: Tables) {
    && Root(kernel) in tables
    && (forall r, i {:trigger SameTop(mem, kernel, r, i)} :: Root(r) in tables && 256 <= i < ENTRIES ==> SameTop(mem, kernel, r, i))
  }

  ghost predicate SameTop(mem: Mem, kernel: nat, r: nat, i: nat) {
    && kernel in mem && r in mem && i < |mem[kernel]| && i < |mem[r]|
    && mem[r][i] == mem[kernel][i] && mem[kernel][i].f.present
  }

  // Where a virtual address leads.

  ghost predicate PathOK(path: seq<nat>) {
    |path| == 4 && forall i :: 0 <= i < 4 ==> path[i] < ENTRIES
  }

  /** The position reached with the first n indices. */
  function PosAt(root: nat, path: seq<nat>, n: nat): Pos
    requires n <= 3 && |path| == 4
  {
    if n == 0 then Root(root) else if path[0] < 256 then Lower(root, path[..n]) else Upper(path[..n])
  }

  lemma {:induction false} PosStep(root: nat, path: seq<nat>, n: nat)
    requires n < 3 && |path| == 4
    ensures Child(PosAt(root, path, n), path[n]) == PosAt(root, path, n + 1) && Level(PosAt(root, path, n)) == 3 - n
  {
    assert path[..n + 1] == path[..n] + [path[n]];
  }

  /** How many indices lead to tables. */
  ghost function Stop(tables: Tables, root: nat, path: seq<nat>): nat
    requires |path| == 4
  {
    if PosAt(root, path, 1) !in tables then 0
    else if PosAt(root, path, 2) !in tables then 1
    else if PosAt(root, path, 3) !in tables then 2
    else 3
  }

  function LeafOf(e: Entry, lvl: nat): Option<Mapping> {
    if e.f.present then Some(Mapping(lvl, e.addr, e.f)) else None
  }

  lemma {:induction false} WalkFrom(mem: Mem, tables: Tables, owner: Owners, root: nat, path: seq<nat>, n: nat)
    requires TreeOK(mem, tables, owner) && Root(root) in tables && PathOK(path)
    requires n <= Stop(tables, root, path) && PosAt(root, path, n) in tables
    ensures var k := Stop(tables, root, path);
      && PosAt(root, path, k) in tables && tables[PosAt(root, path, k)] in mem && |mem[tables[PosAt(root, path, k)]]| == ENTRIES
      && Translate(mem, tables[PosAt(root, path, n)], path[n..], 3 - n) == LeafOf(mem[tables[PosAt(root, path, k)]][path[k]], 3 - k)
    decreases 3 - n
  {
    var pos := PosAt(root, path, n);
    assert NodeOK(mem, tables, owner, pos);
    assert EdgeOK(mem, tables, pos, path[n]);
    if n < 3 {
      PosStep(root, path, n);
      assert path[n..][1..] == path[n + 1..];
      if n < Stop(tables, root, path) {
        WalkFrom(mem, tables, owner, root, path, n + 1);
      }
    }
  }

  /** The hardware walk ends in the entry that the positions lead to. */
  lemma {:induction false} WalkEnds(mem: Mem, tables: Tables, owner: Owners, root: nat, path: seq<nat>)
    requires TreeOK(mem, tables, owner) && Root(root) in tables && PathOK(path)
    ensures var k := Stop(tables, root, path);
      && PosAt(root, path, k) in tables && tables[PosAt(root, path, k)] in mem && |mem[tables[PosAt(root, path, k)]]| == ENTRIES
      && Translate(mem, root, path, 3) == LeafOf(mem[tables[PosAt(root, path, k)]][path[k]], 3 - k)
  {
    assert NodeOK(mem, tables, owner, Root(root));
    assert path[0..] == path;
    WalkFrom(mem, tables, owner, root, path, 0);
  }

  /** Upper-half addresses translate alike in every space. */
  lemma {:induction false} KernelHalfCoherent(mem: Mem, kernel: nat, tables: Tables, root: nat, path: seq<nat>)
    requires KernelHalf(mem, kernel, tables) && Root(root) in tables && PathOK(path) && path[0] >= 256
    ensures Translate(mem, root, path, 3) == Translate(mem, kernel, path, 3)
  {
    assert SameTop(mem, kernel, root, path[0]);
  }

  // Changing one entry that is not, and does not become, a table pointer.

  function Edited(mem: Mem, t: nat, i: nat, e: Entry): Mem
    requires t in mem && i < |mem[t]|
  {
    mem[t := mem[t][i := e]]
  }

  ghost predicate LeafEdit(mem: Mem, tables: Tables, pos: Pos, i: nat, e: Entry) {
    && pos in tables && tables[pos] in mem && i < |mem[tables[pos]]| && 0 <= Level(pos) <= 3 && (Level(pos) < 3 || i < 256)
    && !IsTable(mem[tables[pos]][i], Level(pos)) && !IsTable(e, Level(pos))
  }

  lemma {:induction false} EditKeepsTree(mem: Mem, tables: Tables, owner: Owners, pos: Pos, i: nat, e: Entry)
    requires TreeOK(mem, tables, owner) && LeafEdit(mem, tables, pos, i, e)
    ensures TreeOK(Edited(mem, tables[pos], i, e), tables, owner)
  {
    var mem' := Edited(mem, tables[pos], i, e);
    assert NodeOK(mem, tables, owner, pos);
    forall q ensures NodeOK(mem', tables, owner, q) {
      assert NodeOK(mem, tables, owner, q);
      if q in tables {
        forall j ensures EdgeOK(mem', tables, q, j) {
          assert EdgeOK(mem, tables, q, j);
        }
      }
    }
  }

  lemma {:induction false} EditKeepsKernelHalf(mem: Mem, kernel: nat, tables: Tables, owner: Owners, pos: Pos, i: nat, e: Entry)
    requires TreeOK(mem, tables, owner) && LeafEdit(mem, tables, pos, i, e) && KernelHalf(mem, kernel, tables)
    ensures KernelHalf(Edited(mem, tables[pos], i, e), kernel, tables)
  {
    var mem' := Edited(mem, tables[pos], i, e);
    assert NodeOK(mem, tables, owner, pos) && NodeOK(mem, tables, owner, Root(kernel));
    forall r, j | Root(r) in tables && 256 <= j < ENTRIES ensures SameTop(mem', kernel, r, j) {
      assert NodeOK(mem, tables, owner, Root(r)) && SameTop(mem, kernel, r, j);
    }
  }

  /** Addresses (space and path) that share entry path[n] of a table with n indices. */
  ghost predicate SamePage(root: nat, path: seq<nat>, root': nat, path': seq<nat>, n: nat)
    requires n <= 3 && |path| == 4 && |path'| == 4
  {
    path[..n + 1] == path'[..n + 1] && (root == root' || path[0] >= 256)
  }

  lemma {:induction false} SamePageIsSameEntry(root: nat, path: seq<nat>, root': nat, path': seq<nat>, n: nat)
    requires n <= 3 && PathOK(path) && PathOK(path') && (n > 0 || path[0] < 256)
    ensures SamePage(root, path, root', path', n) <==> PosAt(root, path, n) == PosAt(root', path', n) && path[n] == path'[n]
  {
    assert path[..n + 1] == path[..n] + [path[n]] && path'[..n + 1] == path'[..n] + [path'[n]];
    assert n > 0 ==> path[..n][0] == path[0] && path'[..n][0] == path'[0];
  }

  /** A leaf edit changes the translation of exactly the addresses behind that entry. */
  lemma {:induction false} EditEffect(mem: Mem, tables: Tables, owner: Owners, root: nat, path: seq<nat>, e: Entry, root': nat, path': seq<nat>)
    requires TreeOK(mem, tables, owner) && Root(root) in tables && Root(root') in tables && PathOK(path) && PathOK(path')
    requires var n := Stop(tables, root, path); LeafEdit(mem, tables, PosAt(root, path, n), path[n], e)
    ensures var n := Stop(tables, root, path);
      var mem' := Edited(mem, tables[PosAt(root, path, n)], path[n], e);
      Translate(mem', root', path', 3) == if SamePage(root, path, root', path', n) then LeafOf(e, 3 - n) else Translate(mem, root', path', 3)
  {
    var n, k := Stop(tables, root, path), Stop(tables, root', path');
    var pos, pos' := PosAt(root, path, n), PosAt(root', path', k);
    EditKeepsTree(mem, tables, owner, pos, path[n], e);
    WalkEnds(mem, tables, owner, root', path');
    WalkEnds(Edited(mem, tables[pos], path[n], e), tables, owner, root', path');
    assert NodeOK(mem, tables, owner, pos) && NodeOK(mem, tables, owner, pos');
    SamePageIsSameEntry(root, path, root', path', n);
    SameStop(tables, root, path, root', path');
  }

  lemma {:induction false} LevelOfPos(root: nat, path: seq<nat>, n: nat)
    requires n <= 3 && |path| == 4
    ensures Level(PosAt(root, path, n)) == 3 - n
  {
  }

  /** If two walks meet at the entry where the first one ends, so does the second. */
  lemma {:induction false} SameStop(tables: Tables, root: nat, path: seq<nat>, root': nat, path': seq<nat>)
    requires PathOK(path) && PathOK(path')
    ensures var n, k := Stop(tables, root, path), Stop(tables, root', path');
      && (SamePage(root, path, root', path', n) ==> k == n)
      && (PosAt(root, path, n) == PosAt(root', path', k) ==> k == n)
  {
    var n, k := Stop(tables, root, path), Stop(tables, root', path');
    LevelOfPos(root, path, n);
    LevelOfPos(root', path', k);
    if SamePage(root, path, root', path', n) {
      Prefixes(root, path, root', path', n);
    }
  }

  lemma {:induction false} Prefixes(root: nat, path: seq<nat>, root': nat, path': seq<nat>, n: nat)
    requires n <= 3 && PathOK(path) && PathOK(path') && SamePage(root, path, root', path', n)
    ensures forall j :: 1 <= j <= n + 1 && j <= 3 ==> PosAt(root, path, j) == PosAt(root', path', j)
  {
    assert path[0] == path[..n + 1][0] && path'[0] == path'[..n + 1][0];
    forall j | 1 <= j <= n + 1 && j <= 3 ensures PosAt(root, path, j) == PosAt(root', path', j) {
      assert path[..j] == path[..n + 1][..j] && path'[..j] == path'[..n + 1][..j];
    }
  }

  // Linking a fresh, empty table where nothing was present.

  function Empty(): (t: seq<Entry>)
    ensures |t| == ENTRIES && forall i :: 0 <= i < ENTRIES ==> t[i] == Zero
  {
    seq(ENTRIES, _ => Zero)
  }

  function Linked(mem: Mem, t: nat, i: nat, g: nat, f: Flags): Mem
    requires t in mem && i < |mem[t]|
  {
    mem[g := Empty()][t := mem[t][i := Entry(g, f)]]
  }

  ghost predicate CanLink(mem: Mem, tables: Tables, owner: Owners, pos: Pos, i: nat, g: nat, f: Flags) {
    && pos in tables && tables[pos] in mem && i < |mem[tables[pos]]| && 0 < Level(pos) <= 3
    && !mem[tables[pos]][i].f.present && g !in mem && g !in owner && f.present && !f.ps
    && (pos.Root? && i >= 256 ==> forall r :: Root(r) in tables ==> r == pos.r)
  }

  lemma {:induction false} ChildInjective(pos: Pos, i: nat, q: Pos, j: nat)
    requires Child(pos, i) == Child(q, j) && Level(pos) <= 3 && Level(q) <= 3
    requires (!pos.Root? ==> Level(pos) < 3) && (!q.Root? ==> Level(q) < 3)
    ensures i == j && (pos == q || (pos.Root? && q.Root? && i >= 256))
  {
    if pos.Lower? && q.Lower? {
      LastOf(pos.path, i, q.path, j);
    } else if pos.Upper? && q.Upper? {
      LastOf(pos.path, i, q.path, j);
    } else if pos.Root? && q.Root? {
      LastOf([], i, [], j);
    }
  }

  lemma {:induction false} LastOf(p: seq<nat>, i: nat, q: seq<nat>, j: nat)
    requires p + [i] == q + [j]
    ensures p == q && i == j
  {
    assert (p + [i])[..|p|] == p && (q + [j])[..|q|] == q;
    assert (p + [i])[|p|] == i && (q + [j])[|q|] == j;
  }

  /** Nothing hangs below a position without a table. */
  lemma {:induction false} NothingBelow(mem: Mem, tables: Tables, owner: Owners, pos: Pos, j: nat)
    requires TreeOK(mem, tables, owner) && pos !in tables && !pos.Root? && Level(pos) < 3
    ensures Child(pos, j) !in tables
  {
    assert NodeOK(mem, tables, owner, Child(pos, j));
    match pos
    case Lower(r, p) => assert (p + [j])[..|p|] == p;
    case Upper(p) => assert (p + [j])[..|p|] == p;
  }

  lemma {:induction false} ChildLevel(pos: Pos, i: nat)
    requires 0 < Level(pos) <= 3
    ensures Level(Child(pos, i)) == Level(pos) - 1 && !Child(pos, i).Root?
  {
  }

  lemma {:induction false} LinkKeepsNode(mem: Mem, tables: Tables, owner: Owners, pos: Pos, i: nat, g: nat, f: Flags, q: Pos)
    requires TreeOK(mem, tables, owner) && CanLink(mem, tables, owner, pos, i, g, f) && q in tables
    ensures NodeOK(Linked(mem, tables[pos], i, g, f), tables[Child(pos, i) := g], owner[g := Child(pos, i)], q)
  {
    var c := Child(pos, i);
    var mem', tables', owner' := Linked(mem, tables[pos], i, g, f), tables[c := g], owner[g := c];
    assert NodeOK(mem, tables, owner, pos) && NodeOK(mem, tables, owner, q);
    assert EdgeOK(mem, tables, pos, i);
    assert c !in tables;
    forall j: nat ensures EdgeOK(mem', tables', q, j) {
      assert EdgeOK(mem, tables, q, j);
      if j < ENTRIES && Level(q) > 0 && Child(q, j) == c {
        ChildInjective(pos, i, q, j);
      }
    }
  }

  lemma {:induction false} LinkKeepsTree(mem: Mem, tables: Tables, owner: Owners, pos: Pos, i: nat, g: nat, f: Flags)
    requires TreeOK(mem, tables, owner) && CanLink(mem, tables, owner, pos, i, g, f)
    ensures Child(pos, i) !in tables
    ensures TreeOK(Linked(mem, tables[pos], i, g, f), tables[Child(pos, i) := g], owner[g := Child(pos, i)])
  {
    var c := Child(pos, i);
    var mem', tables', owner' := Linked(mem, tables[pos], i, g, f), tables[c := g], owner[g := c];
    assert NodeOK(mem, tables, owner, pos) && EdgeOK(mem, tables, pos, i);
    ChildLevel(pos, i);
    forall q ensures NodeOK(mem', tables', owner', q) {
      if q in tables {
        LinkKeepsNode(mem, tables, owner, pos, i, g, f, q);
      } else if q == c {
        NewNode(mem, tables, owner, pos, i, g, f);
      }
    }
  }

  lemma {:induction false} NewEdge(mem: Mem, tables: Tables, owner: Owners, c: Pos, g: nat, mem': Mem, j: nat)
    requires TreeOK(mem, tables, owner) && c !in tables && !c.Root? && 0 <= Level(c) < 3 && g in mem' && mem'[g] == Empty()
    ensures EdgeOK(mem', tables[c := g], c, j)
  {
    NothingBelow(mem, tables, owner, c, j);
    if j < ENTRIES && Level(c) > 0 {
      ChildLevel(c, j);
    }
  }

  lemma {:induction false} NewParent(tables: Tables, pos: Pos, i: nat, g: nat)
    requires pos in tables && IndicesOK(pos)
    ensures ParentOK(tables[Child(pos, i) := g], Child(pos, i))
  {
    match pos
    case Root(r) =>
    case Lower(r, p) => assert (p + [i])[..|p|] == p;
    case Upper(p) => assert (p + [i])[..|p|] == p;
  }

  lemma {:induction false} NewNode(mem: Mem, tables: Tables, owner: Owners, pos: Pos, i: nat, g: nat, f: Flags)
    requires TreeOK(mem, tables, owner) && CanLink(mem, tables, owner, pos, i, g, f)
    ensures NodeOK(Linked(mem, tables[pos], i, g, f), tables[Child(pos, i) := g], owner[g := Child(pos, i)], Child(pos, i))
  {
    var c := Child(pos, i);
    var mem', tables' := Linked(mem, tables[pos], i, g, f), tables[c := g];
    assert NodeOK(mem, tables, owner, pos) && EdgeOK(mem, tables, pos, i);
    ChildLevel(pos, i);
    ChildIndices(pos, i);
    NewParent(tables, pos, i, g);
    assert mem'[g] == Empty();
    forall j: nat ensures EdgeOK(mem', tables', c, j) {
      NewEdge(mem, tables, owner, c, g, mem', j);
    }
  }

  lemma {:induction false} ChildIndices(pos: Pos, i: nat)
    requires IndicesOK(pos) && i < ENTRIES
    ensures IndicesOK(Child(pos, i))
  {
  }

  lemma {:induction false} ParentOnPath(mem: Mem, tables: Tables, owner: Owners, pos: Pos, i: nat, root: nat, path: seq<nat>, j: nat)
    requires TreeOK(mem, tables, owner) && pos in tables && 2 <= j <= 3 && PathOK(path) && PosAt(root, path, j) == Child(pos, i)
    ensures PosAt(root, path, 1) in tables && PosAt(root, path, j - 1) in tables
  {
    assert NodeOK(mem, tables, owner, pos);
    PosStep(root, path, j - 1);
    ChildInjective(pos, i, PosAt(root, path, j - 1), path[j - 1]);
    assert PosAt(root, path, j - 1) == pos;
    if j == 3 {
      var p := path[..2];
      assert p[..|p| - 1] == path[..1] && p[0] == path[0];
      assert PosAt(root, path, 1) in tables;
    }
  }

  /** The new table extends exactly the walks that ended in the entry it hangs from. */
  lemma {:induction false} StopAfterLink(mem: Mem, tables: Tables, owner: Owners, pos: Pos, i: nat, g: nat, root: nat, path: seq<nat>)
    requires TreeOK(mem, tables, owner) && pos in tables && 0 < Level(pos) <= 3 && Child(pos, i) !in tables
    requires Root(root) in tables && PathOK(path)
    ensures var k, k' := Stop(tables, root, path), Stop(tables[Child(pos, i) := g], root, path);
      if k < 3 && PosAt(root, path, k + 1) == Child(pos, i) then k' == k + 1 else k' == k
  {
    LevelOfPos(root, path, 1);
    LevelOfPos(root, path, 2);
    LevelOfPos(root, path, 3);
    PosStep(root, path, 1);
    PosStep(root, path, 2);
    if PosAt(root, path, 1) == Child(pos, i) {
      NothingBelow(mem, tables, owner, Child(pos, i), path[1]);
    }
    if PosAt(root, path, 2) == Child(pos, i) {
      NothingBelow(mem, tables, owner, Child(pos, i), path[2]);
      ParentOnPath(mem, tables, owner, pos, i, root, path, 2);
    }
    if PosAt(root, path, 3) == Child(pos, i) {
      ParentOnPath(mem, tables, owner, pos, i, root, path, 3);
    }
  }

  lemma {:induction false} LinkKeepsTranslation(mem: Mem, tables: Tables, owner: Owners, pos: Pos, i: nat, g: nat, f: Flags, root: nat, path: seq<nat>)
    requires TreeOK(mem, tables, owner) && CanLink(mem, tables, owner, pos, i, g, f) && Root(root) in tables && PathOK(path)
    ensures Translate(Linked(mem, tables[pos], i, g, f), root, path, 3) == Translate(mem, root, path, 3)
  {
    var c := Child(pos, i);
    var mem', tables', owner' := Linked(mem, tables[pos], i, g, f), tables[c := g], owner[g := c];
    LinkKeepsTree(mem, tables, owner, pos, i, g, f);
    WalkEnds(mem, tables, owner, root, path);
    WalkEnds(mem', tables', owner', root, path);
    StopAfterLink(mem, tables, owner, pos, i, g, root, path);
    var k := Stop(tables, root, path);
    var here := PosAt(root, path, k);
    assert NodeOK(mem, tables, owner, pos) && NodeOK(mem, tables, owner, here);
    if k < 3 {
      PosStep(root, path, k);
      if PosAt(root, path, k + 1) == c {
        ChildInjective(pos, i, here, path[k]);
      }
    }
  }

  lemma {:induction false} LinkKeepsKernelHalf(mem: Mem, kernel: nat, tables: Tables, owner: Owners, pos: Pos, i: nat, g: nat, f: Flags)
    requires TreeOK(mem, tables, owner) && CanLink(mem, tables, owner, pos, i, g, f) && KernelHalf(mem, kernel, tables)
    ensures KernelHalf(Linked(mem, tables[pos], i, g, f), kernel, tables[Child(pos, i) := g])
  {
    var mem', tables' := Linked(mem, tables[pos], i, g, f), tables[Child(pos, i) := g];
    assert NodeOK(mem, tables, owner, pos) && NodeOK(mem, tables, owner, Root(kernel));
    ChildLevel(pos, i);
    forall r, j | Root(r) in tables' && 256 <= j < ENTRIES ensures SameTop(mem', kernel, r, j) {
      assert NodeOK(mem, tables, owner, Root(r)) && SameTop(mem, kernel, r, j);
      assert pos.Root? ==> SameTop(mem, kernel, pos.r, i) || i < 256;
    }
  }

  // A new space: an empty lower half and the kernel's upper half.

  function NewRoot(top: seq<Entry>): (t: seq<Entry>)
    requires |top| == ENTRIES
    ensures |t| == ENTRIES
    ensures (forall i :: 0 <= i < 256 ==> t[i] == Zero) && (forall i :: 256 <= i < ENTRIES ==> t[i] == top[i])
  {
    seq(ENTRIES, i requires 0 <= i < ENTRIES => if i < 256 then Zero else top[i])
  }

  lemma {:induction false} NewRootKeepsTree(mem: Mem, kernel: nat, tables: Tables, owner: Owners, g: nat)
    requires TreeOK(mem, tables, owner) && KernelHalf(mem, kernel, tables) && g !in mem && g !in owner
    ensures kernel in mem && |mem[kernel]| == ENTRIES
    ensures TreeOK(mem[g := NewRoot(mem[kernel])], tables[Root(g) := g], owner[g := Root(g)])
    ensures KernelHalf(mem[g := NewRoot(mem[kernel])], kernel, tables[Root(g) := g])
  {
    assert NodeOK(mem, tables, owner, Root(kernel));
    var mem', tables', owner' := mem[g := NewRoot(mem[kernel])], tables[Root(g) := g], owner[g := Root(g)];
    assert Root(g) !in tables by {
      assert NodeOK(mem, tables, owner, Root(g));
    }
    forall q ensures NodeOK(mem', tables', owner', q) {
      assert NodeOK(mem, tables, owner, q);
      if q == Root(g) {
        forall i: nat ensures EdgeOK(mem', tables', q, i) {
          NewRootEdge(mem, kernel, tables, owner, g, i);
        }
      } else if q in tables {
        forall i: nat ensures EdgeOK(mem', tables', q, i) {
          assert EdgeOK(mem, tables, q, i);
          if Level(q) > 0 {
            ChildLevel(q, i);
          }
        }
      }
    }
    forall r, j | Root(r) in tables' && 256 <= j < ENTRIES ensures SameTop(mem', kernel, r, j) {
      assert SameTop(mem, kernel, kernel, j);
      if r != g {
        assert SameTop(mem, kernel, r, j);
      }
    }
  }

  lemma {:induction false} NewRootEdge(mem: Mem, kernel: nat, tables: Tables, owner: Owners, g: nat, i: nat)
    requires TreeOK(mem, tables, owner) && KernelHalf(mem, kernel, tables) && g !in mem && g !in owner
    requires kernel in mem && |mem[kernel]| == ENTRIES
    ensures EdgeOK(mem[g := NewRoot(mem[kernel])], tables[Root(g) := g], Root(g), i)
  {
    assert NodeOK(mem, tables, owner, Root(kernel)) && EdgeOK(mem, tables, Root(kernel), i);
    assert NodeOK(mem, tables, owner, Root(g)) && NodeOK(mem, tables, owner, Lower(g, [i]));
  }

  lemma {:induction false} NewRootKeepsTranslation(mem: Mem, kernel: nat, tables: Tables, owner: Owners, g: nat, root: nat, path: seq<nat>)
    requires TreeOK(mem, tables, owner) && KernelHalf(mem, kernel, tables) && g !in mem && g !in owner && PathOK(path)
    requires kernel in mem && |mem[kernel]| == ENTRIES
    ensures Root(root) in tables ==> Translate(mem[g := NewRoot(mem[kernel])], root, path, 3) == Translate(mem, root, path, 3)
    ensures path[0] < 256 ==> Translate(mem[g := NewRoot(mem[kernel])], g, path, 3) == None
  {
    var mem', tables', owner' := mem[g := NewRoot(mem[kernel])], tables[Root(g) := g], owner[g := Root(g)];
    NewRootKeepsTree(mem, kernel, tables, owner, g);
    if Root(root) in tables {
      WalkEnds(mem, tables, owner, root, path);
      WalkEnds(mem', tables', owner', root, path);
      assert Stop(tables', root, path) == Stop(tables, root, path);
      assert NodeOK(mem, tables, owner, PosAt(root, path, Stop(tables, root, path)));
    }
  }
}
