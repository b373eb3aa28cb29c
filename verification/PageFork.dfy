/**
  Trees of page tables as values: what copying a lower half for fork and freeing it
  on exit mean.
 */
module PageTrees {
  import opened Wrappers
  import opened PageTables

  datatype Slot = Absent(e: Entry) | Page(frame: nat, f: Flags) | Table(frame: nat, f: Flags, kids: seq<Slot>)

  /** Contents of page frames. */
  type Data = map<nat, seq<nat>>

  ghost predicate Extends<T(!new)>(a: map<nat, T>, b: map<nat, T>) {
    forall k :: k in a ==> k in b && b[k] == a[k]
  }

  /** The entry is no table pointer, or a whole tree of tables hangs below it. */
  ghost predicate SlotTree(mem: Mem, e: Entry, lvl: nat)
    decreases lvl, 0
  {
    IsTable(e, lvl) ==> lvl > 0 && HasTree(mem, e.addr, lvl - 1)
  }

  ghost predicate HasTree(mem: Mem, t: nat, lvl: nat)
    decreases lvl, 1
  {
    t in mem && |mem[t]| == ENTRIES && forall i :: 0 <= i < ENTRIES ==> SlotTree(mem, mem[t][i], lvl)
  }

  ghost function SlotOf(mem: Mem, e: Entry, lvl: nat): Slot
    requires SlotTree(mem, e, lvl)
    decreases lvl, 0
  {
    if IsTable(e, lvl) then Table(e.addr, e.f, View(mem, e.addr, lvl - 1))
    else if e.f.present then Page(e.addr, e.f)
    else Absent(e)
  }

  ghost function View(mem: Mem, t: nat, lvl: nat): (r: seq<Slot>)
    requires HasTree(mem, t, lvl)
    ensures |r| == ENTRIES
    decreases lvl, 1
  {
    seq(ENTRIES, i requires 0 <= i < ENTRIES && HasTree(mem, t, lvl) => SlotOf(mem, mem[t][i], lvl))
  }

  /** Trees depend only on their own tables. */
  lemma {:induction false} SlotKept(mem: Mem, mem': Mem, e: Entry, lvl: nat)
    requires SlotTree(mem, e, lvl) && Extends(mem, mem')
    ensures SlotTree(mem', e, lvl) && SlotOf(mem', e, lvl) == SlotOf(mem, e, lvl)
    decreases lvl, 0
  {
    if IsTable(e, lvl) {
      ViewKept(mem, mem', e.addr, lvl - 1);
    }
  }

  lemma {:induction false} ViewKept(mem: Mem, mem': Mem, t: nat, lvl: nat)
    requires HasTree(mem, t, lvl) && Extends(mem, mem')
    ensures HasTree(mem', t, lvl) && View(mem', t, lvl) == View(mem, t, lvl)
    decreases lvl, 1
  {
    forall i | 0 <= i < ENTRIES
      ensures SlotTree(mem', mem[t][i], lvl) && SlotOf(mem', mem[t][i], lvl) == SlotOf(mem, mem[t][i], lvl)
    {
      SlotKept(mem, mem', mem[t][i], lvl);
    }
  }

  // Translation.

  function Lookup(slots: seq<Slot>, path: seq<nat>, lvl: nat): Option<Mapping>
    requires |path| == lvl + 1
    decreases lvl
  {
    if path[0] >= |slots| then None
    else match slots[path[0]]
      case Absent(e) => None
      case Page(frame, f) => Some(Mapping(lvl, frame, f))
      case Table(frame, f, kids) => if lvl == 0 then None else Lookup(kids, path[1..], lvl - 1)
  }

  /** The hardware walk reads the tree. */
  lemma {:induction false} TranslateIsLookup(mem: Mem, t: nat, path: seq<nat>, lvl: nat)
    requires |path| == lvl + 1 && HasTree(mem, t, lvl)
    ensures Translate(mem, t, path, lvl) == Lookup(View(mem, t, lvl), path, lvl)
    decreases lvl
  {
    if path[0] < ENTRIES {
      var e := mem[t][path[0]];
      assert SlotTree(mem, e, lvl) && View(mem, t, lvl)[path[0]] == SlotOf(mem, e, lvl);
      if IsTable(e, lvl) {
        TranslateIsLookup(mem, e.addr, path[1..], lvl - 1);
      }
    }
  }

  // Frames.

  /** Memory that a slot accounts for: tables and pages, with the page level. */
  datatype Chunk = Chunk(addr: nat, lvl: nat)

  /** In the order copying allocates them: a table before what hangs below it. */
  function Frames(s: Slot, lvl: nat): seq<Chunk>
    decreases s, 0
  {
    match s
    case Absent(e) => []
    case Page(frame, f) => [Chunk(frame, lvl)]
    case Table(frame, f, kids) => if lvl == 0 then [] else [Chunk(frame, 0)] + AllFrames(kids, lvl - 1)
  }

  function AllFrames(slots: seq<Slot>, lvl: nat): seq<Chunk>
    decreases slots, |slots|
  {
    if slots == [] then [] else AllFrames(slots[..|slots| - 1], lvl) + Frames(slots[|slots| - 1], lvl)
  }

  /** In the order freeing queues them: a table after what hangs below it. */
  function Released(s: Slot, lvl: nat): seq<Chunk>
    decreases s, 0
  {
    match s
    case Absent(e) => []
    case Page(frame, f) => [Chunk(frame, lvl)]
    case Table(frame, f, kids) => if lvl == 0 then [] else AllReleased(kids, lvl - 1) + [Chunk(frame, 0)]
  }

  function AllReleased(slots: seq<Slot>, lvl: nat): seq<Chunk>
    decreases slots, |slots|
  {
    if slots == [] then [] else AllReleased(slots[..|slots| - 1], lvl) + Released(slots[|slots| - 1], lvl)
  }

  /** Freeing queues every table and every page of a tree exactly once. */
  lemma {:induction false} ReleasedIsFrames(s: Slot, lvl: nat)
    ensures multiset(Released(s, lvl)) == multiset(Frames(s, lvl))
    decreases s, 0
  {
    if s.Table? && lvl > 0 {
      AllReleasedIsFrames(s.kids, lvl - 1);
    }
  }

  lemma {:induction false} AllReleasedIsFrames(slots: seq<Slot>, lvl: nat)
    ensures multiset(AllReleased(slots, lvl)) == multiset(AllFrames(slots, lvl))
    decreases slots, |slots|
  {
    if slots != [] {
      AllReleasedIsFrames(slots[..|slots| - 1], lvl);
      ReleasedIsFrames(slots[|slots| - 1], lvl);
    }
  }

  // Copies.

  /** The bits that a copy keeps. */
  function Kept(f: Flags): Flags {
    f.(guard := false, rest := 0)
  }

  /** Same shape, same kept flags, equal page contents. */
  ghost predicate CopyOf(p: Slot, q: Slot, data: Data)
    decreases p
  {
    match p
    case Absent(e) => q == Absent(Zero)
    case Page(frame, f) =>
      q.Page? && q.f == Kept(f) && frame in data && q.frame in data && data[q.frame] == data[frame]
    case Table(frame, f, kids) =>
      q.Table? && q.f == Kept(f) && |q.kids| == |kids| && forall i :: 0 <= i < |kids| ==> CopyOf(kids[i], q.kids[i], data)
  }

  ghost predicate AllCopied(ps: seq<Slot>, qs: seq<Slot>, data: Data) {
    |qs| == |ps| && forall i :: 0 <= i < |ps| ==> CopyOf(ps[i], qs[i], data)
  }

  lemma {:induction false} CopyKept(p: Slot, q: Slot, data: Data, data': Data)
    requires CopyOf(p, q, data) && Extends(data, data')
    ensures CopyOf(p, q, data')
    decreases p
  {
    if p.Table? {
      forall i | 0 <= i < |p.kids| ensures CopyOf(p.kids[i], q.kids[i], data') {
        CopyKept(p.kids[i], q.kids[i], data, data');
      }
    }
  }

  /** What a copy means for translation: every address is mapped in both or in
      neither, to pages of equal level, rights and contents; the kernel's own bits are
      cleared. */
  ghost predicate TwinMappings(a: Option<Mapping>, b: Option<Mapping>, data: Data) {
    match (a, b)
    case (None, None) => true
    case (Some(x), Some(y)) =>
      && y.lvl == x.lvl && x.addr in data && y.addr in data && data[y.addr] == data[x.addr]
      && y.f.present == x.f.present && y.f.rw == x.f.rw && y.f.us == x.f.us && y.f.xd == x.f.xd && y.f.ps == x.f.ps
      && !y.f.guard && y.f.rest == 0
    case _ => false
  }

  lemma {:induction false} CopiesTranslateAlike(ps: seq<Slot>, qs: seq<Slot>, data: Data, path: seq<nat>, lvl: nat)
    requires |path| == lvl + 1 && AllCopied(ps, qs, data)
    ensures TwinMappings(Lookup(ps, path, lvl), Lookup(qs, path, lvl), data)
    decreases lvl
  {
    if path[0] < |ps| {
      var p, q := ps[path[0]], qs[path[0]];
      assert CopyOf(p, q, data);
      if p.Table? && lvl > 0 {
        assert AllCopied(p.kids, q.kids, data);
        CopiesTranslateAlike(p.kids, q.kids, data, path[1..], lvl - 1);
      }
    }
  }

  /** Only 4K pages, all with known contents. */
  ghost predicate Small(s: Slot, lvl: nat, data: Data)
    decreases s
  {
    match s
    case Absent(e) => true
    case Page(frame, f) => lvl == 0 && frame in data
    case Table(frame, f, kids) => lvl > 0 && forall i :: 0 <= i < |kids| ==> Small(kids[i], lvl - 1, data)
  }

  lemma {:induction false} SmallKept(s: Slot, lvl: nat, data: Data, data': Data)
    requires Small(s, lvl, data) && Extends(data, data')
    ensures Small(s, lvl, data')
    decreases s
  {
    if s.Table? {
      forall i | 0 <= i < |s.kids| ensures Small(s.kids[i], lvl - 1, data') {
        SmallKept(s.kids[i], lvl - 1, data, data');
      }
    }
  }

  /** A mapped page is among the frames of its tree, with its level. */
  lemma {:induction false} MappedIsReleased(slots: seq<Slot>, path: seq<nat>, lvl: nat)
    requires |path| == lvl + 1 && Lookup(slots, path, lvl).Some?
    ensures var m := Lookup(slots, path, lvl).value; Chunk(m.addr, m.lvl) in AllReleased(slots, lvl)
    decreases lvl
  {
    var s, m := slots[path[0]], Lookup(slots, path, lvl).value;
    if s.Table? {
      MappedIsReleased(s.kids, path[1..], lvl - 1);
    }
    SlotIsReleased(slots, path[0], lvl, Chunk(m.addr, m.lvl));
  }

  lemma {:induction false} SlotIsReleased(slots: seq<Slot>, i: nat, lvl: nat, c: Chunk)
    requires i < |slots| && c in Released(slots[i], lvl)
    ensures c in AllReleased(slots, lvl)
    decreases |slots|
  {
    if i < |slots| - 1 {
      SlotIsReleased(slots[..|slots| - 1], i, lvl, c);
    }
  }

  /** The table that a path of indices leads to. */
  function TableIn(slots: seq<Slot>, path: seq<nat>, lvl: nat): Option<nat>
    requires 0 < |path| <= lvl
    decreases lvl
  {
    if path[0] >= |slots| then None
    else match slots[path[0]]
      case Absent(e) => None
      case Page(frame, f) => None
      case Table(frame, f, kids) => if |path| == 1 then Some(frame) else TableIn(kids, path[1..], lvl - 1)
  }

  /** Such a table is among the frames of its tree. */
  lemma {:induction false} TableIsReleased(slots: seq<Slot>, path: seq<nat>, lvl: nat)
    requires 0 < |path| <= lvl && TableIn(slots, path, lvl).Some?
    ensures Chunk(TableIn(slots, path, lvl).value, 0) in AllReleased(slots, lvl)
    decreases lvl
  {
    var s := slots[path[0]];
    if |path| > 1 {
      TableIsReleased(s.kids, path[1..], lvl - 1);
    }
    SlotIsReleased(slots, path[0], lvl, Chunk(TableIn(slots, path, lvl).value, 0));
  }

  lemma {:induction false} FramesOfPrefix(slots: seq<Slot>, i: nat, lvl: nat)
    requires i < |slots|
    ensures AllFrames(slots[..i + 1], lvl) == AllFrames(slots[..i], lvl) + Frames(slots[i], lvl)
    ensures AllReleased(slots[..i + 1], lvl) == AllReleased(slots[..i], lvl) + Released(slots[i], lvl)
  {
    assert slots[..i + 1][..i] == slots[..i];
  }

  lemma {:induction false} PrefixFramesFit(slots: seq<Slot>, i: nat, lvl: nat)
    requires i <= |slots|
    ensures |AllFrames(slots[..i], lvl)| <= |AllFrames(slots, lvl)|
    decreases |slots| - i
  {
    if i == |slots| {
      assert slots[..i] == slots;
    } else {
      FramesOfPrefix(slots, i, lvl);
      PrefixFramesFit(slots, i + 1, lvl);
    }
  }
}

/**
  The code: recursive walks over tables that are changed in place.
 */
module PageFork {
  import opened Wrappers
  import opened PageTables
  import opened PageTrees
  import S = PageSpaces

  /** The chunks of a run of 4K frames. */
  function Chunks(frames: seq<nat>): (r: seq<Chunk>)
    ensures |r| == |frames|
  {
    seq(|frames|, i requires 0 <= i < |frames| => Chunk(frames[i], 0))
  }

  ghost predicate PoolOK(pool: seq<nat>, mem: Mem, data: Data) {
    && (forall i :: 0 <= i < |pool| ==> pool[i] != 0 && pool[i] !in mem && pool[i] !in data)
    && (forall i, j :: 0 <= i < j < |pool| ==> pool[i] != pool[j])
  }

  class Memory {
    var mem: Mem
    var data: Data
    var pool: seq<nat>
    var queue: seq<Chunk>

    ghost predicate Valid()
      reads this
    {
      PoolOK(pool, mem, data)
    }

    constructor (mem: Mem, data: Data, pool: seq<nat>)
      requires PoolOK(pool, mem, data)
      ensures Valid() && this.mem == mem && this.data == data && this.pool == pool && queue == []
    {
      this.mem, this.data, this.pool, queue := mem, data, pool, [];
    }

    /** free_pages: queues what hangs below table t, then t itself. */
    method FreePages(t: nat, lvl: nat)
      requires HasTree(mem, t, lvl) && lvl <= 2
      modifies this`queue
      ensures queue == old(queue) + AllReleased(View(mem, t, lvl), lvl) + [Chunk(t, 0)]
      decreases lvl
    {
      ghost var slots := View(mem, t, lvl);
      var i := 0;
      assert slots[..0] == [];
      while i < ENTRIES
        invariant 0 <= i <= ENTRIES && queue == old(queue) + AllReleased(slots[..i], lvl)
      {
        var e := mem[t][i];
        assert SlotTree(mem, e, lvl) && slots[i] == SlotOf(mem, e, lvl);
        FramesOfPrefix(slots, i, lvl);
        if e.f.present {
          if lvl != 0 && !e.f.ps {
            FreePages(e.addr, lvl - 1);
          } else {
            queue := queue + [Chunk(e.addr, lvl)];
          }
        }
        i := i + 1;
      }
      assert slots[..i] == slots;
      queue := queue + [Chunk(t, 0)];
    }

    /** paging_free_userspace: the lower half of a space and its top-level table. */
    method FreeUserspace(root: nat)
      requires HasTree(mem, root, 3)
      modifies this`queue
      ensures queue == old(queue) + AllReleased(View(mem, root, 3)[..256], 3) + [Chunk(root, 0)]
    {
      ghost var slots := View(mem, root, 3);
      var i := 0;
      assert slots[..0] == [];
      while i < 256
        invariant 0 <= i <= 256 && queue == old(queue) + AllReleased(slots[..i], 3)
      {
        var e := mem[root][i];
        assert SlotTree(mem, e, 3) && slots[i] == SlotOf(mem, e, 3);
        FramesOfPrefix(slots, i, 3);
        if e.f.present {
          FreePages(e.addr, 2);
        }
        i := i + 1;
      }
      queue := queue + [Chunk(root, 0)];
    }

    /** copy_pages: fills table c, which is not in use yet, with a copy of table t.
        The copy lives in frames of the pool alone, taken in order. */
    method CopyPages(t: nat, c: nat, lvl: nat)
      requires Valid() && HasTree(mem, t, lvl) && c !in mem && c !in data && c !in pool
      requires AllSmall(View(mem, t, lvl), lvl, data) && |pool| >= |AllFrames(View(mem, t, lvl), lvl)|
      modifies this`mem, this`data, this`pool
      ensures Valid() && Extends(old(mem), mem) && Extends(old(data), data)
      ensures HasTree(mem - old(mem).Keys, c, lvl)
      ensures AllCopied(View(old(mem), t, lvl), View(mem - old(mem).Keys, c, lvl), data)
      ensures var n := |AllFrames(View(old(mem), t, lvl), lvl)|;
        AllFrames(View(mem - old(mem).Keys, c, lvl), lvl) == Chunks(old(pool)[..n]) && pool == old(pool)[n..]
      decreases lvl, 1, 1
    {
      ghost var mem0, data0, pool0 := mem, data, pool;
      ghost var src := View(mem, t, lvl);
      var top := S.Empty();
      mem := mem[c := top];
      ghost var made: seq<Slot> := [];
      var i := 0;
      NothingCopied(mem0, data0, pool0, src, top, c, lvl);
      while i < ENTRIES
        invariant 0 <= i <= ENTRIES && Valid() && Copying(mem0, data0, pool0, src, top, c, lvl, mem, data, pool, made, i)
      {
        PrefixFramesFit(src, i + 1, lvl);
        made := CopyEntry(t, c, i, lvl, mem0, data0, pool0, top, made);
        i := i + 1;
      }
      assert src[..i] == src;
      Finish(mem0, mem, c, lvl, made);
    }

    /** One turn of the loop. */
    method CopyEntry(t: nat, c: nat, i: nat, lvl: nat, ghost mem0: Mem, ghost data0: Data, ghost pool0: seq<nat>, ghost top: seq<Entry>, ghost made: seq<Slot>)
      returns (ghost made': seq<Slot>)
      requires Valid() && HasTree(mem0, t, lvl) && i < ENTRIES && c !in mem0 && Small(View(mem0, t, lvl)[i], lvl, data0)
      requires |pool0| >= |AllFrames(View(mem0, t, lvl)[..i + 1], lvl)| && |top| == ENTRIES && top[i] == Zero
      requires Copying(mem0, data0, pool0, View(mem0, t, lvl), top, c, lvl, mem, data, pool, made, i)
      modifies this`mem, this`data, this`pool
      ensures Valid() && Copying(mem0, data0, pool0, View(mem0, t, lvl), top, c, lvl, mem, data, pool, made', i + 1)
      decreases lvl, 1, 0
    {
      ghost var src := View(mem0, t, lvl);
      ghost var mem1, data1, pool1 := mem, data, pool;
      assert Extends(mem0, mem1 - {c});
      SourceSlot(mem0, mem1 - {c}, t, i, lvl, data0, data1);
      FramesOfPrefix(src, i, lvl);
      ghost var slot := Absent(Zero);
      var e := mem[t][i];
      if e.f.present {
        CopySlot(c, i, e, lvl);
        slot := SlotOf(mem - mem1.Keys, mem[c][i], lvl);
      }
      CopyingGrows(mem0, data0, pool0, src, top, c, lvl, mem1, data1, pool1, mem, data, pool, made, i, slot);
      made' := made + [slot];
    }

    /** The copy of one present entry: a fresh frame with the kept flags, and below it
        a copy of the table or of the page. */
    method CopySlot(c: nat, i: nat, e: Entry, lvl: nat)
      requires Valid() && Copyable(mem, data, pool, c, i, e, lvl)
      modifies this`mem, this`data, this`pool
      ensures Valid() && SlotCopied(old(mem), old(data), old(pool), mem, data, pool, c, i, e, lvl)
      decreases lvl, 0, 1
    {
      if IsTable(e, lvl) {
        CopyTable(c, i, e, lvl);
      } else {
        CopyPage(c, i, e, lvl);
      }
    }

    /** A fresh frame for entry i of table c. */
    method TakeFrame(c: nat, i: nat, f: Flags) returns (g: nat)
      requires Valid() && c in mem && |mem[c]| == ENTRIES && i < ENTRIES && pool != []
      modifies this`mem, this`pool
      ensures Valid() && g == old(pool)[0] && pool == old(pool)[1..] && g !in mem && g !in data && g !in pool
      ensures mem.Keys == old(mem).Keys && mem == old(mem)[c := old(mem)[c][i := Entry(g, f)]]
    {
      g := pool[0];
      pool := pool[1..];
      mem := mem[c := mem[c][i := Entry(g, f)]];
    }

    method CopyTable(c: nat, i: nat, e: Entry, lvl: nat)
      requires Valid() && Copyable(mem, data, pool, c, i, e, lvl)
      requires IsTable(e, lvl)
      modifies this`mem, this`data, this`pool
      ensures Valid() && SlotCopied(old(mem), old(data), old(pool), mem, data, pool, c, i, e, lvl)
      decreases lvl, 0, 0
    {
      ghost var mem0, pool0 := mem, pool;
      ghost var slot := SlotOf(mem - {c}, e, lvl);
      var g := TakeFrame(c, i, Kept(e.f));
      ghost var mem1 := mem;
      SlotKept(mem0 - {c}, mem1, e, lvl);
      CopyPages(e.addr, g, lvl - 1);
      TableCopied(mem0, mem1, mem, slot, e, g, lvl, data, pool0);
    }

    method CopyPage(c: nat, i: nat, e: Entry, lvl: nat)
      requires Valid() && Copyable(mem, data, pool, c, i, e, lvl)
      requires !IsTable(e, lvl)
      modifies this`mem, this`data, this`pool
      ensures Valid() && SlotCopied(old(mem), old(data), old(pool), mem, data, pool, c, i, e, lvl)
    {
      ghost var mem0, pool0 := mem, pool;
      ghost var slot := SlotOf(mem - {c}, e, lvl);
      var g := TakeFrame(c, i, Kept(e.f));
      data := data[g := data[e.addr]];
      PageCopied(mem - mem0.Keys, slot, e, g, lvl, data, pool0);
    }

    /** The loop of paging_duplicate_lower over the lower half of the top level. */
    method CopyLower(cr3: nat, g: nat, ghost mem0: Mem, ghost data0: Data, ghost pool0: seq<nat>, ghost top: seq<Entry>)
      returns (ghost made: seq<Slot>)
      requires Valid() && HasTree(mem0, cr3, 3) && g !in mem0 && |top| == ENTRIES && forall i :: 0 <= i < 256 ==> top[i] == Zero
      requires AllSmall(View(mem0, cr3, 3)[..256], 3, data0) && |pool0| >= |AllFrames(View(mem0, cr3, 3)[..256], 3)|
      requires Copying(mem0, data0, pool0, View(mem0, cr3, 3), top, g, 3, mem, data, pool, [], 0)
      modifies this`mem, this`data, this`pool
      ensures Valid() && Copying(mem0, data0, pool0, View(mem0, cr3, 3), top, g, 3, mem, data, pool, made, 256)
    {
      ghost var src := View(mem0, cr3, 3);
      made := [];
      var i := 0;
      while i < 256
        invariant 0 <= i <= 256 && Valid() && Copying(mem0, data0, pool0, src, top, g, 3, mem, data, pool, made, i)
      {
        PrefixFramesFit(src[..256], i + 1, 3);
        assert src[..256][..i + 1] == src[..i + 1] && src[i] == src[..256][i];
        made := CopyEntry(cr3, g, i, 3, mem0, data0, pool0, top, made);
        i := i + 1;
      }
    }

    /** paging_duplicate_lower: a new space whose lower half is a copy and whose upper
        half is the kernel's. */
    method DuplicateLower(cr3: nat, kernel: nat) returns (g: nat)
      requires Valid() && HasTree(mem, cr3, 3) && HasTree(mem, kernel, 3)
      requires AllSmall(View(mem, cr3, 3)[..256], 3, data) && |pool| > |AllFrames(View(mem, cr3, 3)[..256], 3)|
      modifies this`mem, this`data, this`pool
      ensures Valid() && Extends(old(mem), mem) && Extends(old(data), data)
      ensures g == old(pool)[0] && HasTree(mem, g, 3) && (forall i :: 256 <= i < ENTRIES ==> mem[g][i] == mem[kernel][i])
      ensures AllCopied(View(old(mem), cr3, 3)[..256], View(mem, g, 3)[..256], data)
      ensures var n := |AllFrames(View(old(mem), cr3, 3)[..256], 3)|;
        [Chunk(g, 0)] + AllFrames(View(mem, g, 3)[..256], 3) == Chunks(old(pool)[..n + 1]) && pool == old(pool)[n + 1..]
    {
      ghost var mem0, data0 := mem, data;
      ghost var src := View(mem, cr3, 3);
      g := pool[0];
      FirstAndRest(pool, |AllFrames(src[..256], 3)|);
      pool := pool[1..];
      ghost var pool0 := pool;
      var top := S.NewRoot(mem[kernel]);
      mem := mem[g := top];
      NothingCopied(mem0, data0, pool0, src, top, g, 3);
      ghost var made := CopyLower(cr3, g, mem0, data0, pool0, top);
      SpaceMade(mem0, mem, kernel, g, top, made);
    }
  }

  /** Entry i of table c can receive a copy of entry e. */
  ghost predicate Copyable(mem: Mem, data: Data, pool: seq<nat>, c: nat, i: nat, e: Entry, lvl: nat) {
    && c in mem && |mem[c]| == ENTRIES && i < ENTRIES && e.f.present && SlotTree(mem - {c}, e, lvl)
    && Small(SlotOf(mem - {c}, e, lvl), lvl, data) && |pool| >= |Frames(SlotOf(mem - {c}, e, lvl), lvl)|
  }

  /** Entry i of table c is a copy of entry e in fresh frames, taken in order; nothing
      else changed. */
  ghost predicate SlotCopied(mem: Mem, data: Data, pool: seq<nat>, mem': Mem, data': Data, pool': seq<nat>, c: nat, i: nat, e: Entry, lvl: nat) {
    && Extends(mem - {c}, mem') && Extends(data, data')
    && c in mem && c in mem' && i < ENTRIES == |mem[c]| == |mem'[c]| && mem'[c] == mem[c][i := mem'[c][i]]
    && SlotTree(mem - {c}, e, lvl) && SlotTree(mem' - mem.Keys, mem'[c][i], lvl)
    && CopyOf(SlotOf(mem - {c}, e, lvl), SlotOf(mem' - mem.Keys, mem'[c][i], lvl), data')
    && var n := |Frames(SlotOf(mem - {c}, e, lvl), lvl)|;
    && n <= |pool| && Frames(SlotOf(mem' - mem.Keys, mem'[c][i], lvl), lvl) == Chunks(pool[..n]) && pool' == pool[n..]
  }

  /** What the copy of a table amounts to in the copy of its entry. */
  lemma {:induction false} TableCopied(mem0: Mem, mem1: Mem, mem: Mem, slot: Slot, e: Entry, g: nat, lvl: nat, data: Data, pool0: seq<nat>)
    requires slot.Table? && slot.f == e.f && IsTable(e, lvl) && lvl > 0 && mem1.Keys == mem0.Keys
    requires HasTree(mem - mem1.Keys, g, lvl - 1) && AllCopied(slot.kids, View(mem - mem1.Keys, g, lvl - 1), data)
    requires var n := |AllFrames(slot.kids, lvl - 1)|;
      n < |pool0| && g == pool0[0] && AllFrames(View(mem - mem1.Keys, g, lvl - 1), lvl - 1) == Chunks(pool0[1..][..n])
    ensures var e' := Entry(g, Kept(e.f));
      && SlotTree(mem - mem0.Keys, e', lvl) && CopyOf(slot, SlotOf(mem - mem0.Keys, e', lvl), data)
      && Frames(SlotOf(mem - mem0.Keys, e', lvl), lvl) == Chunks(pool0[..|Frames(slot, lvl)|])
      && pool0[1..][|AllFrames(slot.kids, lvl - 1)|..] == pool0[|Frames(slot, lvl)|..]
  {
    FirstAndRest(pool0, |AllFrames(slot.kids, lvl - 1)|);
  }

  lemma {:induction false} PageCopied(mem: Mem, slot: Slot, e: Entry, g: nat, lvl: nat, data: Data, pool0: seq<nat>)
    requires slot == Page(e.addr, e.f) && lvl == 0 && e.f.present && e.addr in data && g in data && data[g] == data[e.addr]
    requires 0 < |pool0| && g == pool0[0]
    ensures var e' := Entry(g, Kept(e.f));
      && SlotTree(mem, e', lvl) && CopyOf(slot, SlotOf(mem, e', lvl), data)
      && Frames(SlotOf(mem, e', lvl), lvl) == Chunks(pool0[..|Frames(slot, lvl)|]) && pool0[1..] == pool0[|Frames(slot, lvl)|..]
  {
    FirstAndRest(pool0, 0);
  }

  ghost predicate AllSmall(slots: seq<Slot>, lvl: nat, data: Data) {
    forall i :: 0 <= i < |slots| ==> Small(slots[i], lvl, data)
  }

  lemma {:induction false} FirstAndRest(pool: seq<nat>, n: nat)
    requires n + 1 <= |pool|
    ensures [Chunk(pool[0], 0)] + Chunks(pool[1..][..n]) == Chunks(pool[..n + 1]) && pool[1..][n..] == pool[n + 1..]
  {
  }

  /** The source of the copy is not disturbed. */
  lemma {:induction false} SourceSlot(mem: Mem, mem': Mem, t: nat, i: nat, lvl: nat, data: Data, data': Data)
    requires HasTree(mem, t, lvl) && i < ENTRIES && Extends(mem, mem') && Extends(data, data') && Small(View(mem, t, lvl)[i], lvl, data)
    ensures t in mem' && mem'[t] == mem[t] && SlotTree(mem', mem[t][i], lvl)
    ensures SlotOf(mem', mem[t][i], lvl) == View(mem, t, lvl)[i] && Small(View(mem, t, lvl)[i], lvl, data')
  {
    assert SlotTree(mem, mem[t][i], lvl);
    SlotKept(mem, mem', mem[t][i], lvl);
    SmallKept(View(mem, t, lvl)[i], lvl, data, data');
  }

  /** The first i entries of a table stand for `made`. */
  ghost predicate Partial(mem: Mem, table: seq<Entry>, lvl: nat, made: seq<Slot>, i: nat) {
    && i <= |table| && |made| == i
    && (forall k :: 0 <= k < i ==> SlotTree(mem, table[k], lvl) && SlotOf(mem, table[k], lvl) == made[k])
  }

  lemma {:induction false} PartialGrows(mem0: Mem, c: nat, mem: Mem, mem': Mem, table: seq<Entry>, lvl: nat, made: seq<Slot>, i: nat, slot: Slot)
    requires Partial(mem - (mem0.Keys + {c}), table, lvl, made, i) && i < |table| && c in mem && mem0.Keys <= mem.Keys
    requires Extends(mem - {c}, mem') && c in mem' && |mem'[c]| == |table| && mem'[c] == table[i := mem'[c][i]]
    requires SlotTree(mem' - mem.Keys, mem'[c][i], lvl) && slot == SlotOf(mem' - mem.Keys, mem'[c][i], lvl)
    ensures Partial(mem' - (mem0.Keys + {c}), mem'[c], lvl, made + [slot], i + 1)
  {
    var a, b := mem - (mem0.Keys + {c}), mem' - (mem0.Keys + {c});
    forall k | 0 <= k < i + 1 ensures SlotTree(b, mem'[c][k], lvl) && SlotOf(b, mem'[c][k], lvl) == (made + [slot])[k] {
      if k < i {
        SlotKept(a, b, table[k], lvl);
      } else {
        SlotKept(mem' - mem.Keys, b, mem'[c][i], lvl);
      }
    }
  }

  /** The first i entries of table c hold copies of the first i slots of `src`, made of
      the first frames of the pool. */
  ghost predicate Copying(mem0: Mem, data0: Data, pool0: seq<nat>, src: seq<Slot>, top: seq<Entry>, c: nat, lvl: nat,
                          mem: Mem, data: Data, pool: seq<nat>, made: seq<Slot>, i: nat) {
    && i <= |src| == ENTRIES && Extends(mem0, mem) && Extends(data0, data)
    && c in mem && |mem[c]| == ENTRIES == |top| && (forall k :: i <= k < ENTRIES ==> mem[c][k] == top[k])
    && Partial(mem - (mem0.Keys + {c}), mem[c], lvl, made, i) && AllCopied(src[..i], made, data)
    && var n := |AllFrames(src[..i], lvl)|;
    && n <= |pool0| && pool == pool0[n..] && AllFrames(made, lvl) == Chunks(pool0[..n])
  }

  lemma {:induction false} CopyingGrows(mem0: Mem, data0: Data, pool0: seq<nat>, src: seq<Slot>, top: seq<Entry>, c: nat, lvl: nat,
                                        mem: Mem, data: Data, pool: seq<nat>, mem': Mem, data': Data, pool': seq<nat>,
                                        made: seq<Slot>, i: nat, slot: Slot)
    requires Copying(mem0, data0, pool0, src, top, c, lvl, mem, data, pool, made, i) && i < ENTRIES && c !in mem0
    requires Extends(mem - {c}, mem') && Extends(data, data')
    requires c in mem' && |mem'[c]| == ENTRIES && mem'[c] == mem[c][i := mem'[c][i]]
    requires SlotTree(mem' - mem.Keys, mem'[c][i], lvl) && slot == SlotOf(mem' - mem.Keys, mem'[c][i], lvl)
    requires CopyOf(src[i], slot, data')
    requires var k := |Frames(src[i], lvl)|; k <= |pool| && Frames(slot, lvl) == Chunks(pool[..k]) && pool' == pool[k..]
    ensures Copying(mem0, data0, pool0, src, top, c, lvl, mem', data', pool', made + [slot], i + 1)
  {
    PartialGrows(mem0, c, mem, mem', mem[c], lvl, made, i, slot);
    CopiedGrows(src, made, i, slot, data, data');
    FramesOfPrefix(src, i, lvl);
    FramesGrow(made, slot, lvl, pool0, |AllFrames(src[..i], lvl)|, |Frames(src[i], lvl)|);
  }

  lemma {:induction false} NothingCopied(mem0: Mem, data0: Data, pool0: seq<nat>, src: seq<Slot>, top: seq<Entry>, c: nat, lvl: nat)
    requires c !in mem0 && |src| == ENTRIES == |top|
    ensures Copying(mem0, data0, pool0, src, top, c, lvl, mem0[c := top], data0, pool0, [], 0)
  {
    assert src[..0] == [] && pool0[0..] == pool0;
  }

  lemma {:induction false} CopiedGrows(src: seq<Slot>, made: seq<Slot>, i: nat, slot: Slot, data: Data, data': Data)
    requires i < |src| && AllCopied(src[..i], made, data) && Extends(data, data') && CopyOf(src[i], slot, data')
    ensures AllCopied(src[..i + 1], made + [slot], data')
  {
    forall k | 0 <= k < i + 1 ensures CopyOf(src[..i + 1][k], (made + [slot])[k], data') {
      if k < i {
        assert CopyOf(src[..i][k], made[k], data);
        CopyKept(src[k], made[k], data, data');
      }
    }
  }

  lemma {:induction false} FramesGrow(made: seq<Slot>, slot: Slot, lvl: nat, pool: seq<nat>, n: nat, k: nat)
    requires n + k <= |pool| && AllFrames(made, lvl) == Chunks(pool[..n]) && Frames(slot, lvl) == Chunks(pool[n..][..k])
    ensures AllFrames(made + [slot], lvl) == Chunks(pool[..n + k]) && pool[n..][k..] == pool[n + k..]
  {
    assert (made + [slot])[..|made|] == made;
    assert Chunks(pool[..n]) + Chunks(pool[n..][..k]) == Chunks(pool[..n + k]);
  }

  lemma {:induction false} Finish(mem0: Mem, mem: Mem, c: nat, lvl: nat, made: seq<Slot>)
    requires c in mem && c !in mem0 && |mem[c]| == ENTRIES && Partial(mem - (mem0.Keys + {c}), mem[c], lvl, made, ENTRIES)
    ensures HasTree(mem - mem0.Keys, c, lvl) && View(mem - mem0.Keys, c, lvl) == made
  {
    var a, b := mem - (mem0.Keys + {c}), mem - mem0.Keys;
    forall k | 0 <= k < ENTRIES ensures SlotTree(b, b[c][k], lvl) && SlotOf(b, b[c][k], lvl) == made[k] {
      SlotKept(a, b, mem[c][k], lvl);
    }
  }

  lemma {:induction false} SpaceMade(mem0: Mem, mem: Mem, kernel: nat, g: nat, top: seq<Entry>, made: seq<Slot>)
    requires HasTree(mem0, kernel, 3) && Extends(mem0, mem) && g in mem && g !in mem0 && |mem[g]| == ENTRIES && |top| == ENTRIES
    requires Partial(mem - (mem0.Keys + {g}), mem[g], 3, made, 256)
    requires forall i :: 256 <= i < ENTRIES ==> mem[g][i] == top[i] && top[i] == mem0[kernel][i]
    ensures HasTree(mem, g, 3) && View(mem, g, 3)[..256] == made
    ensures kernel in mem && |mem[kernel]| == ENTRIES && forall i :: 256 <= i < ENTRIES ==> mem[g][i] == mem[kernel][i]
  {
    var a := mem - (mem0.Keys + {g});
    forall k | 0 <= k < ENTRIES ensures SlotTree(mem, mem[g][k], 3) && (k < 256 ==> SlotOf(mem, mem[g][k], 3) == made[k]) {
      if k < 256 {
        SlotKept(a, mem, mem[g][k], 3);
      } else {
        assert SlotTree(mem0, mem0[kernel][k], 3);
        SlotKept(mem0, mem, mem0[kernel][k], 3);
      }
    }
  }

  // What fork and exit amount to.

  lemma {:induction false} LowerLookup(slots: seq<Slot>, path: seq<nat>)
    requires |path| == 4 && path[0] < 256 <= |slots|
    ensures Lookup(slots[..256], path, 3) == Lookup(slots, path, 3)
  {
  }

  /** After duplication every lower-half address is mapped in both spaces or in
      neither, with the same kept flags, to pages of equal contents. */
  lemma {:induction false} ForkTranslatesAlike(mem: Mem, cr3: nat, mem': Mem, g: nat, data: Data, path: seq<nat>)
    requires HasTree(mem, cr3, 3) && HasTree(mem', g, 3) && Extends(mem, mem') && |path| == 4 && path[0] < 256
    requires AllCopied(View(mem, cr3, 3)[..256], View(mem', g, 3)[..256], data)
    ensures Translate(mem', cr3, path, 3) == Translate(mem, cr3, path, 3)
    ensures TwinMappings(Translate(mem, cr3, path, 3), Translate(mem', g, path, 3), data)
  {
    ViewKept(mem, mem', cr3, 3);
    TranslateIsLookup(mem, cr3, path, 3);
    TranslateIsLookup(mem', cr3, path, 3);
    TranslateIsLookup(mem', g, path, 3);
    LowerLookup(View(mem, cr3, 3), path);
    LowerLookup(View(mem', g, 3), path);
    CopiesTranslateAlike(View(mem, cr3, 3)[..256], View(mem', g, 3)[..256], data, path, 3);
  }

  /** The copy owns fresh frames only: none of them held a table or a page before. */
  lemma {:induction false} ForkSharesNothing(mem: Mem, data: Data, pool: seq<nat>, n: nat, g: nat, copy: seq<Slot>, x: Chunk)
    requires PoolOK(pool, mem, data) && n < |pool| && [Chunk(g, 0)] + AllFrames(copy, 3) == Chunks(pool[..n + 1])
    requires x in [Chunk(g, 0)] + AllFrames(copy, 3)
    ensures x.lvl == 0 && x.addr !in mem && x.addr !in data && x.addr in pool
  {
    var i :| 0 <= i < n + 1 && Chunks(pool[..n + 1])[i] == x;
    assert x.addr == pool[i];
  }

  /** Freeing the copy releases exactly the frames that duplication allocated. */
  lemma {:induction false} ForkThenFree(pool: seq<nat>, n: nat, g: nat, copy: seq<Slot>)
    requires n < |pool| && [Chunk(g, 0)] + AllFrames(copy, 3) == Chunks(pool[..n + 1])
    ensures multiset(AllReleased(copy, 3) + [Chunk(g, 0)]) == multiset(Chunks(pool[..n + 1]))
  {
    AllReleasedIsFrames(copy, 3);
  }

  /** Every page mapped in the lower half is released, with its size. */
  lemma {:induction false} MappedPagesReleased(mem: Mem, root: nat, path: seq<nat>)
    requires HasTree(mem, root, 3) && |path| == 4 && path[0] < 256 && Translate(mem, root, path, 3).Some?
    ensures var m := Translate(mem, root, path, 3).value; Chunk(m.addr, m.lvl) in AllReleased(View(mem, root, 3)[..256], 3)
  {
    TranslateIsLookup(mem, root, path, 3);
    LowerLookup(View(mem, root, 3), path);
    MappedIsReleased(View(mem, root, 3)[..256], path, 3);
  }

  /** The spaces that the mapping operations keep in order are such trees. */
  lemma {:induction false} SpacesAreTrees(mem: Mem, tables: S.Tables, owner: S.Owners, pos: S.Pos)
    requires S.TreeOK(mem, tables, owner) && pos in tables
    ensures 0 <= S.Level(pos) && HasTree(mem, tables[pos], S.Level(pos))
    decreases S.Level(pos)
  {
    assert S.NodeOK(mem, tables, owner, pos);
    forall i | 0 <= i < ENTRIES ensures SlotTree(mem, mem[tables[pos]][i], S.Level(pos)) {
      assert S.EdgeOK(mem, tables, pos, i);
      if IsTable(mem[tables[pos]][i], S.Level(pos)) {
        S.ChildLevel(pos, i);
        SpacesAreTrees(mem, tables, owner, S.Child(pos, i));
      }
    }
  }

  /** The position below space root after the first n indices. */
  function Below(root: nat, path: seq<nat>, n: nat): S.Pos
    requires n <= |path|
  {
    if n == 0 then S.Root(root) else S.Lower(root, path[..n])
  }

  lemma {:induction false} AncestorsPresent(mem: Mem, tables: S.Tables, owner: S.Owners, root: nat, path: seq<nat>, n: nat)
    requires S.TreeOK(mem, tables, owner) && 0 < |path| <= 3 && S.Lower(root, path) in tables && n <= |path|
    ensures Below(root, path, n) in tables
    decreases |path| - n
  {
    if n == |path| {
      assert path[..n] == path;
    } else {
      AncestorsPresent(mem, tables, owner, root, path, n + 1);
      assert S.NodeOK(mem, tables, owner, Below(root, path, n + 1));
      var p := path[..n + 1];
      assert p[..|p| - 1] == path[..n];
    }
  }

  lemma {:induction false} TableFound(mem: Mem, tables: S.Tables, owner: S.Owners, root: nat, path: seq<nat>, n: nat)
    requires S.TreeOK(mem, tables, owner) && 0 < |path| <= 3 && path[0] < 256 && S.Lower(root, path) in tables && n < |path|
    requires forall i :: 0 <= i < |path| ==> path[i] < ENTRIES
    requires Below(root, path, n) in tables && HasTree(mem, tables[Below(root, path, n)], 3 - n)
    ensures TableIn(View(mem, tables[Below(root, path, n)], 3 - n), path[n..], 3 - n) == Some(tables[S.Lower(root, path)])
    decreases |path| - n
  {
    var pos := Below(root, path, n);
    AncestorsPresent(mem, tables, owner, root, path, n + 1);
    assert path[..n + 1] == path[..n] + [path[n]];
    assert S.NodeOK(mem, tables, owner, pos) && S.EdgeOK(mem, tables, pos, path[n]);
    assert S.Child(pos, path[n]) == Below(root, path, n + 1);
    var e := mem[tables[pos]][path[n]];
    assert SlotTree(mem, e, 3 - n) && View(mem, tables[pos], 3 - n)[path[n]] == SlotOf(mem, e, 3 - n);
    if n + 1 < |path| {
      TableFound(mem, tables, owner, root, path, n + 1);
      assert path[n..][1..] == path[n + 1..];
    } else {
      assert path[..n + 1] == path;
    }
  }

  /** Every table of a space's lower half is released. */
  lemma {:induction false} LowerTablesReleased(mem: Mem, tables: S.Tables, owner: S.Owners, root: nat, path: seq<nat>)
    requires S.TreeOK(mem, tables, owner) && S.Root(root) in tables && 0 < |path| <= 3 && path[0] < 256
    requires (forall i :: 0 <= i < |path| ==> path[i] < ENTRIES) && S.Lower(root, path) in tables
    ensures HasTree(mem, root, 3) && Chunk(tables[S.Lower(root, path)], 0) in AllReleased(View(mem, root, 3)[..256], 3)
  {
    assert S.NodeOK(mem, tables, owner, S.Root(root));
    SpacesAreTrees(mem, tables, owner, S.Root(root));
    TableFound(mem, tables, owner, root, path, 0);
    assert path[0..] == path;
    var lower := View(mem, root, 3)[..256];
    assert TableIn(lower, path, 3) == TableIn(View(mem, root, 3), path, 3);
    TableIsReleased(lower, path, 3);
  }

  /** Freeing the copy queues no frame twice. */
  lemma {:induction false} ForkReleasesOnce(mem: Mem, data: Data, pool: seq<nat>, n: nat, g: nat, copy: seq<Slot>, x: Chunk)
    requires PoolOK(pool, mem, data) && n < |pool| && [Chunk(g, 0)] + AllFrames(copy, 3) == Chunks(pool[..n + 1])
    ensures multiset(AllReleased(copy, 3) + [Chunk(g, 0)])[x] <= 1
  {
    ForkThenFree(pool, n, g, copy);
    OnceInDistinct(Chunks(pool[..n + 1]), x);
  }

  lemma {:induction false} OnceInDistinct(s: seq<Chunk>, x: Chunk)
    requires forall i, j :: 0 <= i < j < |s| ==> s[i] != s[j]
    ensures multiset(s)[x] <= 1
    decreases |s|
  {
    if s != [] {
      var rest, last := s[..|s| - 1], s[|s| - 1];
      OnceInDistinct(rest, x);
      assert s == rest + [last];
      assert last !in rest;
    }
  }
}
