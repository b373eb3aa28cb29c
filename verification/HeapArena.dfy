/**
  One arena of the kernel heap: block headers that tile the arena, boundary tags
  (previous-block pointers and the LAST flag), and a doubly linked free list
  threaded through the free blocks.
 */
module HeapArena {
  import opened Sequences

  const HEADER: nat := 32
  const ARENA_HEADER: nat := 32
  const ARENA_SIZE: nat := 0x200000
  const INIT_BLOCK: nat := ARENA_SIZE - ARENA_HEADER

  /** A block header. `size` counts the header itself; `link` is the next free
      block of a FREE block and the arena of a USED one (the source's union);
      `back` is the previous free block. Address 0 is the null pointer. */
  datatype Header = Header(size: nat, free: bool, last: bool, prev: nat, link: nat, back: nat)

  /** The headers of an arena, by address. */
  type Mem = map<nat, Header>

  function First(base: nat): nat {
    base + ARENA_HEADER
  }

  // Tiling.

  ghost predicate Aligned(x: nat) {
    x % 16 == 0
  }

  ghost predicate BlockOK(base: nat, mem: Mem, h: nat) {
    h in mem
    && var b := mem[h];
    && First(base) <= h && Aligned(h) && Aligned(b.size) && b.size >= HEADER
    && h + b.size <= base + ARENA_SIZE
    && (b.last <==> h + b.size == base + ARENA_SIZE)
    && (!b.last ==> h + b.size in mem && mem[h + b.size].prev == h)
    && (h == First(base) ==> b.prev == 0)
    && (h != First(base) ==> b.prev in mem && b.prev + mem[b.prev].size == h)
  }

  /** Block h ends before block k starts. */
  ghost predicate Apart(mem: Mem, h: nat, k: nat) {
    h in mem && k in mem && h < k ==> h + mem[h].size <= k
  }

  /** Blocks do not overlap, and every block ends where the next one starts. */
  ghost predicate Tiled(base: nat, mem: Mem) {
    && First(base) in mem
    && (forall h {:trigger BlockOK(base, mem, h)} :: h in mem ==> BlockOK(base, mem, h))
    && (forall h, k {:trigger Apart(mem, h, k)} :: Apart(mem, h, k))
  }

  /** `mem'` has the same blocks as `mem`; only links and USED/FREE may differ. */
  ghost predicate SameShape(mem: Mem, mem': Mem) {
    && mem'.Keys == mem.Keys
    && (forall h :: h in mem ==> mem'[h].size == mem[h].size && mem'[h].last == mem[h].last && mem'[h].prev == mem[h].prev)
  }

  ghost predicate SameFlags(mem: Mem, mem': Mem) {
    forall h :: h in mem && h in mem' ==> mem'[h].free == mem[h].free
  }

  lemma {:induction false} RelinkKeepsTiles(base: nat, mem: Mem, mem': Mem)
    requires Tiled(base, mem) && SameShape(mem, mem')
    ensures Tiled(base, mem')
  {
    forall h | h in mem' ensures BlockOK(base, mem', h) {
      assert BlockOK(base, mem, h);
    }
    forall h, k ensures Apart(mem', h, k) {
      assert Apart(mem, h, k);
    }
  }

  /** `mem'` is `mem` with block h cut after s bytes. */
  ghost predicate SplitShape(mem: Mem, h: nat, s: nat, mem': Mem)
    requires h in mem && s <= mem[h].size
  {
    && mem'.Keys == mem.Keys + {h + s}
    && mem'[h].size == s && !mem'[h].last && mem'[h].prev == mem[h].prev
    && mem'[h + s].size == mem[h].size - s && mem'[h + s].last == mem[h].last && mem'[h + s].prev == h
    && (forall k :: k in mem && k != h && k != h + s ==>
          mem'[k].size == mem[k].size && mem'[k].last == mem[k].last
          && mem'[k].prev == if k == h + mem[h].size then h + s else mem[k].prev)
  }

  lemma {:induction false} AlignedSplit(x: nat, s: nat)
    requires Aligned(x) && Aligned(s)
    ensures Aligned(x + s)
    ensures s <= x ==> Aligned(x - s)
  {
    var a, b := x / 16, s / 16;
    assert x == 16 * a && s == 16 * b;
    assert x + s == 16 * (a + b) && x - s == 16 * (a - b);
  }

  lemma {:induction false} SplitKeepsBlock(base: nat, mem: Mem, h: nat, s: nat, mem': Mem, k: nat)
    requires BlockOK(base, mem, h) && Aligned(s) && HEADER <= s && s + HEADER <= mem[h].size
    requires SplitShape(mem, h, s, mem') && h + s !in mem
    requires BlockOK(base, mem, k) && (k != h ==> k + mem[k].size != h + mem[h].size)
    ensures BlockOK(base, mem', k)
  {
    var b, b' := mem[k], mem'[k];
    if k != h {
      assert k + b.size != h + s;
      if k != First(base) && b.prev == h {
        assert b'.prev == h + s;
      }
    }
  }

  lemma {:induction false} SplitMakesBlock(base: nat, mem: Mem, h: nat, s: nat, mem': Mem)
    requires BlockOK(base, mem, h) && Aligned(s) && HEADER <= s && s + HEADER <= mem[h].size
    requires SplitShape(mem, h, s, mem') && h + s !in mem
    ensures BlockOK(base, mem', h + s)
  {
    AlignedSplit(h, s);
    AlignedSplit(mem[h].size, s);
  }

  lemma {:induction false} SplitKeepsApart(mem: Mem, h: nat, s: nat, mem': Mem, j: nat, k: nat)
    requires h in mem && HEADER <= s && s + HEADER <= mem[h].size
    requires SplitShape(mem, h, s, mem') && h + s !in mem
    requires Apart(mem, j, k) && Apart(mem, h, k) && Apart(mem, j, h) && Apart(mem, h, j)
    ensures Apart(mem', j, k)
  {
  }

  lemma {:induction false} SplitKeepsTiles(base: nat, mem: Mem, h: nat, s: nat, mem': Mem)
    requires Tiled(base, mem) && h in mem && Aligned(s) && HEADER <= s && s + HEADER <= mem[h].size
    requires SplitShape(mem, h, s, mem')
    ensures Tiled(base, mem')
  {
    assert BlockOK(base, mem, h);
    assert Apart(mem, h, h + s);
    forall k | k in mem' ensures BlockOK(base, mem', k) {
      if k == h + s {
        SplitMakesBlock(base, mem, h, s, mem');
      } else {
        assert BlockOK(base, mem, k) && Apart(mem, h, k) && Apart(mem, k, h);
        SplitKeepsBlock(base, mem, h, s, mem', k);
      }
    }
    forall j, k ensures Apart(mem', j, k) {
      assert Apart(mem, j, k) && Apart(mem, h, k) && Apart(mem, j, h) && Apart(mem, h, j);
      SplitKeepsApart(mem, h, s, mem', j, k);
    }
  }

  /** `mem'` is `mem` with block h grown over its successor. */
  ghost predicate MergeShape(mem: Mem, h: nat, mem': Mem)
    requires h in mem && h + mem[h].size in mem
  {
    var n := h + mem[h].size;
    && mem'.Keys == mem.Keys - {n}
    && h in mem'
    && mem'[h].size == mem[h].size + mem[n].size && mem'[h].last == mem[n].last && mem'[h].prev == mem[h].prev
    && (forall k :: k in mem && k != h && k != n ==>
          mem'[k].size == mem[k].size && mem'[k].last == mem[k].last
          && mem'[k].prev == if k == n + mem[n].size then h else mem[k].prev)
  }

  lemma {:induction false} MergeKeepsBlock(base: nat, mem: Mem, h: nat, mem': Mem, k: nat)
    requires BlockOK(base, mem, h) && !mem[h].last && BlockOK(base, mem, h + mem[h].size) && MergeShape(mem, h, mem')
    requires BlockOK(base, mem, k) && k != h + mem[h].size
    requires Apart(mem, h, k) && Apart(mem, k, h)
    ensures BlockOK(base, mem', k)
  {
    var n := h + mem[h].size;
    if k == h {
      AlignedSplit(mem[h].size, mem[n].size);
    } else {
      assert k + mem[k].size != n;
      if k != First(base) && mem[k].prev == n {
        assert mem'[k].prev == h;
      } else if k != First(base) {
        assert mem[k].prev != h;
        assert k != n + mem[n].size;
      }
    }
  }

  lemma {:induction false} MergeKeepsTiles(base: nat, mem: Mem, h: nat, mem': Mem)
    requires Tiled(base, mem) && h in mem && !mem[h].last && h + mem[h].size in mem && MergeShape(mem, h, mem')
    ensures Tiled(base, mem')
  {
    var n := h + mem[h].size;
    assert BlockOK(base, mem, h) && BlockOK(base, mem, n);
    forall k | k in mem' ensures BlockOK(base, mem', k) {
      assert BlockOK(base, mem, k) && Apart(mem, h, k) && Apart(mem, k, h);
      MergeKeepsBlock(base, mem, h, mem', k);
    }
    forall j, k ensures Apart(mem', j, k) {
      assert Apart(mem, j, k) && Apart(mem, n, k);
      MergeKeepsApart(mem, h, mem', j, k);
    }
  }

  lemma {:induction false} MergeKeepsApart(mem: Mem, h: nat, mem': Mem, j: nat, k: nat)
    requires h in mem && mem[h].size > 0 && h + mem[h].size in mem && MergeShape(mem, h, mem')
    requires Apart(mem, j, k) && Apart(mem, h + mem[h].size, k)
    ensures Apart(mem', j, k)
  {
  }

  /** The block that holds an address. */
  ghost function BlockAt(base: nat, mem: Mem, h: nat, a: nat): (k: nat)
    requires Tiled(base, mem) && h in mem && h <= a < base + ARENA_SIZE
    ensures k in mem && k <= a < k + mem[k].size
    decreases base + ARENA_SIZE - h
  {
    assert BlockOK(base, mem, h);
    if a < h + mem[h].size then h else BlockAt(base, mem, h + mem[h].size, a)
  }

  /** Exact tiling: every byte behind the arena header lies in exactly one block. */
  lemma {:induction false} BlocksTileArena(base: nat, mem: Mem, a: nat)
    requires Tiled(base, mem) && First(base) <= a < base + ARENA_SIZE
    ensures exists h :: h in mem && h <= a < h + mem[h].size
    ensures forall h, k :: h in mem && k in mem && h <= a < h + mem[h].size && k <= a < k + mem[k].size ==> h == k
  {
    var h := BlockAt(base, mem, First(base), a);
    assert h in mem && h <= a < h + mem[h].size;
    forall j, k | j in mem && k in mem && j <= a < j + mem[j].size && k <= a < k + mem[k].size ensures j == k {
      assert Apart(mem, j, k) && Apart(mem, k, j);
    }
  }

  // Coalescing.

  /** Block h and its successor are both free. */
  ghost predicate FreePair(mem: Mem, h: nat) {
    h in mem && mem[h].free && h + mem[h].size in mem && mem[h + mem[h].size].free
  }

  ghost predicate Coalesced(mem: Mem) {
    forall h {:trigger FreePair(mem, h)} :: !FreePair(mem, h)
  }

  /** With nothing in use, a coalesced arena is one free block. */
  lemma {:induction false} NothingUsedIsOneBlock(base: nat, mem: Mem)
    requires Tiled(base, mem) && Coalesced(mem) && forall h :: h in mem ==> mem[h].free
    ensures mem.Keys == {First(base)} && mem[First(base)].size == INIT_BLOCK
  {
    var f := First(base);
    assert BlockOK(base, mem, f);
    assert !FreePair(mem, f);
    forall h | h in mem ensures h == f {
      assert BlockOK(base, mem, h) && Apart(mem, f, h);
    }
  }

  // The free list.

  ghost predicate Linked(mem: Mem, head: nat, list: seq<nat>) {
    && head == At(list, 0) && 0 !in mem
    && (forall i {:trigger NodeOK(mem, list, i)} :: NodeOK(mem, list, i))
    && Distinct(list)
  }

  ghost predicate NodeOK(mem: Mem, list: seq<nat>, i: int) {
    0 <= i < |list| ==>
      list[i] in mem && mem[list[i]].link == At(list, i + 1) && mem[list[i]].back == At(list, i - 1)
  }

  /** The list holds exactly the FREE blocks. */
  ghost predicate Exact(mem: Mem, list: seq<nat>) {
    forall h :: h in mem ==> (mem[h].free <==> h in list)
  }

  /** `mem'` is `mem` with element i of the list taken out of the chain. */
  ghost predicate Unlinks(mem: Mem, list: seq<nat>, i: nat, mem': Mem)
    requires i < |list|
  {
    && mem'.Keys == mem.Keys
    && (forall h :: h in mem ==>
          mem'[h] == mem[h].(link := if i > 0 && h == list[i - 1] then At(list, i + 1) else mem[h].link,
                             back := if h == At(list, i + 1) then At(list, i - 1) else mem[h].back))
  }

  lemma {:induction false} UnlinkEffect(mem: Mem, head: nat, list: seq<nat>, i: nat, mem': Mem, head': nat)
    requires Linked(mem, head, list) && i < |list| && Unlinks(mem, list, i, mem')
    requires head' == if i == 0 then At(list, 1) else head
    ensures Linked(mem', head', Without(list, i))
  {
    forall j ensures NodeOK(mem', Without(list, i), j) {
      UnlinkAt(mem, head, list, i, mem', j);
    }
    WithoutAt(list, i, 0);
    WithoutDistinct(list, i);
  }

  lemma {:induction false} UnlinkAt(mem: Mem, head: nat, list: seq<nat>, i: nat, mem': Mem, j: int)
    requires Linked(mem, head, list) && i < |list| && Unlinks(mem, list, i, mem')
    ensures NodeOK(mem', Without(list, i), j)
  {
    var short := Without(list, i);
    if 0 <= j < |short| {
      var k := if j < i then j else j + 1;
      assert NodeOK(mem, list, k);
      WithoutAt(list, i, j);
      WithoutAt(list, i, j + 1);
      WithoutAt(list, i, j - 1);
    }
  }

  lemma {:induction false} ListInMem(mem: Mem, head: nat, list: seq<nat>, x: nat)
    requires Linked(mem, head, list) && x in list
    ensures x in mem
  {
    var i :| 0 <= i < |list| && list[i] == x;
    assert NodeOK(mem, list, i);
  }

  /** The list only depends on the links of the blocks on it. */
  lemma {:induction false} RelinkList(mem: Mem, head: nat, list: seq<nat>, mem': Mem)
    requires Linked(mem, head, list) && 0 !in mem'
    requires forall h :: h in mem && h in list ==> h in mem' && mem'[h].link == mem[h].link && mem'[h].back == mem[h].back
    ensures Linked(mem', head, list)
  {
    forall j ensures NodeOK(mem', list, j) {
      assert NodeOK(mem, list, j);
    }
  }

  /** `mem'` is `mem` with x chained in front of list position i. */
  ghost predicate Chains(mem: Mem, list: seq<nat>, i: nat, x: nat, mem': Mem)
    requires i <= |list|
  {
    && mem'.Keys == mem.Keys + {x}
    && mem'[x].link == At(list, i) && mem'[x].back == At(list, i - 1)
    && (forall h :: h in mem && h != x ==>
          && mem'[h].link == (if i > 0 && h == list[i - 1] then x else mem[h].link)
          && mem'[h].back == (if i < |list| && h == list[i] then x else mem[h].back))
  }

  lemma {:induction false} ChainAt(mem: Mem, head: nat, list: seq<nat>, i: nat, x: nat, mem': Mem, j: int)
    requires Linked(mem, head, list) && i <= |list| && x !in list && Chains(mem, list, i, x, mem')
    ensures NodeOK(mem', Inserted(list, i, x), j)
  {
    var long := Inserted(list, i, x);
    if 0 <= j < |long| {
      InsertedAt(list, i, x, j);
      InsertedAt(list, i, x, j + 1);
      InsertedAt(list, i, x, j - 1);
      var k := if j < i then j else j - 1;
      if j != i {
        assert NodeOK(mem, list, k);
      }
    }
  }

  lemma {:induction false} ChainEffect(mem: Mem, head: nat, list: seq<nat>, i: nat, x: nat, mem': Mem, head': nat)
    requires Linked(mem, head, list) && i <= |list| && x != 0 && x !in list && Chains(mem, list, i, x, mem')
    requires head' == if i == 0 then x else head
    ensures Linked(mem', head', Inserted(list, i, x))
  {
    forall j ensures NodeOK(mem', Inserted(list, i, x), j) {
      ChainAt(mem, head, list, i, x, mem', j);
    }
    InsertedAt(list, i, x, 0);
    InsertedDistinct(list, i, x);
  }

  /** The three writes that put x behind h, in front of `after`. */
  function ChainedAfter(mem: Mem, h: nat, x: nat, after: nat): Mem
    requires h in mem && x in mem && (after != 0 ==> after in mem)
  {
    var m1 := mem[x := mem[x].(link := after, back := h)];
    var m2 := if after != 0 then m1[after := m1[after].(back := x)] else m1;
    m2[h := m2[h].(link := x)]
  }

  lemma {:induction false} ChainWrites(mem: Mem, head: nat, list: seq<nat>, i: nat, h: nat, x: nat, after: nat)
    requires Linked(mem, head, list) && i < |list| && list[i] == h && x in mem && x !in list
    requires h in mem && after == mem[h].link == At(list, i + 1) && (after != 0 ==> after in mem)
    ensures Chains(mem, list, i + 1, x, ChainedAfter(mem, h, x, after))
    ensures var m := ChainedAfter(mem, h, x, after);
      forall k :: k in mem ==> k in m && m[k] == mem[k].(link := m[k].link, back := m[k].back)
  {
    assert after != 0 ==> after != h && after == list[i + 1];
  }

  /** USED blocks remember their arena. */
  ghost predicate Tagged(base: nat, mem: Mem) {
    forall h :: h in mem && !mem[h].free ==> mem[h].link == base
  }

  lemma {:induction false} RelinkOutside(mem: Mem, head: nat, list: seq<nat>, h: nat, mem': Mem)
    requires Linked(mem, head, list) && h in mem && h in mem' && h !in list && mem' == mem[h := mem'[h]]
    ensures Linked(mem', head, list)
  {
    forall j ensures NodeOK(mem', list, j) {
      assert NodeOK(mem, list, j);
    }
  }

  /** `mem` as it would be with block h marked FREE or USED. */
  function Marked(mem: Mem, h: nat, free: bool): Mem
    requires h in mem
  {
    mem[h := mem[h].(free := free)]
  }

  /** `mem'` is `mem` with only block h turned from FREE to USED. */
  ghost predicate Claims(mem: Mem, h: nat, mem': Mem) {
    && SameShape(mem, mem')
    && (forall k :: k in mem ==> mem'[k].free == (k != h && mem[k].free))
  }

  lemma {:induction false} ClaimEffect(base: nat, mem: Mem, list: seq<nat>, h: nat, i: nat, mem': Mem, mem'': Mem)
    requires h in mem && i < |list| && list[i] == h && Distinct(list)
    requires Exact(Marked(mem, h, true), list) && Tagged(base, Marked(mem, h, true))
    requires Unlinks(Marked(mem, h, false), list, i, mem') && mem'' == mem'[h := mem'[h].(link := base)]
    ensures h !in Without(list, i)
    ensures Exact(mem'', Without(list, i)) && Tagged(base, mem'')
    ensures Claims(mem, h, mem'')
  {
    WithoutHas(list, i, h);
    forall k | k in mem'' ensures mem''[k].free <==> k in Without(list, i) {
      WithoutHas(list, i, k);
      assert k in Marked(mem, h, true);
    }
    forall k | k in mem'' ensures !mem''[k].free ==> mem''[k].link == base {
      if k != h && !mem''[k].free {
        assert k in Marked(mem, h, true) && k !in list;
      }
    }
  }

  lemma {:induction false} ClaimKeepsTiles(base: nat, mem: Mem, h: nat, mem': Mem)
    requires Tiled(base, mem) && Coalesced(mem) && Claims(mem, h, mem')
    ensures Tiled(base, mem') && Coalesced(mem')
  {
    RelinkKeepsTiles(base, mem, mem');
    forall k ensures !FreePair(mem', k) {
      assert !FreePair(mem, k);
    }
  }

  lemma {:induction false} SplitCoalesced(base: nat, mem: Mem, list: seq<nat>, h: nat, s: nat, i: nat, mem': Mem)
    requires Tiled(base, mem) && Coalesced(mem) && i < |list| && h in mem && 0 < s < mem[h].size && h + s !in mem
    requires mem[h].free && Splits(mem, list, h, s, i, mem')
    ensures Coalesced(mem')
  {
    var x := h + s;
    assert BlockOK(base, mem, h) && !FreePair(mem, h);
    forall k: nat ensures !FreePair(mem', k) {
      if k == x {
        assert x + mem'[x].size == h + mem[h].size != x;
      } else if k in mem && k != h {
        assert !FreePair(mem, k) && BlockOK(base, mem, k);
        assert k + mem'[k].size == k + mem[k].size != x;
      }
    }
  }

  lemma {:induction false} SplitLists(base: nat, mem: Mem, head: nat, list: seq<nat>, h: nat, s: nat, i: nat, mem': Mem)
    requires Linked(mem, head, list) && Exact(mem, list) && Tagged(base, mem)
    requires i < |list| && list[i] == h && h in mem && 0 < s <= mem[h].size && h + s !in mem
    requires Splits(mem, list, h, s, i, mem')
    ensures Exact(Marked(mem', h, true), Inserted(list, i + 1, h + s)) && Tagged(base, Marked(mem', h, true))
  {
    var x, m := h + s, Marked(mem', h, true);
    forall k | k in m ensures m[k].free <==> k in Inserted(list, i + 1, x) {
      InsertedHas(list, i + 1, x, k);
      if k == x {
        assert m[k].free;
      }
    }
    forall k | k in m ensures !m[k].free ==> m[k].link == base {
      if !m[k].free {
        assert k in mem && k !in list;
      }
    }
  }

  /** Everything a split does: h keeps s bytes and is no longer FREE, the rest is a
      FREE block chained behind h. */
  ghost predicate Splits(mem: Mem, list: seq<nat>, h: nat, s: nat, i: nat, mem': Mem)
    requires h in mem && s <= mem[h].size && i < |list|
  {
    && SplitShape(mem, h, s, mem')
    && Chains(mem, list, i + 1, h + s, mem')
    && mem'[h + s].free && !mem'[h].free
    && (forall k :: k in mem && k != h ==> mem'[k].free == mem[k].free)
  }

  /** What a caller sees: the live blocks and their sizes. */
  ghost function Live(mem: Mem): map<nat, nat> {
    map h | h in mem && !mem[h].free :: mem[h].size
  }

  lemma {:induction false} LiveAfterSplit(mem: Mem, list: seq<nat>, h: nat, s: nat, i: nat, mem': Mem, mem'': Mem)
    requires h in mem && 0 < s <= mem[h].size && i < |list| && h + s !in mem && mem[h].free
    requires Splits(mem, list, h, s, i, mem') && Claims(mem', h, mem'')
    ensures Live(mem'') == Live(mem)[h := s]
  {
    assert mem''[h].size == s;
    forall k ensures k in Live(mem'') <==> k in Live(mem)[h := s] {
    }
  }

  /** Everything absorbing the successor does: the merged block keeps the links and
      the USED/FREE state of its first half. */
  ghost predicate Absorbs(mem: Mem, h: nat, mem': Mem)
    requires h in mem && h + mem[h].size in mem
  {
    && MergeShape(mem, h, mem')
    && (forall k :: k in mem' ==> mem'[k].free == mem[k].free && mem'[k].link == mem[k].link && mem'[k].back == mem[k].back)
  }

  lemma AbsorbEffect(mem: Mem, h: nat, n: nat, next: nat, mem': Mem)
    requires h in mem && n == h + mem[h].size && n in mem && n != h && mem'.Keys == mem.Keys - {n}
    requires next != h && next != n && (if next == 0 then n + mem[n].size !in mem else next == n + mem[n].size && next in mem)
    requires mem'[h] == mem[h].(size := mem[h].size + mem[n].size, last := mem[n].last)
    requires next != 0 ==> mem'[next] == mem[next].(prev := h)
    requires forall k :: k in mem' && k != h && (k != next || next == 0) ==> mem'[k] == mem[k]
    ensures Absorbs(mem, h, mem')
  {
  }

  /** All of the invariant except that h may have a free successor. */
  ghost predicate Open(base: nat, mem: Mem, head: nat, list: seq<nat>, h: nat) {
    && Tiled(base, mem) && Linked(mem, head, list) && Exact(mem, list) && Tagged(base, mem)
    && h in mem && mem[h].free
    && (forall k {:trigger FreePair(mem, k)} :: FreePair(mem, k) ==> k == h)
  }

  /** Freeing h by growing its free predecessor p over it. */
  lemma {:induction false} JoinPrevEffect(base: nat, mem: Mem, head: nat, list: seq<nat>, p: nat, mem': Mem)
    requires Tiled(base, mem) && Coalesced(mem) && Linked(mem, head, list) && Exact(mem, list) && Tagged(base, mem)
    requires p in mem && mem[p].free && !mem[p].last && p + mem[p].size in mem && Absorbs(mem, p, mem')
    ensures Open(base, mem', head, list, p)
    ensures Live(mem') == Live(mem) - {p + mem[p].size}
  {
    var h := p + mem[p].size;
    assert BlockOK(base, mem, p) && BlockOK(base, mem, h) && !FreePair(mem, p);
    MergeKeepsTiles(base, mem, p, mem');
    RelinkList(mem, head, list, mem');
    forall k: nat | FreePair(mem', k) ensures k == p {
      assert !FreePair(mem, k);
    }
  }

  /** Closing the hole: h grows over its free successor, which has left the list. */
  lemma {:induction false} JoinNextTiles(base: nat, mem: Mem, h: nat, mem1: Mem, mem': Mem)
    requires Tiled(base, mem) && h in mem && mem[h].free
    requires forall k {:trigger FreePair(mem, k)} :: FreePair(mem, k) ==> k == h
    requires !mem[h].last && h + mem[h].size in mem && mem[h + mem[h].size].free
    requires SameShape(mem, mem1) && SameFlags(mem, mem1) && Absorbs(mem1, h, mem')
    ensures Tiled(base, mem') && Coalesced(mem') && Live(mem') == Live(mem)
  {
    var n := h + mem[h].size;
    assert BlockOK(base, mem, h) && BlockOK(base, mem, n) && !FreePair(mem, n);
    RelinkKeepsTiles(base, mem, mem1);
    MergeKeepsTiles(base, mem1, h, mem');
    forall k: nat ensures !FreePair(mem', k) {
      assert FreePair(mem, k) ==> k == h;
    }
    assert Live(mem') == Live(mem);
  }

  lemma {:induction false} JoinNextLists(base: nat, mem: Mem, list: seq<nat>, h: nat, i: nat, mem1: Mem, head': nat, mem': Mem)
    requires Exact(mem, list) && Tagged(base, mem) && Distinct(list) && i < |list|
    requires Unlinks(mem, list, i, mem1) && Linked(mem1, head', Without(list, i))
    requires h in mem1 && h + mem1[h].size in mem1 && list[i] == h + mem1[h].size && Absorbs(mem1, h, mem')
    ensures Linked(mem', head', Without(list, i)) && Exact(mem', Without(list, i)) && Tagged(base, mem')
  {
    var n, short := h + mem1[h].size, Without(list, i);
    WithoutHas(list, i, n);
    RelinkList(mem1, head', short, mem');
    forall k | k in mem' ensures mem'[k].free <==> k in short {
      WithoutHas(list, i, k);
    }
    forall k | k in mem' ensures !mem'[k].free ==> mem'[k].link == base {
      if !mem'[k].free {
        assert k in mem && k !in list;
      }
    }
  }

  /** Freeing h, which has no free predecessor, by pushing it on the free list. */
  lemma {:induction false} PushEffect(base: nat, mem: Mem, head: nat, list: seq<nat>, h: nat, mem': Mem)
    requires Tiled(base, mem) && Coalesced(mem) && Linked(mem, head, list) && Exact(mem, list) && Tagged(base, mem)
    requires h in mem && !mem[h].free && h != 0 && (mem[h].prev in mem ==> !mem[mem[h].prev].free)
    requires Chains(mem, list, 0, h, mem') && SameShape(mem, mem')
    requires forall k :: k in mem ==> mem'[k].free == (k == h || mem[k].free)
    ensures Open(base, mem', h, Inserted(list, 0, h), h)
    ensures Live(mem') == Live(mem) - {h}
  {
    RelinkKeepsTiles(base, mem, mem');
    ChainEffect(mem, head, list, 0, h, mem', h);
    forall k: nat | FreePair(mem', k) ensures k == h {
      assert !FreePair(mem, k) && BlockOK(base, mem, k) && BlockOK(base, mem, h);
    }
    forall k | k in mem' ensures mem'[k].free <==> k in Inserted(list, 0, h) {
      InsertedHas(list, 0, h, k);
    }
  }

  /** An arena: its free-list head and headers change in place. `list` is the free
      list as a sequence, `live` the blocks in use. */
  /** The block at k now ends where h ended, and what follows is as it was. */
  ghost predicate SameBehind(mem: Mem, h: nat, mem': Mem, k: nat)
    requires h in mem
  {
    var n := h + mem[h].size;
    && k in mem' && k + mem'[k].size == n && mem'[k].last == mem[h].last
    && (n in mem' <==> n in mem) && (n in mem' ==> mem'[n].free == mem[n].free)
  }

  lemma {:induction false} PushBehind(base: nat, mem: Mem, h: nat, mem': Mem)
    requires Tiled(base, mem) && h in mem && SameShape(mem, mem') && forall k :: k in mem ==> mem'[k].free == (k == h || mem[k].free)
    ensures SameBehind(mem, h, mem', h)
  {
    assert BlockOK(base, mem, h);
  }

  function Rejoined(mem: Mem, list: seq<nat>, h: nat): seq<nat>
    requires h in mem
  {
    if mem[h].prev in mem && mem[mem[h].prev].free then list else Inserted(list, 0, h)
  }

  /** The free list without the block behind h, if that is free. */
  ghost predicate Grew(mem: Mem, list: seq<nat>, h: nat, list': seq<nat>)
    requires h in mem
  {
    var n := h + mem[h].size;
    if !mem[h].last && n in mem && mem[n].free then exists i :: 0 <= i < |list| && list[i] == n && list' == Without(list, i)
    else list' == list
  }

  /** The free list after kfree of h: h is in front unless the block before it absorbed it,
      and the block behind it is gone if it was free. */
  ghost predicate Reclaimed(mem: Mem, list: seq<nat>, h: nat, list': seq<nat>)
    requires h in mem
  {
    Grew(mem, Rejoined(mem, list, h), h, list')
  }

  lemma {:induction false} GrewFrom(mem: Mem, h: nat, mem': Mem, k: nat, list: seq<nat>, list': seq<nat>)
    requires h in mem && SameBehind(mem, h, mem', k) && Grew(mem', list, k, list')
    ensures Grew(mem, list, h, list')
  {
  }

  class Arena {
    const base: nat
    var mem: Mem
    var free: nat
    ghost var list: seq<nat>
    ghost var live: map<nat, nat>

    ghost predicate Valid()
      reads this
    {
      && base > 0 && Aligned(base)
      && Tiled(base, mem) && Coalesced(mem)
      && Linked(mem, free, list) && Exact(mem, list)
      && Tagged(base, mem) && live == Live(mem)
    }

    /** A new arena is one free block. */
    constructor (base: nat)
      requires base > 0 && Aligned(base)
      ensures Valid() && this.base == base && live == map[]
      ensures mem == map[First(base) := Header(INIT_BLOCK, true, true, 0, 0, 0)]
      ensures free == First(base) && list == [First(base)]
    {
      this.base := base;
      mem := map[First(base) := Header(INIT_BLOCK, true, true, 0, 0, 0)];
      free := First(base);
      list, live := [First(base)], map[];
      new;
      AlignedSplit(base, 32);
    }

    /** The search loop of kmalloc: the first block on the free list that holds s
        bytes, or 0 when no free block does. */
    method FindFit(s: nat) returns (h: nat, ghost i: nat)
      requires Valid()
      ensures h == 0 ==> forall k :: k in mem && mem[k].free ==> mem[k].size < s
      ensures h != 0 ==> i < |list| && list[i] == h && h in mem && mem[h].size >= s
      ensures h != 0 ==> forall j :: 0 <= j < i ==> list[j] in mem && mem[list[j]].size < s
    {
      h := free;
      i := 0;
      assert NodeOK(mem, list, 0);
      while h != 0 && mem[h].size < s
        invariant i <= |list| && h == At(list, i) && (h != 0 ==> h in mem) && (h == 0 <==> i == |list|)
        invariant forall j :: 0 <= j < i ==> list[j] in mem && mem[list[j]].size < s
        decreases |list| - i
      {
        assert NodeOK(mem, list, i) && NodeOK(mem, list, i + 1);
        h := mem[h].link;
        i := i + 1;
      }
    }

    /** The block after h, or 0. */
    function Next(h: nat): (n: nat)
      requires h in mem
      reads this
    {
      if mem[h].last then 0 else h + mem[h].size
    }

    /** patch_list: takes the block at list position i out of the free list. */
    method PatchList(h: nat, ghost i: nat)
      requires Linked(mem, free, list) && i < |list| && list[i] == h
      modifies this`mem, this`free, this`list
      ensures list == Without(old(list), i) && Linked(mem, free, list)
      ensures Unlinks(old(mem), old(list), i, mem)
    {
      ghost var mem0, free0 := mem, free;
      assert NodeOK(mem, list, i) && NodeOK(mem, list, i - 1) && NodeOK(mem, list, i + 1);
      var next := mem[h].link;
      if mem[h].back != 0 {
        var before := mem[h].back;
        mem := mem[before := mem[before].(link := next)];
        if next != 0 {
          mem := mem[next := mem[next].(back := before)];
        }
      } else {
        free := next;
        if next != 0 {
          mem := mem[next := mem[next].(back := 0)];
        }
      }
      UnlinkEffect(mem0, free0, list, i, mem, free);
      list := Without(list, i);
    }

    /** The tiling half of a split: block h keeps s bytes, the rest becomes a block
        of its own. */
    method Cut(h: nat, s: nat)
      requires Tiled(base, mem) && h in mem && HEADER <= s && s + HEADER < mem[h].size
      modifies this`mem
      ensures h + s !in old(mem) && SplitShape(old(mem), h, s, mem)
      ensures mem[h + s].free && !mem[h].free
      ensures forall k :: k in old(mem) ==> mem[k].link == old(mem)[k].link && mem[k].back == old(mem)[k].back
      ensures forall k :: k in old(mem) && k != h ==> mem[k].free == old(mem)[k].free
    {
      assert BlockOK(base, mem, h) && Apart(mem, h, h + s);
      assert mem[h].last ==> h + mem[h].size in mem ==> BlockOK(base, mem, h + mem[h].size);
      var x, rest := h + s, mem[h].size - s;
      if mem[h].last {
        mem := mem[x := Header(rest, true, true, h, 0, 0)];
      } else {
        var next := h + mem[h].size;
        mem := mem[x := Header(rest, true, false, h, 0, 0)];
        mem := mem[next := mem[next].(prev := x)];
      }
      mem := mem[h := mem[h].(size := s, free := false, last := false)];
    }

    /** The list half of a split: x follows h on the free list. */
    method ChainAfter(h: nat, x: nat, ghost i: nat)
      requires Linked(mem, free, list) && i < |list| && list[i] == h && x in mem && x !in list
      modifies this`mem, this`list
      ensures list == Inserted(old(list), i + 1, x) && Linked(mem, free, list)
      ensures Chains(old(mem), old(list), i + 1, x, mem)
      ensures forall k :: k in old(mem) ==> mem[k] == old(mem)[k].(link := mem[k].link, back := mem[k].back)
    {
      ghost var mem0 := mem;
      assert NodeOK(mem, list, i) && NodeOK(mem, list, i + 1);
      var after := mem[h].link;
      ChainWrites(mem, free, list, i, h, x, after);
      mem := mem[x := mem[x].(link := after, back := h)];
      if after != 0 {
        mem := mem[after := mem[after].(back := x)];
      }
      mem := mem[h := mem[h].(link := x)];
      assert mem == ChainedAfter(mem0, h, x, after);
      ChainEffect(mem0, free, list, i + 1, x, mem, free);
      list := Inserted(list, i + 1, x);
    }

    /** The splitting branch of alloc. */
    method Split(h: nat, s: nat, ghost i: nat)
      requires Tiled(base, mem) && Linked(mem, free, list) && i < |list| && list[i] == h
      requires h in mem && HEADER <= s && s + HEADER < mem[h].size
      modifies this`mem, this`list
      ensures h + s !in old(mem) && Splits(old(mem), old(list), h, s, i, mem)
      ensures list == Inserted(old(list), i + 1, h + s) && Linked(mem, free, list)
    {
      ghost var mem0 := mem;
      Cut(h, s);
      if h + s in list {
        ListInMem(mem0, free, list, h + s);
      }
      RelinkList(mem0, free, list, mem);
      ChainAfter(h, h + s, i);
    }

    /** The common end of alloc: block h is marked USED, leaves the free list and
        remembers its arena. */
    method Claim(h: nat, ghost i: nat)
      requires base > 0 && Aligned(base) && Tiled(base, mem) && Coalesced(mem)
      requires Linked(mem, free, list) && i < |list| && list[i] == h && h in mem
      requires Exact(Marked(mem, h, true), list) && Tagged(base, Marked(mem, h, true))
      modifies this
      ensures Valid() && Claims(old(mem), h, mem) && list == Without(old(list), i)
    {
      ghost var mem0, list0 := mem, list;
      mem := mem[h := mem[h].(free := false)];
      RelinkList(mem0, free, list, mem);
      PatchList(h, i);
      ghost var mem1 := mem;
      mem := mem[h := mem[h].(link := base)];
      ClaimEffect(base, mem0, list0, h, i, mem1, mem);
      RelinkOutside(mem1, free, list, h, mem);
      ClaimKeepsTiles(base, mem0, h, mem);
      live := Live(mem);
    }

    /** alloc with a split. */
    method AllocPart(h: nat, s: nat, ghost i: nat)
      requires Valid() && i < |list| && list[i] == h
      requires h in mem && Aligned(s) && HEADER <= s && s + HEADER < mem[h].size
      modifies this
      ensures Valid() && h in mem && mem[h].size == s && live == old(live)[h := s]
      ensures list == Without(Inserted(old(list), i + 1, h + s), i)
    {
      ghost var mem0, list0 := mem, list;
      Split(h, s, i);
      SplitCoalesced(base, mem0, list0, h, s, i, mem);
      SplitLists(base, mem0, free, list0, h, s, i, mem);
      SplitKeepsTiles(base, mem0, h, s, mem);
      InsertedAt(list0, i + 1, h + s, i);
      ghost var mem1 := mem;
      Claim(h, i);
      LiveAfterSplit(mem0, list0, h, s, i, mem1, mem);
    }

    /** alloc: takes the free block h for a request of s bytes, splitting it when
        more than a header would be left over. */
    method Alloc(h: nat, s: nat, ghost i: nat) returns (p: nat)
      requires Valid() && i < |list| && list[i] == h
      requires h in mem && Aligned(s) && HEADER <= s <= mem[h].size
      modifies this
      ensures Valid() && p == h + HEADER && h !in old(live)
      ensures h in mem && s <= mem[h].size <= s + HEADER && live == old(live)[h := mem[h].size]
      ensures mem[h].size == if old(mem)[h].size - s > HEADER then s else old(mem)[h].size
      ensures list == Without(if old(mem)[h].size - s > HEADER then Inserted(old(list), i + 1, h + s) else old(list), i)
    {
      if mem[h].size - s > HEADER {
        AllocPart(h, s, i);
      } else {
        ghost var mem0 := mem;
        assert mem == Marked(mem, h, true);
        Claim(h, i);
        assert live == Live(mem0)[h := mem[h].size];
      }
      p := h + HEADER;
    }

    /** Block h grows over its successor. */
    method Absorb(h: nat)
      requires Tiled(base, mem) && h in mem && !mem[h].last && h + mem[h].size in mem
      modifies this`mem
      ensures Absorbs(old(mem), h, mem)
    {
      var n := h + mem[h].size;
      assert BlockOK(base, mem, h) && BlockOK(base, mem, n);
      var next := Next(n);
      assert next == 0 ==> n + mem[n].size in mem ==> BlockOK(base, mem, n + mem[n].size);
      ghost var mem0 := mem;
      mem := mem[h := mem[h].(size := mem[h].size + mem[n].size, last := mem[n].last)];
      mem := mem - {n};
      if next != 0 {
        mem := mem[next := mem[next].(prev := h)];
      }
      assert mem.Keys == mem0.Keys - {n};
      assert forall k :: k in mem && k != h && (k != next || next == 0) ==> mem[k] == mem0[k];
      AbsorbEffect(mem0, h, n, next, mem);
    }

    /** kfree when the block before h is free. */
    method JoinPrev(h: nat) returns (p: nat)
      requires Valid() && h in mem && !mem[h].free && mem[h].prev in mem && mem[mem[h].prev].free
      modifies this`mem
      ensures p == old(mem)[h].prev && Open(base, mem, free, list, p) && Live(mem) == old(live) - {h}
      ensures SameBehind(old(mem), h, mem, p)
    {
      p := mem[h].prev;
      assert BlockOK(base, mem, h) && BlockOK(base, mem, p);
      ghost var mem0 := mem;
      Absorb(p);
      JoinPrevEffect(base, mem0, free, list, p, mem);
    }

    /** kfree otherwise: h goes to the front of the free list. */
    method Push(h: nat)
      requires Valid() && h in mem && !mem[h].free && (mem[h].prev in mem ==> !mem[mem[h].prev].free)
      modifies this`mem, this`free, this`list
      ensures Open(base, mem, free, list, h) && Live(mem) == old(live) - {h} && list == Inserted(old(list), 0, h)
      ensures SameBehind(old(mem), h, mem, h)
    {
      ghost var mem0, free0 := mem, free;
      assert NodeOK(mem, list, 0);
      mem := mem[h := mem[h].(free := true, link := free, back := 0)];
      if free != 0 {
        mem := mem[free := mem[free].(back := h)];
      }
      free := h;
      PushEffect(base, mem0, free0, list, h, mem);
      PushBehind(base, mem0, h, mem);
      list := Inserted(list, 0, h);
    }

    /** The second half of kfree: h grows over a free successor. */
    method JoinNext(h: nat, ghost i: nat)
      requires base > 0 && Aligned(base) && Open(base, mem, free, list, h)
      requires !mem[h].last && h + mem[h].size in mem && mem[h + mem[h].size].free
      requires i < |list| && list[i] == h + mem[h].size
      modifies this
      ensures Valid() && live == Live(old(mem)) && list == Without(old(list), i)
    {
      var n := h + mem[h].size;
      ghost var mem0, list0 := mem, list;
      PatchList(n, i);
      ghost var mem1 := mem;
      assert SameShape(mem0, mem1);
      RelinkKeepsTiles(base, mem0, mem1);
      Absorb(h);
      JoinNextTiles(base, mem0, h, mem1, mem);
      JoinNextLists(base, mem0, list0, h, i, mem1, free, mem);
      live := Live(mem);
    }

    /** The first half of kfree: h is absorbed by the block before it, or joins the list. */
    method Rejoin(h: nat) returns (header: nat)
      requires Valid() && h in mem && !mem[h].free
      modifies this`mem, this`free, this`list
      ensures Open(base, mem, free, list, header) && Live(mem) == old(live) - {h}
      ensures SameBehind(old(mem), h, mem, header) && list == Rejoined(old(mem), old(list), h)
    {
      assert BlockOK(base, mem, h);
      header := h;
      if mem[h].prev != 0 && mem[mem[h].prev].free {
        header := JoinPrev(h);
      } else {
        Push(h);
      }
    }

    /** The second half of kfree. */
    method JoinBehind(h: nat)
      requires base > 0 && Aligned(base) && Open(base, mem, free, list, h)
      modifies this
      ensures Valid() && live == Live(old(mem)) && Grew(old(mem), old(list), h, list)
    {
      var next := Next(h);
      assert BlockOK(base, mem, h);
      if next != 0 && mem[next].free {
        ghost var i :| 0 <= i < |list| && list[i] == next;
        JoinNext(h, i);
      } else {
        assert next == 0 ==> h + mem[h].size in mem ==> BlockOK(base, mem, h + mem[h].size);
        assert !FreePair(mem, h);
        live := Live(mem);
      }
    }

    /** kfree of the block at h. */
    method Release(h: nat)
      requires Valid() && h in mem && !mem[h].free
      modifies this
      ensures Valid() && live == old(live) - {h}
      ensures Reclaimed(old(mem), old(list), h, list)
    {
      ghost var mem0 := mem;
      var header := Rejoin(h);
      ghost var mem1, list1 := mem, list;
      JoinBehind(header);
      GrewFrom(mem0, h, mem1, header, list1, list);
    }
  }
}
