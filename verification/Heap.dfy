/**
  kmalloc and kfree over the chain of arenas.
 */
module Heap {
  import opened Sequences
  import opened HeapArena

  const WORD: nat := 0x1_0000_0000_0000_0000

  datatype Outcome = Ok(ptr: nat) | Panic

  /** The block size for a request, in 64-bit arithmetic: the header is added and
      the sum rounded up to a multiple of 16. */
  function Adjusted(size: nat): nat {
    var n := (size + HEADER) % WORD;
    if n % 16 == 0 then n else (n + (16 - n % 16)) % WORD
  }

  /** The block size covers header and payload exactly when no addition wraps. */
  lemma {:induction false} AdjustedCoversIff(size: nat)
    requires size < WORD
    ensures Adjusted(size) >= size + HEADER <==> size <= WORD - 48
    ensures size <= WORD - 48 ==> Adjusted(size) < size + HEADER + 16
    ensures Aligned(Adjusted(size))
  {
  }

  /** The block can hold its own header exactly below and above a gap of 32 sizes; for
      the sizes in the gap the arena would be cut inside a header. */
  lemma {:induction false} AdjustedIntactIff(size: nat)
    requires size < WORD
    ensures Adjusted(size) >= HEADER <==> size <= WORD - 48 || size > WORD - 16
    ensures size > WORD - 16 ==> Adjusted(size) == HEADER
  {
  }

  ghost predicate Elsewhere(base: nat, other: nat) {
    base + ARENA_SIZE <= other || other + ARENA_SIZE <= base
  }

  lemma {:induction false} OnlyElement(list: seq<nat>, f: nat)
    requires Distinct(list) && f in list && forall j :: 0 <= j < |list| ==> list[j] == f
    ensures list == [f]
  {
    assert list[0] == f && list[|list| - 1] == f;
  }

  ghost predicate Inside(base: nat, h: nat) {
    base <= h < base + ARENA_SIZE
  }

  /** `part` is the share of `live` that lies in the arena at `base`. */
  ghost predicate Share(part: map<nat, nat>, base: nat, live: map<nat, nat>) {
    forall h :: (h in part <==> h in live && Inside(base, h)) && (h in part ==> part[h] == live[h])
  }

  lemma {:induction false} ShareAdded(part: map<nat, nat>, base: nat, live: map<nat, nat>, h: nat, n: nat)
    requires Share(part, base, live)
    ensures Inside(base, h) ==> Share(part[h := n], base, live[h := n])
    ensures !Inside(base, h) ==> Share(part, base, live[h := n])
  {
  }

  lemma {:induction false} ShareRemoved(part: map<nat, nat>, base: nat, live: map<nat, nat>, h: nat)
    requires Share(part, base, live)
    ensures Inside(base, h) ==> Share(part - {h}, base, live - {h})
    ensures !Inside(base, h) ==> Share(part, base, live - {h})
  {
  }

  /** The heap: the chain of arenas from arena_head. `live` maps the header address
      of every block in use to its size. */
  class Heap {
    var arenas: seq<Arena>
    ghost var live: map<nat, nat>

    ghost predicate Valid()
      reads this, arenas
    {
      && (forall i {:trigger arenas[i].Valid()} :: 0 <= i < |arenas| ==> arenas[i].Valid())
      && (forall i {:trigger Shares(i)} :: 0 <= i < |arenas| ==> Shares(i))
      && Spread()
      && (forall h {:trigger Housed(h)} :: h in live ==> Housed(h))
    }

    /** The arenas occupy different memory. */
    ghost predicate Spread()
      reads this
    {
      forall i, j :: 0 <= i < j < |arenas| ==> Elsewhere(arenas[i].base, arenas[j].base)
    }

    ghost predicate Housed(h: nat)
      reads this
    {
      exists i :: 0 <= i < |arenas| && Inside(arenas[i].base, h)
    }

    ghost predicate Shares(i: nat)
      requires i < |arenas|
      reads this, arenas
    {
      Share(arenas[i].live, arenas[i].base, live)
    }

    /** alloc_init. */
    constructor ()
      ensures Valid() && arenas == [] && live == map[]
    {
      arenas := [];
      live := map[];
    }

    /** Serving a request from free block h of arena k. */
    method AllocIn(k: nat, h: nat, s: nat, ghost i: nat) returns (p: nat)
      requires Valid() && k < |arenas| && i < |arenas[k].list| && arenas[k].list[i] == h
      requires h in arenas[k].mem && Aligned(s) && HEADER <= s <= arenas[k].mem[h].size
      modifies this, arenas[k]
      ensures Valid() && arenas == old(arenas) && p == h + HEADER && h !in old(live)
      ensures h in live && s <= live[h] <= s + HEADER && live == old(live)[h := live[h]]
    {
      var a := arenas[k];
      assert arenas[k].Valid() && Shares(k) && BlockOK(a.base, a.mem, h);
      OthersElsewhere(k, h);
      p := a.Alloc(h, s, i);
      live := live[h := a.mem[h].size];
      forall j | 0 <= j < |arenas| ensures Shares(j) {
        assert old(Shares(j));
        ShareAdded(old(arenas[j].live), arenas[j].base, old(live), h, live[h]);
      }
      forall x | x in live ensures Housed(x) {
        assert x != h ==> old(Housed(x));
      }
    }

    lemma {:induction false} OthersElsewhere(k: nat, h: nat)
      requires Spread() && k < |arenas| && Inside(arenas[k].base, h)
      ensures forall j :: 0 <= j < |arenas| && j != k ==> arenas[j] != arenas[k] && !Inside(arenas[j].base, h)
    {
    }

    /** A live block is a USED block of the one arena that holds its address, and its
        payload is 16-byte aligned. */
    lemma {:induction false} LiveBlock(h: nat) returns (i: nat)
      requires Valid() && h in live
      ensures i < |arenas| && Inside(arenas[i].base, h) && h + live[h] <= arenas[i].base + ARENA_SIZE
      ensures h in arenas[i].mem && !arenas[i].mem[h].free && arenas[i].mem[h].size == live[h]
      ensures Aligned(h + HEADER) && live[h] >= HEADER
    {
      assert Housed(h);
      i :| 0 <= i < |arenas| && Inside(arenas[i].base, h);
      assert arenas[i].Valid() && Shares(i);
      assert BlockOK(arenas[i].base, arenas[i].mem, h);
      AlignedSplit(h, HEADER);
    }

    /** Live blocks do not overlap. */
    lemma {:induction false} LiveBlocksApart(h: nat, k: nat)
      requires Valid() && h in live && k in live && h < k
      ensures h + live[h] <= k
    {
      var i := LiveBlock(h);
      var j := LiveBlock(k);
      if i == j {
        assert arenas[i].Valid() && Apart(arenas[i].mem, h, k);
      }
    }

    /** Once everything is freed, every arena is again one block of INIT_BLOCK bytes. */
    lemma {:induction false} AllFreed(a: Arena)
      requires Valid() && live == map[] && a in arenas
      ensures a.mem.Keys == {First(a.base)} && a.mem[First(a.base)].size == INIT_BLOCK
      ensures a.mem[First(a.base)].free && a.list == [First(a.base)]
    {
      var i :| 0 <= i < |arenas| && arenas[i] == a;
      assert arenas[i].Valid() && Shares(i);
      forall h | h in a.mem ensures a.mem[h].free {
        assert h in a.live ==> h in live;
      }
      NothingUsedIsOneBlock(a.base, a.mem);
      var f := First(a.base);
      assert f in a.list;
      forall j | 0 <= j < |a.list| ensures a.list[j] == f {
        assert NodeOK(a.mem, a.list, j);
      }
      OnlyElement(a.list, f);
    }

    lemma {:induction false} NothingInside(page: nat)
      requires forall h {:trigger h in live} :: h in live ==> !Inside(page, h)
      ensures Share(map[], page, live)
    {
    }

    /** A new arena in front of the chain. */
    method Extend(page: nat) returns (a: Arena)
      requires Valid() && page > 0 && Aligned(page)
      requires forall i :: 0 <= i < |arenas| ==> Elsewhere(page, arenas[i].base)
      modifies this`arenas
      ensures Valid() && arenas == [a] + old(arenas) && fresh(a) && a.base == page
      ensures a.mem == map[First(page) := Header(INIT_BLOCK, true, true, 0, 0, 0)] && a.list == [First(page)]
    {
      forall h | h in live ensures !Inside(page, h) {
        assert Housed(h);
      }
      a := new Arena(page);
      arenas := [a] + arenas;
      forall i | 0 <= i < |arenas| ensures arenas[i].Valid() && Shares(i) {
        if i > 0 {
          assert old(arenas[i - 1].Valid()) && old(Shares(i - 1));
        } else {
          NothingInside(page);
        }
      }
      forall h | h in live ensures Housed(h) {
        assert old(Housed(h));
        var j :| 0 <= j < |old(arenas)| && Inside(old(arenas)[j].base, h);
        assert arenas[j + 1] == old(arenas)[j];
      }
    }

    /** The arena and the first free block in it that hold s bytes, if there are any. */
    method Search(s: nat) returns (k: nat, h: nat, ghost i: nat)
      requires Valid()
      ensures k <= |arenas|
      ensures k == |arenas| <==> forall a, b :: a in arenas && b in a.mem && a.mem[b].free ==> a.mem[b].size < s
      ensures k < |arenas| ==> FirstFit(s, k, i) && arenas[k].list[i] == h
    {
      k, h, i := 0, 0, 0;
      while k < |arenas|
        invariant 0 <= k <= |arenas|
        invariant forall a, b :: a in arenas[..k] && b in a.mem && a.mem[b].free ==> a.mem[b].size < s
      {
        h, i := arenas[k].FindFit(s);
        if h != 0 {
          return;
        }
        k := k + 1;
      }
    }

    /** Block i on the free list of arena k is the first one that holds s bytes: no block
        before it on that list does, and none of an arena before k in the chain. */
    ghost predicate FirstFit(s: nat, k: nat, i: nat)
      reads this, arenas
    {
      && k < |arenas| && i < |arenas[k].list| && arenas[k].list[i] in arenas[k].mem && arenas[k].mem[arenas[k].list[i]].size >= s
      && (forall j :: 0 <= j < i ==> arenas[k].list[j] in arenas[k].mem && arenas[k].mem[arenas[k].list[j]].size < s)
      && (forall b, x :: b in arenas[..k] && x in b.mem && b.mem[x].free ==> b.mem[x].size < s)
    }

    /** `ptr` is the payload of the first fitting block. */
    ghost predicate PointsToFirstFit(s: nat, ptr: nat)
      reads this, arenas
    {
      exists k: nat, i: nat :: FirstFit(s, k, i) && ptr == arenas[k].list[i] + HEADER
    }

    /** No free block can hold s bytes. */
    ghost predicate Exhausted(s: nat)
      reads this, arenas
    {
      forall a, b :: a in arenas && b in a.mem && a.mem[b].free ==> a.mem[b].size < s
    }

    /** `ptr` is a new block for a request of `size` bytes; it covers the request exactly
        if no 64-bit addition wraps. */
    ghost predicate Served(before: map<nat, nat>, size: nat, ptr: nat)
      reads this
    {
      exists h {:trigger h in live} :: ptr == h + HEADER && h !in before && h in live && live == before[h := live[h]]
        && Adjusted(size) <= live[h] <= Adjusted(size) + HEADER
        && (size + HEADER <= live[h] <==> size <= WORD - 48)
    }

    /** kmalloc. `page` is what the physical allocator returns for a new arena, 0
        when it has none. */
    method Kmalloc(size: nat, page: nat) returns (r: Outcome)
      requires Valid() && size < WORD && Adjusted(size) >= HEADER
      requires page > 0 ==> Aligned(page) && forall i :: 0 <= i < |arenas| ==> Elsewhere(page, arenas[i].base)
      modifies this, arenas
      ensures Valid()
      ensures r.Panic? <==> old(Exhausted(Adjusted(size))) && (page == 0 || Adjusted(size) > INIT_BLOCK)
      ensures r.Panic? ==> live == old(live) && arenas == old(arenas)
      ensures r.Ok? ==> Served(old(live), size, r.ptr)
      ensures !old(Exhausted(Adjusted(size))) ==> r.Ok? && arenas == old(arenas) && old(PointsToFirstFit(Adjusted(size), r.ptr))
      ensures old(Exhausted(Adjusted(size))) && r.Ok? ==>
        |arenas| > 0 && arenas[1..] == old(arenas) && arenas[0].base == page && r == Ok(First(page) + HEADER)
    {
      AdjustedCoversIff(size);
      AdjustedIntactIff(size);
      var s := Adjusted(size);
      var k, h, i := Search(s);
      var p: nat;
      if k < |arenas| {
        p := AllocIn(k, h, s, i);
      } else if page == 0 || s > INIT_BLOCK {
        return Panic;
      } else {
        var a := Extend(page);
        h := First(page);
        p := AllocIn(0, h, s, 0);
      }
      assert h in live;
      r := Ok(p);
    }

    /** kfree of a block in use. */
    method ReleaseIn(k: nat, h: nat)
      requires Valid() && k < |arenas| && h in arenas[k].mem && !arenas[k].mem[h].free
      modifies this, arenas[k]
      ensures Valid() && arenas == old(arenas) && live == old(live) - {h}
    {
      var a := arenas[k];
      assert arenas[k].Valid() && BlockOK(a.base, a.mem, h);
      OthersElsewhere(k, h);
      a.Release(h);
      live := live - {h};
      forall j | 0 <= j < |arenas| ensures Shares(j) {
        assert old(Shares(j));
        ShareRemoved(old(arenas[j].live), arenas[j].base, old(live), h);
      }
      forall x | x in live ensures Housed(x) {
        assert old(Housed(x));
      }
    }

    /** The index of the arena at a base address. */
    method ArenaAt(base: nat, ghost k: nat) returns (i: nat)
      requires Spread() && k < |arenas| && arenas[k].base == base
      ensures i == k
    {
      i := 0;
      while arenas[i].base != base
        invariant i <= k
        decreases k - i
      {
        i := i + 1;
      }
    }

    /** kfree. Freeing the null pointer or a block that is already free does
        nothing; `k` names the arena the pointer points into. */
    method Kfree(ptr: nat, k: nat)
      requires Valid() && (ptr != 0 ==> ptr >= HEADER && k < |arenas| && ptr - HEADER in arenas[k].mem)
      modifies this, arenas
      ensures Valid() && arenas == old(arenas)
      ensures ptr == 0 ==> live == old(live)
      ensures ptr != 0 ==> live == old(live) - {ptr - HEADER}
    {
      if ptr == 0 {
        return;
      }
      var h := ptr - HEADER;
      var header := arenas[k].mem[h];
      assert arenas[k].Valid() && Shares(k) && BlockOK(arenas[k].base, arenas[k].mem, h);
      if header.free {
        assert h !in arenas[k].live;
        return;
      }
      var i := ArenaAt(header.link, k);
      ReleaseIn(i, h);
    }
  }

  /** A request that wraps, on a new heap: kmalloc succeeds with a block of at most two
      headers for 2^64 - 1 bytes. */
  method HugeRequestIsShort(page: nat) returns (heap: Heap, ptr: nat)
    requires page > 0 && Aligned(page)
    ensures heap.Valid() && ptr >= HEADER && heap.live.Keys == {ptr - HEADER} && heap.live[ptr - HEADER] < WORD - 1
  {
    heap := new Heap();
    AdjustedIntactIff(WORD - 1);
    var r := heap.Kmalloc(WORD - 1, page);
    ptr := r.ptr;
  }
}
