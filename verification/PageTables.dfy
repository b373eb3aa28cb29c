/**
  Four-level page tables in memory (section 4.5 of the Intel SDM, volume 3A): what
  the hardware sees.
 */
module PageTables {
  import opened Wrappers

  /** The bits of an entry besides its address. Bit 7 is the page-size bit above the
      lowest level and an attribute bit at the lowest; `guard` is the kernel's own
      bit; `rest` stands for the remaining attribute bits. */
  datatype Flags = Flags(present: bool, rw: bool, us: bool, xd: bool, ps: bool, guard: bool, rest: nat)

  datatype Entry = Entry(addr: nat, f: Flags)

  const NoFlags: Flags := Flags(false, false, false, false, false, false, 0)
  const Zero: Entry := Entry(0, NoFlags)

  /** Table frames and their entries. */
  type Mem = map<nat, seq<Entry>>

  const ENTRIES: nat := 512

  // Levels: 0 for 4K pages, 1 for 2M, 2 for 1G, 3 for the top-level table.

  /** The entry points to a lower table; the top level has no page-size bit. */
  predicate IsTable(e: Entry, lvl: nat) {
    e.f.present && (lvl == 3 || (0 < lvl < 3 && !e.f.ps))
  }

  /** A page of the given level: where it lies and with which flags. */
  datatype Mapping = Mapping(lvl: nat, addr: nat, f: Flags)

  /** The hardware walk from table t along the remaining indices. */
  function Translate(mem: Mem, t: nat, path: seq<nat>, lvl: nat): Option<Mapping>
    requires |path| == lvl + 1
    decreases lvl
  {
    if t !in mem || path[0] >= |mem[t]| then None
    else
      var e := mem[t][path[0]];
      if IsTable(e, lvl) then (if lvl == 0 then None else Translate(mem, e.addr, path[1..], lvl - 1))
      else if e.f.present then Some(Mapping(lvl, e.addr, e.f))
      else None
  }

  // Index arithmetic.

  /** The four table indices of a virtual address. */
  function PathOf(va: nat): (p: seq<nat>)
    ensures |p| == 4 && forall i :: 0 <= i < 4 ==> p[i] < ENTRIES
  {
    [va / 0x8000000000 % 512, va / 0x40000000 % 512, va / 0x200000 % 512, va / 0x1000 % 512]
  }

  /** The number of the page of level `lvl` that holds an address. */
  function PageOf(va: nat, lvl: nat): nat {
    if lvl == 0 then va / 0x1000 else if lvl == 1 then va / 0x200000 else va / 0x40000000
  }

  /** Addresses the processor accepts: bit 47 repeated in all bits above it. */
  predicate Canonical(va: nat) {
    va < 0x8000_0000_0000 || 0xFFFF_8000_0000_0000 <= va < 0x1_0000_0000_0000_0000
  }

  /** The 48 bits that are translated. */
  function Low48(va: nat): nat {
    va % 0x1000000000000
  }

  lemma {:induction false} SignBits(l: nat)
    ensures (l + 0xFFFF_0000_0000_0000) / 0x8000000000 == l / 0x8000000000 + 0x1FFFE00
    ensures (l + 0xFFFF_0000_0000_0000) / 0x40000000 == l / 0x40000000 + 0x3FFFC0000
    ensures (l + 0xFFFF_0000_0000_0000) / 0x200000 == l / 0x200000 + 0x7FFF8000000
    ensures (l + 0xFFFF_0000_0000_0000) / 0x1000 == l / 0x1000 + 0xFFFF000000000
  {
  }

  lemma {:induction false} WholeTables(x: nat)
    ensures (x + 0x1FFFE00) % 512 == x % 512 && (x + 0x3FFFC0000) % 512 == x % 512
    ensures (x + 0x7FFF8000000) % 512 == x % 512 && (x + 0xFFFF000000000) % 512 == x % 512
  {
  }

  /** The bits above the translated ones take no part in the indices. */
  lemma {:induction false} PathOfLow48(va: nat)
    requires Canonical(va)
    ensures PathOf(va) == PathOf(Low48(va))
  {
    HighBits(va);
    var l := Low48(va);
    if va != l {
      SignBits(l);
      WholeTables(l / 0x8000000000);
      WholeTables(l / 0x40000000);
      WholeTables(l / 0x200000);
      WholeTables(l / 0x1000);
    }
  }

  /** Canonical addresses lie in the same page exactly if their translated bits do. */
  lemma {:induction false} CanonicalPages(va: nat, vb: nat, lvl: nat)
    requires Canonical(va) && Canonical(vb) && lvl <= 2
    ensures PageOf(va, lvl) == PageOf(vb, lvl) <==> PageOf(Low48(va), lvl) == PageOf(Low48(vb), lvl)
  {
    HighPage(va, lvl);
    HighPage(vb, lvl);
  }

  /** The page of an upper-half address is its low page plus a constant, and is told from
      the lower half by its number. */
  lemma {:induction false} HighPage(va: nat, lvl: nat)
    requires Canonical(va) && lvl <= 2
    ensures var half := if lvl == 0 then 0x8_0000_0000 else if lvl == 1 then 0x400_0000 else 0x2_0000;
      PageOf(Low48(va), lvl) < half <==> va < 0x8000_0000_0000
    ensures PageOf(va, lvl) == PageOf(Low48(va), lvl) + if va < 0x8000_0000_0000 then 0
      else if lvl == 0 then 0xFFFF000000000 else if lvl == 1 then 0x7FFF8000000 else 0x3FFFC0000
  {
    HighBits(va);
    SignBits(Low48(va));
  }

  lemma {:induction false} HighBits(va: nat)
    requires Canonical(va)
    ensures Low48(va) == if va < 0x8000_0000_0000 then va else va - 0xFFFF_0000_0000_0000
    ensures va < 0x8000_0000_0000 <==> Low48(va) < 0x8000_0000_0000
  {
  }

  /** Two canonical addresses agree on their first indices, down to the level of a page
      size, exactly if they lie in the same page of that size. */
  lemma {:induction false} PathIsPage(va: nat, vb: nat, lvl: nat)
    requires Canonical(va) && Canonical(vb) && lvl <= 2
    ensures PathOf(va)[..4 - lvl] == PathOf(vb)[..4 - lvl] <==> PageOf(va, lvl) == PageOf(vb, lvl)
  {
    PathOfLow48(va);
    PathOfLow48(vb);
    CanonicalPages(va, vb, lvl);
    PathIsPage48(Low48(va), Low48(vb), lvl);
  }

  lemma {:induction false} PathIsPage48(va: nat, vb: nat, lvl: nat)
    requires va < 0x1000000000000 && vb < 0x1000000000000 && lvl <= 2
    ensures PathOf(va)[..4 - lvl] == PathOf(vb)[..4 - lvl] <==> PageOf(va, lvl) == PageOf(vb, lvl)
  {
    PageNumber(va);
    PageNumber(vb);
    Quotients(va);
    Quotients(vb);
    var p, q := PathOf(va), PathOf(vb);
    if p[..4 - lvl] == q[..4 - lvl] {
      assert p[0] == p[..4 - lvl][0] && q[0] == q[..4 - lvl][0] && p[1] == p[..4 - lvl][1] && q[1] == q[..4 - lvl][1];
      if lvl <= 1 {
        assert p[2] == p[..4 - lvl][2] && q[2] == q[..4 - lvl][2];
      }
      if lvl == 0 {
        assert p[3] == p[..4][3] && q[3] == q[..4][3];
      }
    }
  }

  lemma {:induction false} Quotients(va: nat)
    ensures va / 0x200000 == va / 0x1000 / 512
    ensures va / 0x40000000 == va / 0x200000 / 512
    ensures va / 0x8000000000 == va / 0x40000000 / 512
  {
  }

  /** The page numbers of the three sizes, digit by digit. */
  lemma {:induction false} PageNumber(va: nat)
    requires va < 0x1000000000000
    ensures var p := PathOf(va);
      && PageOf(va, 2) == p[0] * 512 + p[1]
      && PageOf(va, 1) == PageOf(va, 2) * 512 + p[2]
      && PageOf(va, 0) == PageOf(va, 1) * 512 + p[3]
  {
    var a, b, c, d := va / 0x1000, va / 0x200000, va / 0x40000000, va / 0x8000000000;
    Quotients(va);
    assert a == b * 512 + a % 512 && b == c * 512 + b % 512 && c == d * 512 + c % 512;
    assert d % 512 == d;
  }

  /** The indices and the offset spell the address, most significant first, and the first
      index tells the halves apart. */
  lemma {:induction false} PathSpells(va: nat)
    requires Canonical(va)
    ensures var p := PathOf(va);
      && Low48(va) == p[0] * 0x8000000000 + p[1] * 0x40000000 + p[2] * 0x200000 + p[3] * 0x1000 + va % 0x1000
      && (p[0] >= 256 <==> va >= 0xFFFF_8000_0000_0000)
  {
    PathOfLow48(va);
    HighBits(va);
    PathSpells48(Low48(va));
    SameOffset(va);
  }

  lemma {:induction false} SameOffset(va: nat)
    ensures Low48(va) % 0x1000 == va % 0x1000
  {
  }

  lemma {:induction false} PathSpells48(l: nat)
    requires l < 0x1000000000000
    ensures var p := PathOf(l);
      && l == p[0] * 0x8000000000 + p[1] * 0x40000000 + p[2] * 0x200000 + p[3] * 0x1000 + l % 0x1000
      && (p[0] >= 256 <==> l >= 0x8000_0000_0000)
  {
    PageNumber(l);
    assert l == PageOf(l, 0) * 0x1000 + l % 0x1000;
  }
}
