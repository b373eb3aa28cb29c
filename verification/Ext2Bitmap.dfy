/**
  Block bitmaps, one per group, as sequences of bits, with the free counts kept
  beside them in the group descriptors and the superblock.
 */
module Ext2Bitmap {
  import opened Ext2Layout

  type Bits = seq<bool>

  ghost function CountClear(bits: Bits): nat {
    if bits == [] then 0
    else CountClear(bits[..|bits| - 1]) + (if bits[|bits| - 1] then 0 else 1)
  }

  predicate Full(bits: Bits) {
    forall k :: 0 <= k < |bits| ==> bits[k]
  }

  lemma {:induction false} SetOneClear(bits: Bits, k: nat)
    requires k < |bits| && !bits[k]
    ensures CountClear(bits[k := true]) == CountClear(bits) - 1
  {
    var n := |bits| - 1;
    if k == n {
      assert bits[k := true][..n] == bits[..n];
    } else {
      SetOneClear(bits[..n], k);
      assert bits[k := true][..n] == bits[..n][k := true];
    }
  }

  lemma {:induction false} CountZeroIffFull(bits: Bits)
    ensures CountClear(bits) == 0 <==> Full(bits)
  {
    if bits != [] {
      var n := |bits| - 1;
      CountZeroIffFull(bits[..n]);
      if Full(bits[..n]) && bits[n] {
        forall k | 0 <= k < |bits| ensures bits[k] { assert k < n ==> bits[k] == bits[..n][k]; }
      }
      if Full(bits) {
        assert Full(bits[..n]);
      }
    }
  }

  ghost function Sum(s: seq<nat>): nat {
    if s == [] then 0 else Sum(s[..|s| - 1]) + s[|s| - 1]
  }

  lemma {:induction false} SumUpdate(s: seq<nat>, k: nat, v: nat)
    requires k < |s|
    ensures Sum(s[k := v]) == Sum(s) - s[k] + v
  {
    var n := |s| - 1;
    if k == n {
      assert s[k := v][..n] == s[..n];
    } else {
      SumUpdate(s[..n], k, v);
      assert s[k := v][..n] == s[..n][k := v];
    }
  }

  /** Block number of bit `k` of group `g`. */
  function BlockOf(perGroup: nat, g: nat, k: nat): nat {
    Start(g, perGroup) + k
  }

  /** `used` is the set of block numbers whose bit is set. */
  ghost predicate Marks(bitmap: seq<Bits>, perGroup: nat, used: set<nat>) {
    && (forall g :: 0 <= g < |bitmap| ==> |bitmap[g]| == perGroup)
    && (forall g, k :: 0 <= g < |bitmap| && 0 <= k < perGroup ==>
          (bitmap[g][k] <==> BlockOf(perGroup, g, k) in used))
  }

  /** Every clear bit stands for a block of the device. */
  ghost predicate ClearInside(bitmap: seq<Bits>, perGroup: nat, blocks: nat) {
    forall g, k :: 0 <= g < |bitmap| && 0 <= k < |bitmap[g]| && !bitmap[g][k] ==> BlockOf(perGroup, g, k) < blocks
  }

  /** The free counts of the descriptors and the superblock agree with the bits. */
  ghost predicate CountsOK(bitmap: seq<Bits>, groupFree: seq<nat>, totalFree: int) {
    && |bitmap| == |groupFree|
    && (forall g :: 0 <= g < |bitmap| ==> groupFree[g] == CountClear(bitmap[g]))
    && totalFree == Sum(groupFree)
  }

  /** Groups scanned between the start group and `g`, in scan order with the
      wrap that leaves out the last group. */
  function ScanDistance(start: nat, g: nat, scanned: nat): int {
    if g >= start then g - start else g - start + scanned
  }

  lemma {:induction false} FullJoin(bits: Bits, n: nat, m: nat)
    requires n + m <= |bits| && Full(bits[..n]) && Full(bits[n..n + m])
    ensures Full(bits[..n + m])
  {
    assert bits[..n + m] == bits[..n] + bits[n..n + m];
  }

  lemma {:induction false} WordFits(n: nat, off: nat)
    requires n % 64 == 0 && off % 8 == 0 && off < n / 8
    ensures off * 8 + 64 <= n && (off + 8) % 8 == 0
  {
    var w, o := n / 64, off / 8;
    assert n / 8 == w * 8 && off == o * 8;
  }

  /** The first clear bit of a word that has one. */
  method FindBit(word: Bits) returns (bit: nat)
    requires !Full(word)
    ensures bit < |word| && !word[bit] && Full(word[..bit])
  {
    bit := 0;
    while bit < |word|
      invariant bit <= |word| && Full(word[..bit])
    {
      if !word[bit] {
        return;
      }
      bit := bit + 1;
    }
  }

  /** The first clear bit, found word by word and then bit by bit. */
  method FindClear(bits: Bits) returns (k: nat)
    requires |bits| % 64 == 0
    ensures k <= |bits|
    ensures k < |bits| ==> !bits[k]
    ensures Full(bits[..k])
  {
    var off := 0;
    while off < |bits| / 8
      invariant off % 8 == 0 && off * 8 <= |bits|
      invariant Full(bits[..off * 8])
    {
      WordFits(|bits|, off);
      var from := off * 8;
      var word := bits[from..from + 64];
      if !Full(word) {
        var bit := FindBit(word);
        assert word[..bit] == bits[from..from + bit];
        FullJoin(bits, from, bit);
        return from + bit;
      }
      FullJoin(bits, from, 64);
      off := off + 8;
    }
    k := |bits|;
  }

  lemma {:induction false} MarkCounts(bitmap: seq<Bits>, groupFree: seq<nat>, totalFree: int, g: nat, k: nat)
    requires CountsOK(bitmap, groupFree, totalFree)
    requires g < |bitmap| && k < |bitmap[g]| && !bitmap[g][k]
    ensures groupFree[g] > 0
    ensures CountsOK(bitmap[g := bitmap[g][k := true]], groupFree[g := groupFree[g] - 1], totalFree - 1)
  {
    SetOneClear(bitmap[g], k);
    SumUpdate(groupFree, g, groupFree[g] - 1);
  }

  lemma {:induction false} BlockOfInjective(perGroup: nat, g: nat, k: nat, g': nat, k': nat)
    requires k < perGroup && k' < perGroup && BlockOf(perGroup, g, k) == BlockOf(perGroup, g', k')
    ensures g == g' && k == k'
  {
    UnitUnique(BlockOf(perGroup, g, k), g, perGroup);
    UnitUnique(BlockOf(perGroup, g', k'), g', perGroup);
  }

  /** Setting the clear bit `k` of group `g` adds exactly one used block. */
  lemma {:induction false} MarkUsed(bitmap: seq<Bits>, perGroup: nat, used: set<nat>, g: nat, k: nat)
    requires Marks(bitmap, perGroup, used)
    requires g < |bitmap| && k < perGroup && !bitmap[g][k]
    ensures BlockOf(perGroup, g, k) !in used
    ensures Marks(bitmap[g := bitmap[g][k := true]], perGroup, used + {BlockOf(perGroup, g, k)})
  {
    forall h, j | 0 <= h < |bitmap| && 0 <= j < perGroup && BlockOf(perGroup, h, j) == BlockOf(perGroup, g, k)
      ensures h == g && j == k
    {
      BlockOfInjective(perGroup, g, k, h, j);
    }
  }
}
