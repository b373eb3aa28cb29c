/**
  Index arithmetic of the ext2 block map: a logical block index selects one of
  the fifteen inode slots and, below slots 12, 13 and 14, a path of one, two or
  three entry numbers through the indirect blocks. The specification side uses
  repeated addition and subtraction; `DriverPlace` is the driver's formula.
 */
module Ext2Layout {

  const DIRECT_BLOCKS := 12
  const SLOTS := 15

  /** A place where a block pointer is stored: an inode slot and the entry
      numbers followed below it. */
  datatype Place = Place(slot: nat, path: seq<nat>)

  /** How many indirect levels hang below an inode slot. */
  function Height(slot: nat): nat {
    if slot < DIRECT_BLOCKS then 0 else slot - 11
  }

  /** `p` is the number of 32-bit entries in one block. */
  ghost predicate ValidPlace(p: nat, at: Place) {
    && at.slot < SLOTS
    && |at.path| <= Height(at.slot)
    && forall i :: 0 <= i < |at.path| ==> at.path[i] < p
  }

  /** Places that hold data blocks rather than indirect blocks. */
  ghost predicate LeafPlace(p: nat, at: Place) {
    ValidPlace(p, at) && |at.path| == Height(at.slot)
  }

  // Multiplication and division by repetition.

  /** `j` units of size `u`: for byte positions, the start of block `j`. */
  function Start(j: nat, u: nat): nat {
    if j == 0 then 0 else Start(j - 1, u) + u
  }

  /** The unit that holds position `k`. */
  function UnitOf(k: nat, u: nat): (j: nat)
    requires 0 < u
    ensures Start(j, u) <= k < Start(j, u) + u
  {
    if k < u then 0
    else
      var j := UnitOf(k - u, u);
      j + 1
  }

  lemma {:induction false} StartIsProduct(j: nat, u: nat)
    ensures Start(j, u) == j * u
  {
    if j > 0 {
      StartIsProduct(j - 1, u);
    }
  }

  lemma {:induction false} StartMono(i: nat, j: nat, u: nat)
    requires i < j
    ensures Start(i, u) + u <= Start(j, u)
    decreases j
  {
    if i < j - 1 {
      StartMono(i, j - 1, u);
    }
  }

  lemma {:induction false} UnitUnique(k: nat, j: nat, u: nat)
    requires Start(j, u) <= k < Start(j, u) + u
    ensures UnitOf(k, u) == j
  {
    var i := UnitOf(k, u);
    if i < j {
      StartMono(i, j, u);
    } else if j < i {
      StartMono(j, i, u);
    }
  }

  lemma {:induction false} UnitBelow(k: nat, n: nat, u: nat)
    requires 0 < u && k < Start(n, u)
    ensures UnitOf(k, u) < n
  {
    var j := UnitOf(k, u);
    if n < j {
      StartMono(n, j, u);
    }
  }

  lemma {:induction false} MulMono(a: int, b: int, c: int)
    requires a <= b && 0 <= c
    ensures a * c <= b * c
  {
  }

  lemma {:induction false} DivUnique(x: int, u: nat, q: int, r: nat)
    requires r < u && x == q * u + r
    ensures x / u == q && x % u == r
  {
    var q' := x / u;
    assert x == q' * u + x % u;
    if q' < q {
      MulMono(q' + 1, q, u);
    } else if q < q' {
      MulMono(q + 1, q', u);
    }
  }

  /** The driver's division and remainder. */
  lemma {:induction false} UnitIsQuotient(k: nat, u: nat)
    requires 0 < u
    ensures k / u == UnitOf(k, u)
    ensures k % u == k - Start(UnitOf(k, u), u)
  {
    var j := UnitOf(k, u);
    StartIsProduct(j, u);
    DivUnique(k, u, j, k - Start(j, u));
  }

  // The block map.

  /** Data blocks below one pointer at height `n`. */
  function Span(p: nat, n: nat): nat {
    if n == 0 then 1 else Start(p, Span(p, n - 1))
  }

  lemma {:induction false} SpanPositive(p: nat, n: nat)
    requires 0 < p
    ensures 0 < Span(p, n)
  {
    if n > 0 {
      SpanPositive(p, n - 1);
      StartMono(0, p, Span(p, n - 1));
    }
  }

  /** The `n` entry numbers that lead to data block `i` below a pointer at height `n`. */
  function Digits(p: nat, n: nat, i: nat): seq<nat>
    requires 0 < p
  {
    if n == 0 then []
    else
      SpanPositive(p, n - 1);
      var u := Span(p, n - 1);
      var d := UnitOf(i, u);
      [d] + Digits(p, n - 1, i - Start(d, u))
  }

  lemma {:induction false} DigitsValid(p: nat, n: nat, i: nat)
    requires 0 < p && i < Span(p, n)
    ensures |Digits(p, n, i)| == n
    ensures forall k :: 0 <= k < n ==> Digits(p, n, i)[k] < p
  {
    if n > 0 {
      SpanPositive(p, n - 1);
      var u := Span(p, n - 1);
      UnitBelow(i, p, u);
      DigitsValid(p, n - 1, i - Start(UnitOf(i, u), u));
    }
  }

  lemma {:induction false} DigitsInjective(p: nat, n: nat, i: nat, j: nat)
    requires 0 < p && i < Span(p, n) && j < Span(p, n)
    requires Digits(p, n, i) == Digits(p, n, j)
    ensures i == j
  {
    if n > 0 {
      SpanPositive(p, n - 1);
      var u := Span(p, n - 1);
      var d, e := UnitOf(i, u), UnitOf(j, u);
      var s, t := Digits(p, n - 1, i - Start(d, u)), Digits(p, n - 1, j - Start(e, u));
      assert d == ([d] + s)[0] == ([e] + t)[0] == e;
      assert s == ([d] + s)[1..] == ([e] + t)[1..] == t;
      DigitsInjective(p, n - 1, i - Start(d, u), j - Start(e, u));
    }
  }

  /** First logical block below slot `slot`. */
  function Base(p: nat, slot: nat): nat {
    if slot <= DIRECT_BLOCKS then slot
    else Base(p, slot - 1) + Span(p, Height(slot - 1))
  }

  /** Number of logical blocks the tree can address. */
  function MaxBlocks(p: nat): nat {
    Base(p, SLOTS)
  }

  /** The slot above a logical block: the last one whose base it reaches. */
  function SlotOf(p: nat, index: nat, last: nat): (slot: nat)
    ensures Base(p, slot) <= index && slot <= last
    ensures slot == last || index < Base(p, slot + 1)
  {
    if last == 0 || Base(p, last) <= index then last else SlotOf(p, index, last - 1)
  }

  /** The place of a logical block. */
  function PlaceOf(p: nat, index: nat): Place
    requires 0 < p
  {
    var slot := SlotOf(p, index, SLOTS - 1);
    Place(slot, Digits(p, Height(slot), index - Base(p, slot)))
  }

  /** Every mappable index reaches a leaf place. */
  lemma {:induction false} PlaceOfIsLeaf(p: nat, index: nat)
    requires 0 < p && index < MaxBlocks(p)
    ensures LeafPlace(p, PlaceOf(p, index))
  {
    var slot := SlotOf(p, index, SLOTS - 1);
    DigitsValid(p, Height(slot), index - Base(p, slot));
  }

  /** Different indices reach different places: the block map has no aliasing
      at any of its four depths. */
  lemma {:induction false} PlaceOfInjective(p: nat, i: nat, j: nat)
    requires 0 < p && i < MaxBlocks(p) && j < MaxBlocks(p)
    requires PlaceOf(p, i) == PlaceOf(p, j)
    ensures i == j
  {
    var slot := SlotOf(p, i, SLOTS - 1);
    DigitsInjective(p, Height(slot), i - Base(p, slot), j - Base(p, slot));
  }

  /** Entry numbers compared from the top of the tree. */
  predicate Before(a: seq<nat>, b: seq<nat>) {
    a != [] && b != [] && (a[0] < b[0] || (a[0] == b[0] && Before(a[1..], b[1..])))
  }

  lemma {:induction false} DigitsInOrder(p: nat, n: nat, i: nat, j: nat)
    requires 0 < p && i < j < Span(p, n)
    ensures Before(Digits(p, n, i), Digits(p, n, j))
  {
    SpanPositive(p, n - 1);
    var u := Span(p, n - 1);
    var d, e := UnitOf(i, u), UnitOf(j, u);
    if e < d {
      StartMono(e, d, u);
    }
    var s, t := Digits(p, n - 1, i - Start(d, u)), Digits(p, n - 1, j - Start(e, u));
    assert ([d] + s)[1..] == s && ([e] + t)[1..] == t;
    if d == e {
      DigitsInOrder(p, n - 1, i - Start(d, u), j - Start(e, u));
    }
  }

  /** Blocks of a file are in the order of their places: direct blocks first, then the trees
      below the last three slots, each from left to right. */
  lemma {:induction false} PlacesInOrder(p: nat, i: nat, j: nat)
    requires 0 < p && i < j < MaxBlocks(p)
    ensures var a, b := PlaceOf(p, i), PlaceOf(p, j); a.slot < b.slot || (a.slot == b.slot && Before(a.path, b.path))
  {
    var s, t := SlotOf(p, i, SLOTS - 1), SlotOf(p, j, SLOTS - 1);
    if t < s {
      BaseMono(p, t + 1, s);
    } else if s == t {
      DigitsInOrder(p, Height(s), i - Base(p, s), j - Base(p, s));
    }
  }

  /** The driver's own arithmetic: comparisons with indir1 = p, indir2 = p * p
      and indir3 = p * p * p, and its quotients and remainders. */
  datatype Route = Route(slot: int, path: seq<int>) | TooFar

  function DriverPlace(p: nat, index: nat): Route
    requires 0 < p && 0 < p * p
  {
    if index < DIRECT_BLOCKS then Route(index, [])
    else
      var i1 := index - DIRECT_BLOCKS;
      if i1 < p then Route(12, [i1])
      else
        var i2 := i1 - p;
        if i2 < p * p then Route(13, [i2 / p, i2 % p])
        else
          var i3 := i2 - p * p;
          if i3 < p * p * p then Route(14, [i3 / (p * p), (i3 % (p * p)) / p, i3 % p])
          else TooFar
  }

  lemma {:induction false} SpansAreProducts(p: nat)
    ensures Span(p, 0) == 1 && Span(p, 1) == p && Span(p, 2) == p * p && Span(p, 3) == p * p * p
  {
    StartIsProduct(p, 1);
    StartIsProduct(p, p);
    StartIsProduct(p, p * p);
    assert Span(p, 1) == Start(p, Span(p, 0));
    assert Span(p, 2) == Start(p, Span(p, 1));
    assert Span(p, 3) == Start(p, Span(p, 2));
  }

  lemma {:induction false} OneDigit(p: nat, i: nat)
    requires 0 < p
    ensures Digits(p, 1, i) == [i]
  {
    var u := Span(p, 0);
    StartIsProduct(i, u);
    UnitUnique(i, i, u);
    assert Digits(p, 1, i) == [UnitOf(i, u)] + Digits(p, 0, i - Start(UnitOf(i, u), u));
  }

  lemma {:induction false} TwoDigits(p: nat, i: nat)
    requires 0 < p
    ensures Digits(p, 2, i) == [i / p, i % p]
  {
    SpansAreProducts(p);
    UnitIsQuotient(i, p);
    OneDigit(p, i - Start(UnitOf(i, p), p));
    assert Digits(p, 2, i) == [UnitOf(i, p)] + Digits(p, 1, i - Start(UnitOf(i, p), p));
  }

  /** The last entry number may be taken from the whole index. */
  lemma {:induction false} RemainderOfRemainder(i: nat, p: nat)
    requires 0 < p && 0 < p * p
    ensures (i % (p * p)) % p == i % p
  {
    var q, r := i / (p * p), i % (p * p);
    var d, e := r / p, r % p;
    assert i == q * (p * p) + r && r == d * p + e;
    Regroup(q, p, d, e);
    DivUnique(i, p, q * p + d, e);
  }

  lemma {:induction false} Regroup(q: int, p: int, d: int, e: int)
    ensures q * (p * p) + (d * p + e) == (q * p + d) * p + e
  {
  }

  lemma {:induction false} ThreeDigits(p: nat, i: nat)
    requires 0 < p && 0 < p * p
    ensures Digits(p, 3, i) == [i / (p * p), (i % (p * p)) / p, i % p]
  {
    SpansAreProducts(p);
    UnitIsQuotient(i, p * p);
    var d := UnitOf(i, p * p);
    TwoDigits(p, i - Start(d, p * p));
    RemainderOfRemainder(i, p);
    assert Digits(p, 3, i) == [d] + Digits(p, 2, i - Start(d, p * p));
  }

  lemma {:induction false} BaseMono(p: nat, i: nat, j: nat)
    requires i <= j
    ensures Base(p, i) <= Base(p, j)
    decreases j
  {
    if i < j {
      BaseMono(p, i, j - 1);
    }
  }

  lemma {:induction false} SlotUnique(p: nat, index: nat, slot: nat)
    requires slot < SLOTS && Base(p, slot) <= index
    requires index < Base(p, slot + 1) || slot == SLOTS - 1
    ensures SlotOf(p, index, SLOTS - 1) == slot
  {
    var s := SlotOf(p, index, SLOTS - 1);
    if s < slot {
      BaseMono(p, s + 1, slot);
    } else if slot < s {
      BaseMono(p, slot + 1, s);
    }
  }

  lemma {:induction false} BasesAreSums(p: nat)
    ensures Base(p, 12) == 12 && Base(p, 13) == 12 + p && Base(p, 14) == 12 + p + p * p
    ensures Base(p, 15) == 12 + p + p * p + p * p * p
  {
    SpansAreProducts(p);
    assert Base(p, 13) == Base(p, 12) + Span(p, 1);
    assert Base(p, 14) == Base(p, 13) + Span(p, 2);
    assert Base(p, 15) == Base(p, 14) + Span(p, 3);
  }

  /** The driver's formula computes the block map, and rejects exactly the
      indices beyond the triple indirect tree. */
  lemma {:induction false} DriverPlaceCorrect(p: nat, index: nat)
    requires 0 < p
    ensures 0 < p * p
    ensures DriverPlace(p, index) ==
            if index < MaxBlocks(p) then Route(PlaceOf(p, index).slot, PlaceOf(p, index).path) else TooFar
  {
    MulMono(1, p, p);
    BasesAreSums(p);
    if index < DIRECT_BLOCKS {
      SlotUnique(p, index, index);
    } else if index - 12 < p {
      SlotUnique(p, index, 12);
      OneDigit(p, index - 12);
    } else if index - 12 - p < p * p {
      SlotUnique(p, index, 13);
      TwoDigits(p, index - 12 - p);
    } else if index < MaxBlocks(p) {
      SlotUnique(p, index, 14);
      ThreeDigits(p, index - 12 - p - p * p);
    }
  }
}
