/**
  The range allocator behind physical and virtual memory: a sorted list of free
  ranges, insertion with coalescing, and allocation from the high end of the list.
 */
module Ranges {

  const WORD: nat := 0x1_0000_0000_0000_0000

  datatype Range = Range(base: nat, size: nat)

  ghost predicate Paged(x: int) {
    x % 4096 == 0
  }

  ghost predicate In(r: Range, a: int) {
    r.base <= a < r.base + r.size
  }

  ghost predicate RangeOK(r: Range) {
    0 < r.base && 0 < r.size && Paged(r.base) && Paged(r.size) && r.base + r.size < WORD
  }

  /** Sorted, disjoint and with a gap between any two ranges: nothing left to coalesce. */
  ghost predicate Sorted(list: seq<Range>) {
    forall i, j :: 0 <= i < j < |list| ==> list[i].base + list[i].size < list[j].base
  }

  ghost predicate ListOK(list: seq<Range>) {
    (forall i :: 0 <= i < |list| ==> RangeOK(list[i])) && Sorted(list)
  }

  /** What is left of that after a page was freed twice: ranges in order of their starts. */
  ghost predicate Ascending(list: seq<Range>) {
    && (forall i :: 0 <= i < |list| ==> RangeOK(list[i]))
    && (forall i, j :: 0 <= i < j < |list| ==> list[i].base < list[j].base)
  }

  /** Address a is free. */
  ghost predicate Free(list: seq<Range>, a: int) {
    exists i :: 0 <= i < |list| && In(list[i], a)
  }

  lemma {:induction false} FreeOfParts(left: seq<Range>, right: seq<Range>, a: int)
    ensures Free(left + right, a) <==> Free(left, a) || Free(right, a)
  {
    var list := left + right;
    if Free(left, a) {
      var i :| 0 <= i < |left| && In(left[i], a);
      assert In(list[i], a);
    }
    if Free(right, a) {
      var i :| 0 <= i < |right| && In(right[i], a);
      assert In(list[|left| + i], a);
    }
    if Free(list, a) {
      var i :| 0 <= i < |list| && In(list[i], a);
      assert if i < |left| then In(left[i], a) else In(right[i - |left|], a);
    }
  }

  lemma {:induction false} FreeOfOne(r: Range, a: int)
    ensures Free([r], a) <==> In(r, a)
  {
    assert In([r][0], a) <==> In(r, a);
  }

  /** What a list with a replaced middle covers. */
  lemma {:induction false} FreeOfSplice(left: seq<Range>, middle: seq<Range>, right: seq<Range>, a: int)
    ensures Free(left + middle + right, a) <==> Free(left, a) || Free(middle, a) || Free(right, a)
  {
    FreeOfParts(left + middle, right, a);
    FreeOfParts(left, middle, a);
  }

  /** Every range of `left` ends before `lo`; every range of `right` starts after `hi`. */
  ghost predicate Around(left: seq<Range>, lo: int, hi: int, right: seq<Range>) {
    && (forall i :: 0 <= i < |left| ==> left[i].base + left[i].size < lo)
    && (forall i :: 0 <= i < |right| ==> hi < right[i].base)
  }

  /** Splicing a well-formed middle between well-formed ends. */
  lemma {:induction false} SpliceOK(left: seq<Range>, middle: seq<Range>, right: seq<Range>, lo: int, hi: int)
    requires ListOK(left) && ListOK(middle) && ListOK(right) && lo <= hi && Around(left, lo, hi, right)
    requires forall i :: 0 <= i < |middle| ==> lo <= middle[i].base && middle[i].base + middle[i].size <= hi
    ensures ListOK(left + middle + right)
  {
    var list := left + middle + right;
    var m, n := |left|, |left| + |middle|;
    forall i | 0 <= i < |list|
      ensures RangeOK(list[i])
    {
      assert list[i] == if i < m then left[i] else if i < n then middle[i - m] else right[i - n];
    }
    forall i, j | 0 <= i < j < |list| ensures list[i].base + list[i].size < list[j].base {
      assert list[i] == if i < m then left[i] else if i < n then middle[i - m] else right[i - n];
      assert list[j] == if j < m then left[j] else if j < n then middle[j - m] else right[j - n];
    }
  }

  lemma {:induction false} PartsOK(list: seq<Range>, i: nat, j: nat)
    requires ListOK(list) && i <= j <= |list|
    ensures ListOK(list[..i]) && ListOK(list[j..])
    ensures i < |list| ==> forall k :: 0 <= k < i ==> list[..i][k].base + list[..i][k].size < list[i].base
    ensures 0 < j ==> forall k :: 0 <= k < |list| - j ==> list[j - 1].base + list[j - 1].size < list[j..][k].base
  {
  }

  lemma {:induction false} InOrder(list: seq<Range>, i: int, j: int)
    requires Sorted(list)
    ensures 0 <= i < j < |list| ==> list[i].base + list[i].size < list[j].base
  {
  }

  // Insertion.

  /** No free range that starts before `base` reaches beyond it. */
  ghost predicate ClearBelow(list: seq<Range>, base: nat) {
    forall i :: 0 <= i < |list| && list[i].base < base ==> list[i].base + list[i].size <= base
  }

  /** Some free range starts inside [base, base + size). */
  ghost predicate Hit(list: seq<Range>, base: nat, size: nat) {
    exists i :: 0 <= i < |list| && base <= list[i].base < base + size
  }

  /** The merged range in place of list[l..r]: what insertion in front of index i
      leaves, whichever neighbours it touches. */
  lemma {:induction false} InsertKeepsList(list: seq<Range>, l: nat, r: nat, m: Range)
    requires ListOK(list) && l <= r <= |list| && RangeOK(m)
    requires l > 0 ==> list[l - 1].base + list[l - 1].size < m.base
    requires r < |list| ==> m.base + m.size < list[r].base
    ensures ListOK(list[..l] + [m] + list[r..])
  {
    PartsOK(list, l, r);
    forall k | 0 <= k < |list[..l]| ensures list[..l][k].base + list[..l][k].size < m.base {
      assert list[..l][k] == list[k];
    }
    forall k | 0 <= k < |list[r..]| ensures m.base + m.size < list[r..][k].base {
      assert list[r..][k] == list[r + k];
    }
    SpliceOK(list[..l], [m], list[r..], m.base, m.base + m.size);
  }

  lemma {:induction false} InsertAddsRange(list: seq<Range>, l: nat, r: nat, m: Range, n: Range, a: int)
    requires l <= r <= |list|
    requires In(m, a) <==> In(n, a) || Free(list[l..r], a)
    ensures Free(list[..l] + [m] + list[r..], a) <==> Free(list, a) || In(n, a)
  {
    assert list == list[..l] + list[l..r] + list[r..];
    FreeOfSplice(list[..l], list[l..r], list[r..], a);
    FreeOfSplice(list[..l], [m], list[r..], a);
    FreeOfOne(m, a);
  }

  predicate MeetsPrev(list: seq<Range>, i: nat, n: Range)
    requires i <= |list|
  {
    i > 0 && list[i - 1].base + list[i - 1].size == n.base
  }

  predicate MeetsNext(list: seq<Range>, i: nat, n: Range)
    requires i <= |list|
  {
    i < |list| && n.base + n.size == list[i].base
  }

  function Merged(list: seq<Range>, i: nat, n: Range): Range
    requires i <= |list|
  {
    var b := if MeetsPrev(list, i, n) then list[i - 1] else Range(n.base, 0);
    var e := if MeetsNext(list, i, n) then list[i].size else 0;
    Range(b.base, b.size + n.size + e)
  }

  /** `list` with n put in front of index i and merged with the neighbours it touches. */
  function Joined(list: seq<Range>, i: nat, n: Range): seq<Range>
    requires i <= |list|
  {
    list[..if MeetsPrev(list, i, n) then i - 1 else i] + [Merged(list, i, n)] + list[if MeetsNext(list, i, n) then i + 1 else i..]
  }

  /** n fits into the gap in front of index i. */
  ghost predicate Gap(list: seq<Range>, i: nat, n: Range) {
    && i <= |list| && RangeOK(n)
    && (i > 0 ==> list[i - 1].base + list[i - 1].size <= n.base)
    && (i < |list| ==> n.base + n.size <= list[i].base)
  }

  lemma {:induction false} PagedSum(x: int, y: int, z: int)
    requires Paged(x) && Paged(y) && Paged(z)
    ensures Paged(x + y + z)
  {
  }

  lemma {:induction false} MergedOK(list: seq<Range>, i: nat, n: Range)
    requires i <= |list| && RangeOK(n) && forall k :: 0 <= k < |list| ==> RangeOK(list[k])
    ensures RangeOK(Merged(list, i, n))
  {
    PagedSum(n.size, if MeetsPrev(list, i, n) then list[i - 1].size else 0, if MeetsNext(list, i, n) then list[i].size else 0);
  }

  /** Insertion with nothing reaching over the new range keeps the normal form. */
  lemma {:induction false} JoinedOK(list: seq<Range>, i: nat, n: Range)
    requires ListOK(list) && Gap(list, i, n)
    ensures ListOK(Joined(list, i, n))
  {
    var m := Merged(list, i, n);
    MergedOK(list, i, n);
    var l, r := if MeetsPrev(list, i, n) then i - 1 else i, if MeetsNext(list, i, n) then i + 1 else i;
    InsertKeepsList(list, l, r, m);
  }

  /** insert_node has found the place of n and did not reject it. */
  ghost predicate Accepted(list: seq<Range>, i: nat, n: Range) {
    && i <= |list| && RangeOK(n)
    && (forall k :: 0 <= k < i ==> list[k].base < n.base)
    && (i < |list| ==> n.base + n.size <= list[i].base)
  }

  lemma {:induction false} OverlapStaysUnsorted(list: seq<Range>, i: nat, n: Range)
    requires 0 < i <= |list| && list[i - 1].base + list[i - 1].size > n.base
    ensures !Sorted(Joined(list, i, n))
  {
    var j := Joined(list, i, n);
    assert j[i - 1] == list[i - 1] && j[i].base == n.base;
  }

  lemma {:induction false} OverlapIsBefore(list: seq<Range>, i: nat, n: Range, k: nat)
    requires ListOK(list) && Accepted(list, i, n) && k < |list| && list[k].base < n.base && list[k].base + list[k].size > n.base
    ensures k == i - 1
  {
    InOrder(list, i, k);
    InOrder(list, k, i - 1);
  }

  /** An accepted range keeps the normal form if and only if no free range that
      starts below it reaches over its base; where one does, the code only warns. */
  lemma {:induction false} JoinedOKIff(list: seq<Range>, i: nat, n: Range)
    requires ListOK(list) && Accepted(list, i, n)
    ensures ListOK(Joined(list, i, n)) <==> ClearBelow(list, n.base)
  {
    if ClearBelow(list, n.base) {
      JoinedOK(list, i, n);
    } else {
      var k :| 0 <= k < |list| && list[k].base < n.base && list[k].base + list[k].size > n.base;
      OverlapIsBefore(list, i, n, k);
      OverlapStaysUnsorted(list, i, n);
    }
  }

  /** The ranges below index i, and no others, start below `base`. */
  ghost predicate PlaceOf(list: seq<Range>, base: nat, i: nat) {
    i <= |list| && forall k :: 0 <= k < |list| ==> (list[k].base < base <==> k < i)
  }

  /** Only the range at the place found can be run into. */
  lemma {:induction false} HitIsNext(list: seq<Range>, i: nat, n: Range)
    requires Ascending(list) && n.size > 0 && PlaceOf(list, n.base, i)
    ensures Hit(list, n.base, n.size) <==> i < |list| && n.base + n.size > list[i].base
  {
    if Hit(list, n.base, n.size) {
      var k :| 0 <= k < |list| && n.base <= list[k].base < n.base + n.size;
      assert i < k ==> list[i].base < list[k].base;
    }
  }

  lemma {:induction false} SpliceAscends(left: seq<Range>, m: Range, right: seq<Range>)
    requires Ascending(left) && RangeOK(m) && Ascending(right)
    requires (left != [] ==> left[|left| - 1].base < m.base) && (right != [] ==> m.base < right[0].base)
    ensures Ascending(left + [m] + right)
  {
    forall k | 0 <= k < |left| ensures left[k].base < m.base {
      assert k < |left| - 1 ==> left[k].base < left[|left| - 1].base;
    }
    forall k | 0 <= k < |right| ensures m.base < right[k].base {
      assert 0 < k ==> right[0].base < right[k].base;
    }
  }

  /** An accepted range keeps the order of the starts, whatever it overlaps. */
  lemma {:induction false} JoinedAscends(list: seq<Range>, i: nat, n: Range)
    requires Ascending(list) && Accepted(list, i, n)
    ensures Ascending(Joined(list, i, n))
  {
    var l, r := if MeetsPrev(list, i, n) then i - 1 else i, if MeetsNext(list, i, n) then i + 1 else i;
    MergedOK(list, i, n);
    assert i < r < |list| ==> list[i].base < list[r].base;
    assert 0 < l < i ==> list[l - 1].base < list[l].base;
    SpliceAscends(list[..l], Merged(list, i, n), list[r..]);
  }

  /** Freeing the second page of a free range of two: it is linked in as a node of its
      own, so that page is on the list twice. */
  lemma {:induction false} DoubleFreeIsLinked()
    ensures var list, n := [Range(4096, 8192)], Range(8192, 4096);
      && ListOK(list) && Accepted(list, 1, n) && !ClearBelow(list, n.base)
      && Joined(list, 1, n) == [Range(4096, 8192), Range(8192, 4096)] && !ListOK(Joined(list, 1, n))
  {
    var list, n := [Range(4096, 8192)], Range(8192, 4096);
    assert list[0].base < n.base && list[0].base + list[0].size > n.base;
    JoinedOKIff(list, 1, n);
  }

  /** What the neighbours that n touches cover. */
  lemma {:induction false} NeighboursFree(list: seq<Range>, l: nat, i: nat, r: nat, a: int)
    requires l <= i <= l + 1 && i <= r <= i + 1 && r <= |list|
    ensures Free(list[l..r], a) <==> (l < i && In(list[l], a)) || (i < r && In(list[i], a))
  {
    if Free(list[l..r], a) {
      var k :| 0 <= k < |list[l..r]| && In(list[l..r][k], a);
      assert list[l..r][k] == list[l + k];
    }
    if l < i {
      assert list[l..r][0] == list[l];
    }
    if i < r {
      assert list[l..r][i - l] == list[i];
    }
  }

  /** Whatever it overlaps, the free set gains exactly the range. */
  lemma {:induction false} JoinedAdds(list: seq<Range>, i: nat, n: Range, a: int)
    requires i <= |list|
    ensures Free(Joined(list, i, n), a) <==> Free(list, a) || In(n, a)
  {
    var m := Merged(list, i, n);
    var l, r := if MeetsPrev(list, i, n) then i - 1 else i, if MeetsNext(list, i, n) then i + 1 else i;
    NeighboursFree(list, l, i, r, a);
    InsertAddsRange(list, l, r, m, n, a);
  }

  // The two merging steps of insert_node, one after the other.

  /** Range k ends where the next one starts. */
  predicate Touch(list: seq<Range>, k: int) {
    0 <= k < |list| - 1 && list[k].base + list[k].size == list[k + 1].base
  }

  function Glued(list: seq<Range>, k: nat): seq<Range>
    requires k + 1 < |list|
  {
    list[..k] + [Range(list[k].base, list[k].size + list[k + 1].size)] + list[k + 2..]
  }

  function GluePrev(list: seq<Range>, k: nat): seq<Range>
    requires k < |list|
  {
    if Touch(list, k - 1) then Glued(list, k - 1) else list
  }

  function GlueNext(list: seq<Range>, k: nat): seq<Range>
    requires k < |list|
  {
    if Touch(list, k) then Glued(list, k) else list
  }

  function Put(list: seq<Range>, i: nat, n: Range): seq<Range>
    requires i <= |list|
  {
    list[..i] + [n] + list[i..]
  }

  lemma {:induction false} PutGluedPrev(list: seq<Range>, i: nat, n: Range)
    requires i <= |list|
    ensures var k := if MeetsPrev(list, i, n) then i - 1 else i;
      var m := if MeetsPrev(list, i, n) then Range(list[i - 1].base, list[i - 1].size + n.size) else n;
      && (Touch(Put(list, i, n), i - 1) <==> MeetsPrev(list, i, n))
      && GluePrev(Put(list, i, n), i) == list[..k] + [m] + list[i..]
  {
    assert Touch(Put(list, i, n), i - 1) <==> MeetsPrev(list, i, n);
  }

  lemma {:induction false} MiddleGluedNext(left: seq<Range>, m: Range, right: seq<Range>)
    ensures GlueNext(left + [m] + right, |left|)
         == if right != [] && m.base + m.size == right[0].base then left + [Range(m.base, m.size + right[0].size)] + right[1..] else left + [m] + right
  {
    var list := left + [m] + right;
    assert list[|left|] == m && (right != [] ==> list[|left| + 1] == right[0]);
    assert list[..|left|] == left && (right != [] ==> list[|left| + 2..] == right[1..]);
  }

  lemma {:induction false} JoinedIsGlued(list: seq<Range>, i: nat, n: Range)
    requires i <= |list|
    ensures var mid := GluePrev(Put(list, i, n), i);
      var k := if Touch(Put(list, i, n), i - 1) then i - 1 else i;
      k < |mid| && GlueNext(mid, k) == Joined(list, i, n)
  {
    var k := if MeetsPrev(list, i, n) then i - 1 else i;
    var m := if MeetsPrev(list, i, n) then Range(list[i - 1].base, list[i - 1].size + n.size) else n;
    PutGluedPrev(list, i, n);
    MiddleGluedNext(list[..k], m, list[i..]);
    assert i < |list| ==> list[i..][1..] == list[i + 1..];
  }

  /** The merged range does not start at address 0. */
  lemma {:induction false} GluedBase(list: seq<Range>, i: nat, n: Range)
    requires Ascending(list) && i <= |list| && n.base > 0
    ensures var mid := GluePrev(Put(list, i, n), i);
      var k := if Touch(Put(list, i, n), i - 1) then i - 1 else i;
      k < |mid| && mid[k].base > 0
  {
    if i > 0 {
      assert RangeOK(list[i - 1]) && Put(list, i, n)[i - 1] == list[i - 1];
    }
  }

  // Allocation.

  /** A size rounded up to whole pages. */
  function RoundUp(size: nat): nat {
    if size % 4096 == 0 then size else size + (4096 - size % 4096)
  }

  /** The same in 64-bit arithmetic. */
  function Rounded(size: nat): nat {
    RoundUp(size) % WORD
  }

  lemma {:induction false} RoundUpFacts(size: nat)
    ensures Paged(RoundUp(size)) && size <= RoundUp(size) < size + 4096
    ensures size < WORD ==> RoundUp(size) <= WORD
  {
  }

  /** Rounding covers the request exactly when it does not wrap around. */
  lemma {:induction false} RoundedCoversIff(size: nat)
    requires size < WORD
    ensures Paged(Rounded(size))
    ensures Rounded(size) >= size <==> size <= WORD - 4096
    ensures size <= WORD - 4096 ==> size <= Rounded(size) < size + 4096
    ensures size > WORD - 4096 ==> Rounded(size) == 0
  {
    RoundUpFacts(size);
    if RoundUp(size) < WORD {
      assert Rounded(size) == RoundUp(size);
      RoundUpFacts(WORD - 4096);
    } else {
      assert Rounded(size) == 0;
    }
  }

  /** A range qualifies when it ends below `max` and holds the request together with
      the worst-case alignment loss. */
  predicate Qualifies(r: Range, need: nat, max: nat) {
    r.base + r.size < max && r.size >= need
  }

  /** The bytes given up in front of an aligned allocation. */
  function Adjust(base: nat, align: nat): nat {
    if align == 0 then 0 else align - base % align
  }

  lemma {:induction false} SmallMultiple(t: int, m: int)
    requires m > 0 && -m < t * m < m
    ensures t == 0
  {
  }

  lemma {:induction false} ModuloOfMultiple(q: nat, m: nat)
    requires m > 0
    ensures (q * m) % m == 0
  {
    var x := q * m;
    assert x == (x / m) * m + x % m;
    assert (q - x / m) * m == x % m;
    SmallMultiple(q - x / m, m);
  }

  /** The last multiple of `align` at or below `base`. */
  lemma {:induction false} MultipleBelow(base: nat, align: nat) returns (q: nat, p: nat)
    requires align > 0
    ensures p == q * align && base == p + base % align
  {
    q := base / align;
    p := q * align;
  }

  lemma {:induction false} AdjustAligns(base: nat, align: nat)
    requires align > 0
    ensures (base + Adjust(base, align)) % align == 0 && 0 < Adjust(base, align) <= align
  {
    var q, p := MultipleBelow(base, align);
    assert base + Adjust(base, align) == (q + 1) * align;
    ModuloOfMultiple(q + 1, align);
  }

  lemma {:induction false} PagedProduct(q: nat, x: nat)
    requires Paged(x)
    ensures Paged(q * x)
  {
    if q > 0 {
      PagedProduct(q - 1, x);
      assert q * x == (q - 1) * x + x;
      PagedSum((q - 1) * x, x, 0);
    }
  }

  lemma {:induction false} PagedDifference(x: int, y: int, z: int)
    requires Paged(x) && Paged(y) && Paged(z)
    ensures Paged(x - (y - z))
  {
  }

  lemma {:induction false} AdjustPaged(base: nat, align: nat)
    requires Paged(base) && Paged(align)
    ensures Paged(Adjust(base, align))
  {
    if align > 0 {
      var q, p := MultipleBelow(base, align);
      PagedProduct(q, align);
      PagedDifference(align, base, p);
    }
  }

  /** What is left of range r once [r.base + adj, r.base + adj + size) is taken. */
  function Remains(r: Range, adj: nat, size: nat): seq<Range>
    requires adj + size <= r.size
  {
    (if adj > 0 then [Range(r.base, adj)] else [])
    + (if r.size - adj - size > 0 then [Range(r.base + adj + size, r.size - adj - size)] else [])
  }

  lemma {:induction false} RemainsOK(r: Range, adj: nat, size: nat)
    requires RangeOK(r) && Paged(adj) && Paged(size) && 0 < size && adj + size <= r.size
    ensures ListOK(Remains(r, adj, size))
    ensures forall k :: 0 <= k < |Remains(r, adj, size)| ==>
      r.base <= Remains(r, adj, size)[k].base && Remains(r, adj, size)[k].base + Remains(r, adj, size)[k].size <= r.base + r.size
  {
    PagedSum(r.base, adj, size);
    assert Paged(r.size - adj - size);
  }

  lemma {:induction false} RemainsFree(r: Range, adj: nat, size: nat, a: int)
    requires adj + size <= r.size
    ensures Free(Remains(r, adj, size), a) <==> In(r, a) && !In(Range(r.base + adj, size), a)
  {
    var front := if adj > 0 then [Range(r.base, adj)] else [];
    var back := if r.size - adj - size > 0 then [Range(r.base + adj + size, r.size - adj - size)] else [];
    FreeOfParts(front, back, a);
    if adj > 0 {
      FreeOfOne(Range(r.base, adj), a);
    }
    if r.size - adj - size > 0 {
      FreeOfOne(Range(r.base + adj + size, r.size - adj - size), a);
    }
  }

  /** `list` with a piece of range i taken out. */
  function Carved(list: seq<Range>, i: nat, adj: nat, size: nat): seq<Range>
    requires i < |list| && adj + size <= list[i].size
  {
    list[..i] + Remains(list[i], adj, size) + list[i + 1..]
  }

  lemma {:induction false} CarvedOK(list: seq<Range>, i: nat, adj: nat, size: nat)
    requires ListOK(list) && i < |list| && Paged(adj) && Paged(size) && 0 < size && adj + size <= list[i].size
    ensures ListOK(Carved(list, i, adj, size))
  {
    var r := list[i];
    RemainsOK(r, adj, size);
    PartsOK(list, i, i + 1);
    SpliceOK(list[..i], Remains(r, adj, size), list[i + 1..], r.base, r.base + r.size);
  }

  lemma {:induction false} OnlyThere(list: seq<Range>, i: nat, a: int)
    requires ListOK(list) && i < |list| && In(list[i], a)
    ensures !Free(list[..i], a) && !Free(list[i + 1..], a)
  {
  }

  lemma {:induction false} CarvedFree(list: seq<Range>, i: nat, adj: nat, size: nat, a: int)
    requires ListOK(list) && i < |list| && adj + size <= list[i].size
    ensures Free(Carved(list, i, adj, size), a) <==> Free(list, a) && !In(Range(list[i].base + adj, size), a)
  {
    var r := list[i];
    assert list == list[..i] + [r] + list[i + 1..];
    FreeOfSplice(list[..i], [r], list[i + 1..], a);
    FreeOfOne(r, a);
    FreeOfSplice(list[..i], Remains(r, adj, size), list[i + 1..], a);
    RemainsFree(r, adj, size, a);
    if In(r, a) {
      OnlyThere(list, i, a);
    }
  }

  // The same in 64-bit arithmetic, for every request.

  function Add64(a: int, b: int): nat {
    (a + b) % WORD
  }

  function Sub64(a: int, b: int): nat {
    (a - b) % WORD
  }

  /** What mm_alloc_max leaves of range r, however large the request is. */
  function WrappedRemains(r: Range, adj: nat, size: nat): seq<Range> {
    var base, rest := Add64(r.base, adj), Sub64(Sub64(r.size, adj), size);
    (if adj > 0 then [Range(r.base, adj)] else []) + (if rest != 0 then [Range(Add64(base, size), rest)] else [])
  }

  lemma {:induction false} NothingWraps(r: Range, adj: nat, size: nat)
    requires RangeOK(r) && adj + size <= r.size
    ensures WrappedRemains(r, adj, size) == Remains(r, adj, size) && Add64(r.base, adj) == r.base + adj
  {
  }

  /** The last range that qualifies, or -1. */
  function Chosen(list: seq<Range>, need: nat, max: nat): (i: int)
    ensures -1 <= i < |list|
    ensures i >= 0 ==> Qualifies(list[i], need, max)
    ensures forall k :: i < k < |list| ==> !Qualifies(list[k], need, max)
    decreases |list|
  {
    if list == [] then -1
    else if Qualifies(list[|list| - 1], need, max) then |list| - 1
    else Chosen(list[..|list| - 1], need, max)
  }

  /** What the search asks of a range: the sum can wrap. */
  function Need(size: nat, align: nat): nat {
    Add64(Rounded(size), align)
  }

  datatype Answer = Answer(ret: nat, list: seq<Range>)

  /** mm_alloc_max for every request. */
  function Allocated(list: seq<Range>, size: nat, align: nat, max: nat): Answer {
    if size == 0 || align % 4096 != 0 then Answer(0, list)
    else
      var i := Chosen(list, Need(size, align), max);
      if i < 0 then Answer(0, list)
      else
        var r, adj := list[i], Adjust(list[i].base, align);
        Answer(Add64(r.base, adj), list[..i] + WrappedRemains(r, adj, Rounded(size)) + list[i + 1..])
  }

  lemma {:induction false} AllocatedAt(list: seq<Range>, size: nat, align: nat, max: nat, need: nat, i: int)
    requires size != 0 && align % 4096 == 0 && need == Need(size, align) && i == Chosen(list, need, max)
    ensures i < 0 ==> Allocated(list, size, align, max) == Answer(0, list)
    ensures i >= 0 ==> var adj, asize := Adjust(list[i].base, align), Rounded(size);
      Allocated(list, size, align, max) == Answer(Add64(list[i].base, adj), list[..i] + WrappedRemains(list[i], adj, asize) + list[i + 1..])
  {
  }

  /** The request is served exactly: the range was free, covers the request, is aligned
      and below `max`, and exactly it has left the list, which keeps its normal form. */
  ghost predicate Served(list: seq<Range>, got: Answer, size: nat, align: nat, max: nat) {
    var r := Range(got.ret, Rounded(size));
    && ListOK(got.list) && 0 < size <= r.size && Paged(got.ret) && (align > 0 ==> got.ret % align == 0) && got.ret + r.size < max
    && (forall a :: In(r, a) ==> Free(list, a))
    && (forall a :: Free(got.list, a) <==> Free(list, a) && !In(r, a))
  }

  /** Neither rounding nor adding the alignment wraps around. */
  predicate NoWrap(size: nat, align: nat) {
    size <= WORD - 4096 && Rounded(size) + align < WORD
  }

  /** Consecutive free addresses lie in one range. */
  lemma {:induction false} IntervalInOne(list: seq<Range>, a: int, n: nat) returns (k: nat)
    requires ListOK(list) && n > 0 && forall x :: a <= x < a + n ==> Free(list, x)
    ensures k < |list| && list[k].base <= a && a + n <= list[k].base + list[k].size
  {
    assert Free(list, a + n - 1);
    var j :| 0 <= j < |list| && In(list[j], a + n - 1);
    k := j;
    if n > 1 {
      k := IntervalInOne(list, a, n - 1);
      InOrder(list, k, j);
      InOrder(list, j, k);
    }
  }

  lemma {:induction false} MultipleIsLarge(x: nat, m: nat)
    requires 0 < x && 0 < m && x % m == 0
    ensures m <= x
  {
  }

  lemma {:induction false} ServedHasNoWrap(list: seq<Range>, got: Answer, size: nat, align: nat, max: nat)
    requires ListOK(list) && size < WORD && Served(list, got, size, align, max)
    ensures NoWrap(size, align)
  {
    var asize := Rounded(size);
    RoundedCoversIff(size);
    forall x | got.ret <= x < got.ret + asize ensures Free(list, x) {
      assert In(Range(got.ret, asize), x);
    }
    var k := IntervalInOne(list, got.ret, asize);
    assert RangeOK(list[k]);
    if align > 0 {
      MultipleIsLarge(got.ret, align);
    }
  }

  lemma {:induction false} NeedExact(size: nat, align: nat)
    requires NoWrap(size, align)
    ensures Need(size, align) == Rounded(size) + align
  {
  }

  lemma {:induction false} AllocatedIsCarved(list: seq<Range>, size: nat, align: nat, max: nat)
    requires ListOK(list) && 0 < size && Paged(align) && NoWrap(size, align) && Chosen(list, Need(size, align), max) >= 0
    ensures var i := Chosen(list, Need(size, align), max);
      var adj := Adjust(list[i].base, align);
      && 0 < size <= Rounded(size) && Paged(Rounded(size)) && adj + Rounded(size) <= list[i].size
      && Allocated(list, size, align, max) == Answer(list[i].base + adj, Carved(list, i, adj, Rounded(size)))
  {
    RoundedCoversIff(size);
    NeedExact(size, align);
    var i := Chosen(list, Need(size, align), max);
    if align > 0 {
      AdjustAligns(list[i].base, align);
    }
    assert Adjust(list[i].base, align) <= align;
    NothingWraps(list[i], Adjust(list[i].base, align), Rounded(size));
  }

  lemma {:induction false} NoWrapIsServed(list: seq<Range>, size: nat, align: nat, max: nat)
    requires ListOK(list) && 0 < size && Paged(align) && NoWrap(size, align) && Chosen(list, Need(size, align), max) >= 0
    ensures Served(list, Allocated(list, size, align, max), size, align, max)
  {
    AllocatedIsCarved(list, size, align, max);
    var i := Chosen(list, Need(size, align), max);
    CarvedIsServed(list, i, size, align, max);
  }

  lemma {:induction false} CarvedIsServed(list: seq<Range>, i: nat, size: nat, align: nat, max: nat)
    requires ListOK(list) && i < |list| && Paged(align) && 0 < size <= Rounded(size) && Paged(Rounded(size))
    requires Adjust(list[i].base, align) + Rounded(size) <= list[i].size && list[i].base + list[i].size < max
    ensures var adj := Adjust(list[i].base, align);
      Served(list, Answer(list[i].base + adj, Carved(list, i, adj, Rounded(size))), size, align, max)
  {
    var adj, asize := Adjust(list[i].base, align), Rounded(size);
    AdjustPaged(list[i].base, align);
    if align > 0 {
      AdjustAligns(list[i].base, align);
    }
    PagedSum(list[i].base, adj, 0);
    CarvedOK(list, i, adj, asize);
    forall a ensures Free(Carved(list, i, adj, asize), a) <==> Free(list, a) && !In(Range(list[i].base + adj, asize), a) {
      CarvedFree(list, i, adj, asize, a);
    }
    forall a | In(Range(list[i].base + adj, asize), a) ensures Free(list, a) {
      assert In(list[i], a);
    }
  }

  /** When the search finds a range, the request is served exactly if and only if
      neither addition wraps, whatever is on the list. */
  lemma {:induction false} ServedIffNoWrap(list: seq<Range>, size: nat, align: nat, max: nat)
    requires ListOK(list) && 0 < size < WORD && Paged(align) && Chosen(list, Need(size, align), max) >= 0
    ensures Served(list, Allocated(list, size, align, max), size, align, max) <==> NoWrap(size, align)
  {
    if NoWrap(size, align) {
      NoWrapIsServed(list, size, align, max);
    } else if Served(list, Allocated(list, size, align, max), size, align, max) {
      ServedHasNoWrap(list, Allocated(list, size, align, max), size, align, max);
    }
  }

  /** The request is well formed and the search finds a range for it. */
  ghost predicate Finds(list: seq<Range>, size: nat, align: nat, max: nat) {
    size > 0 && Paged(align) && Chosen(list, Need(size, align), max) >= 0
  }

  lemma {:induction false} FoundOrNot(list: seq<Range>, size: nat, align: nat, max: nat)
    ensures !Finds(list, size, align, max) ==> Allocated(list, size, align, max) == Answer(0, list)
  {
  }

  lemma {:induction false} AllocatedFacts(list: seq<Range>, size: nat, align: nat, max: nat)
    requires ListOK(list) && size < WORD
    ensures var got := Allocated(list, size, align, max);
      && (!Finds(list, size, align, max) ==> got == Answer(0, list))
      && (Finds(list, size, align, max) ==> (Served(list, got, size, align, max) <==> NoWrap(size, align)))
      && (NoWrap(size, align) ==> ListOK(got.list))
  {
    if Finds(list, size, align, max) {
      ServedIffNoWrap(list, size, align, max);
    }
  }

  /** The addresses from a up to e are free, and their neighbours are not. */
  ghost predicate Run(list: seq<Range>, a: int, e: int) {
    && a < e && !Free(list, a - 1) && !Free(list, e)
    && (forall x :: a <= x < e ==> Free(list, x))
  }

  /** A run of at least n free addresses that ends below max. */
  ghost predicate Room(list: seq<Range>, a: int, e: int, n: nat, max: nat) {
    Run(list, a, e) && a + n <= e < max
  }

  ghost predicate NoRoom(list: seq<Range>, n: nat, max: nat) {
    forall a, e :: !Room(list, a, e, n, max)
  }

  lemma {:induction false} NotBeside(list: seq<Range>, i: nat, a: int)
    requires ListOK(list) && i < |list| && (a == list[i].base - 1 || a == list[i].base + list[i].size)
    ensures !Free(list, a)
  {
    forall j | 0 <= j < |list| ensures !In(list[j], a) {
      InOrder(list, i, j);
      InOrder(list, j, i);
    }
  }

  lemma {:induction false} RangeIsRun(list: seq<Range>, i: nat)
    requires ListOK(list) && i < |list|
    ensures Run(list, list[i].base, list[i].base + list[i].size)
  {
    assert RangeOK(list[i]);
    NotBeside(list, i, list[i].base - 1);
    NotBeside(list, i, list[i].base + list[i].size);
    forall x | In(list[i], x) ensures Free(list, x) {
    }
  }

  lemma {:induction false} RunIsRange(list: seq<Range>, a: int, e: int) returns (i: nat)
    requires ListOK(list) && Run(list, a, e)
    ensures i < |list| && list[i].base == a && list[i].base + list[i].size == e
  {
    i := IntervalInOne(list, a, e - a);
    assert !In(list[i], a - 1) && !In(list[i], e);
  }

  lemma {:induction false} ChosenHasRoom(list: seq<Range>, n: nat, max: nat)
    requires ListOK(list)
    ensures var i := Chosen(list, n, max);
      && (i >= 0 ==> Room(list, list[i].base, list[i].base + list[i].size, n, max))
      && (forall a, e :: Room(list, a, e, n, max) ==> i >= 0 && a <= list[i].base)
  {
    var i := Chosen(list, n, max);
    if i >= 0 {
      RangeIsRun(list, i);
    }
    forall a, e | Room(list, a, e, n, max) ensures i >= 0 && a <= list[i].base {
      var k := RunIsRange(list, a, e);
      assert Qualifies(list[k], n, max);
      InOrder(list, k, i);
    }
  }

  /** Where a request has to be served: 0 when no run of free addresses below max has
      room for it and its alignment; otherwise in the highest run that has, at its start
      or at the first multiple of the alignment behind its start. */
  ghost predicate InHighestRun(list: seq<Range>, ret: nat, size: nat, align: nat, max: nat) {
    var n := RoundUp(size) + align;
    && (NoRoom(list, n, max) ==> ret == 0)
    && (forall a, e :: Room(list, a, e, n, max) && (forall b, f :: Room(list, b, f, n, max) ==> b <= a) ==>
          if align == 0 then ret == a else ret % align == 0 && a < ret <= a + align)
  }

  /** mm_alloc_max takes the highest run that has room, and fails exactly if there is
      none. */
  lemma {:induction false} TakesHighestRun(list: seq<Range>, size: nat, align: nat, max: nat)
    requires ListOK(list) && 0 < size < WORD && Paged(align) && NoWrap(size, align)
    ensures var ret := Allocated(list, size, align, max).ret;
      && InHighestRun(list, ret, size, align, max)
      && (ret == 0 <==> NoRoom(list, RoundUp(size) + align, max))
  {
    RoundUpFacts(size);
    RoundedExact(size);
    NeedExact(size, align);
    var n := RoundUp(size) + align;
    ChosenHasRoom(list, n, max);
    var i := Chosen(list, n, max);
    if i >= 0 {
      AllocatedIsCarved(list, size, align, max);
      assert RangeOK(list[i]);
      if align > 0 {
        AdjustAligns(list[i].base, align);
      }
    }
  }

  lemma {:induction false} RoundedExact(size: nat)
    requires size <= WORD - 4096
    ensures Rounded(size) == RoundUp(size)
  {
    RoundUpFacts(size);
    RoundedCoversIff(size);
  }

  /** A request that rounds to 0 gets a page that stays free, and with an alignment it
      leaves two adjacent nodes. */
  lemma {:induction false} HugeSizeStaysFree()
    ensures Allocated([Range(4096, 4096)], WORD - 1, 0, WORD - 1) == Answer(4096, [Range(4096, 4096)])
    ensures Allocated([Range(4096, 8192)], WORD - 1, 4096, WORD - 1) == Answer(8192, [Range(4096, 4096), Range(8192, 4096)])
    ensures !ListOK([Range(4096, 4096), Range(8192, 4096)])
  {
    var list := [Range(4096, 4096), Range(8192, 4096)];
    assert list[0].base + list[0].size == list[1].base;
  }

  /** A request whose size and alignment add up to 2^64 is found a page, and the list
      then claims more than 2^63 bytes that were never free. */
  lemma {:induction false} WrappedSumInventsMemory()
    ensures NoWrap(0x8000_0000_0000_0000, 0) && !NoWrap(0x8000_0000_0000_0000, 0x8000_0000_0000_0000)
    ensures Allocated([Range(4096, 4096)], 0x8000_0000_0000_0000, 0x8000_0000_0000_0000, WORD - 1)
         == Answer(0x8000_0000_0000_0000, [Range(4096, 0x7FFF_FFFF_FFFF_F000), Range(0, 8192)])
  {
  }

  /** A free range that touches no free address is never rejected and reaches over
      nothing. */
  lemma {:induction false} DisjointIsClear(list: seq<Range>, n: Range)
    requires ListOK(list) && RangeOK(n) && forall a :: In(n, a) ==> !Free(list, a)
    ensures ClearBelow(list, n.base) && !Hit(list, n.base, n.size)
  {
    forall i | 0 <= i < |list| && list[i].base < n.base ensures list[i].base + list[i].size <= n.base {
      assert In(list[i], n.base) ==> Free(list, n.base);
      assert In(n, n.base);
    }
    forall i | 0 <= i < |list| ensures !(n.base <= list[i].base < n.base + n.size) {
      assert RangeOK(list[i]) && In(list[i], list[i].base);
      assert Free(list, list[i].base);
    }
  }

  /** Two lists in normal form that cover the same addresses are equal, so the set
      of free addresses determines the list: freeing what was just allocated
      restores the very same list. */
  lemma {:induction false} NormalFormUnique(x: seq<Range>, y: seq<Range>)
    requires ListOK(x) && ListOK(y) && forall a :: Free(x, a) <==> Free(y, a)
    ensures x == y
    decreases |x|
  {
    if x == [] || y == [] {
      FirstFree(x);
      FirstFree(y);
    } else {
      FirstsEqual(x, y);
      forall a ensures Free(x[1..], a) <==> Free(y[1..], a) {
        TailFree(x, a);
        TailFree(y, a);
      }
      PartsOK(x, 0, 1);
      PartsOK(y, 0, 1);
      NormalFormUnique(x[1..], y[1..]);
      assert x == [x[0]] + x[1..] && y == [y[0]] + y[1..];
    }
  }

  /** Allocating range r and freeing it again gives back the very same list. */
  lemma {:induction false} AllocThenFree(list: seq<Range>, taken: seq<Range>, back: seq<Range>, r: Range)
    requires ListOK(list) && ListOK(back)
    requires forall a :: In(r, a) ==> Free(list, a)
    requires forall a :: Free(taken, a) <==> Free(list, a) && !In(r, a)
    requires forall a :: Free(back, a) <==> Free(taken, a) || In(r, a)
    ensures back == list
  {
    NormalFormUnique(back, list);
  }

  lemma {:induction false} TailFree(x: seq<Range>, a: int)
    requires ListOK(x) && x != []
    ensures Free(x[1..], a) <==> Free(x, a) && !In(x[0], a)
  {
    assert x == [x[0]] + x[1..];
    FreeOfParts([x[0]], x[1..], a);
    FreeOfOne(x[0], a);
    if In(x[0], a) {
      OnlyThere(x, 0, a);
    }
  }

  lemma {:induction false} FirstsEqual(x: seq<Range>, y: seq<Range>)
    requires ListOK(x) && ListOK(y) && x != [] && y != [] && forall a :: Free(x, a) <==> Free(y, a)
    ensures x[0] == y[0]
  {
    StartsNoEarlier(x, y);
    StartsNoEarlier(y, x);
    EndsNoEarlier(x, y);
    EndsNoEarlier(y, x);
  }

  lemma {:induction false} StartsNoEarlier(x: seq<Range>, y: seq<Range>)
    requires ListOK(x) && ListOK(y) && x != [] && y != [] && forall a :: Free(x, a) ==> Free(y, a)
    ensures y[0].base <= x[0].base
  {
    var a := x[0].base;
    assert In(x[0], a);
    assert Free(x, a);
    var i :| 0 <= i < |y| && In(y[i], a);
    assert i > 0 ==> y[0].base + y[0].size < y[i].base;
  }

  lemma {:induction false} EndsNoEarlier(x: seq<Range>, y: seq<Range>)
    requires ListOK(x) && ListOK(y) && x != [] && y != [] && x[0].base == y[0].base && forall a :: Free(x, a) <==> Free(y, a)
    ensures x[0].base + x[0].size <= y[0].base + y[0].size
  {
    var e := y[0].base + y[0].size;
    NotFreeAtEnd(y);
    assert In(x[0], e) ==> Free(x, e);
  }

  lemma {:induction false} FirstFree(x: seq<Range>)
    requires ListOK(x)
    ensures x != [] ==> Free(x, x[0].base)
  {
    assert x != [] ==> In(x[0], x[0].base);
  }

  lemma {:induction false} NotFreeAtEnd(x: seq<Range>)
    requires ListOK(x) && x != []
    ensures !Free(x, x[0].base + x[0].size)
  {
  }
}
