/**
  The state of a mounted volume as values: its invariant, what linking a new
  block into an inode's tree does to it, and the block map it defines.
 */
module Ext2Store {
  import opened Wrappers
  import opened Ext2Layout
  import opened Ext2Tree
  import opened Ext2Bitmap
  import opened Ext2Bytes

  /** What the superblock fixes. `reserved` are the metadata blocks, and the numbers behind
      the device that a short last group has bits for. */
  datatype Geo = Geo(blockSize: nat, blocks: nat, groups: nat, perGroup: nat, inodesPerGroup: nat, reserved: set<nat>)

  function Ptrs(blockSize: nat): nat {
    blockSize / 4
  }

  /** Block sizes go up to 64 KiB, and bitmaps are whole 64-bit words. */
  ghost predicate GeoOK(geo: Geo) {
    && 512 <= geo.blockSize <= 0x1_0000 && geo.blockSize % 512 == 0
    && geo.perGroup > 0 && geo.perGroup % 64 == 0
    && geo.groups > 0 && 0 < geo.blocks <= TWO32 && geo.inodesPerGroup > 0
  }

  /** Everything block allocation touches except the inodes; `used` is the set
      view of the bitmaps and `owner` the inverse of the block map. */
  datatype Store = Store(disk: Disk, bitmap: seq<Bits>, groupFree: seq<nat>, totalFree: int,
                         used: set<nat>, owner: map<nat, Owner>)

  /** i_blocks counts 512-byte units and wraps at 32 bits. */
  function Usage(blockSize: nat, n: nat): nat {
    (blockSize / 512 * n) % TWO32
  }

  ghost predicate InodeOK(geo: Geo, owner: map<nat, Owner>, ino: nat, inode: Inode) {
    && inode.sizeLo < TWO32 && inode.sizeHi < TWO32
    && inode.blocks512 == Usage(geo.blockSize, |Owned(owner, ino)|)
  }

  /** The bitmaps, their set view and the free counts agree. */
  ghost predicate BitsOK(geo: Geo, s: Store) {
    && |s.bitmap| == geo.groups
    && Marks(s.bitmap, geo.perGroup, s.used) && ClearInside(s.bitmap, geo.perGroup, geo.blocks)
    && CountsOK(s.bitmap, s.groupFree, s.totalFree)
    && 0 in geo.reserved && geo.reserved <= s.used
  }

  /** Blocks have the block size, and the referenced ones are marked used and
      are not metadata. */
  ghost predicate BlocksOK(geo: Geo, s: Store) {
    && |s.disk| == geo.blocks
    && (forall b :: 0 <= b < |s.disk| ==> |s.disk[b]| == geo.blockSize)
    && s.owner.Keys <= s.used - geo.reserved
  }

  /** The volume invariant: pointers are unique and allocated, counts agree
      with the bitmaps, and i_blocks agrees with the trees. */
  ghost predicate Consistent(geo: Geo, s: Store, inodes: Inodes) {
    && GeoOK(geo)
    && BitsOK(geo, s)
    && BlocksOK(geo, s)
    && (forall key {:trigger Opened(key)} :: Opened(key) ==> FilesOK(geo, s, inodes))
  }

  /** The part of the invariant about inodes. `Consistent` shows it to those who mention
      the key, so that callers who only pass the invariant on do not unfold it. */
  ghost predicate FilesOK(geo: Geo, s: Store, inodes: Inodes) {
    && TreeOK(Ptrs(geo.blockSize), s.disk, inodes, s.owner)
    && (forall i :: i in inodes ==> InodeOK(geo, s.owner, i, inodes[i]))
  }

  /** The scan that starts at a full last group leaves the table of groups: the wrap to
      group 0 comes one group earlier. */
  ghost predicate LeavesTable(geo: Geo, bitmap: seq<Bits>, start: nat) {
    |bitmap| == geo.groups && start == geo.groups - 1 && Full(bitmap[start])
  }

  /** No group that a scan from `start` looks at has a block left. */
  ghost predicate NoFreeBlock(geo: Geo, bitmap: seq<Bits>, start: nat) {
    || LeavesTable(geo, bitmap, start)
    || (|bitmap| == geo.groups && start < geo.groups - 1 && forall g :: 0 <= g < geo.groups - 1 ==> Full(bitmap[g]))
  }

  /** The group of an inode. */
  ghost function Home(geo: Geo, ino: nat): nat {
    if ino == 0 || geo.inodesPerGroup == 0 then 0 else UnitOf(ino - 1, geo.inodesPerGroup)
  }

  /** One block was taken from the bitmaps. */
  ghost predicate Taken(geo: Geo, s: Store, s': Store, nb: nat) {
    && 0 < nb < |s.disk| && nb < TWO32
    && nb !in s.used && s'.used == s.used + {nb}
    && BitsOK(geo, s')
    && s'.totalFree == s.totalFree - 1
  }

  /** The groups before distance `d` in scan order are full. */
  ghost predicate ScannedFull(bitmap: seq<Bits>, start: nat, scanned: nat, d: int) {
    forall h :: 0 <= h < scanned && h < |bitmap| && ScanDistance(start, h, scanned) < d ==> Full(bitmap[h])
  }

  lemma {:induction false} NextGroup(bitmap: seq<Bits>, start: nat, g: nat, scanned: nat)
    requires g < |bitmap| && Full(bitmap[g]) && start < scanned && g < scanned
    requires ScannedFull(bitmap, start, scanned, ScanDistance(start, g, scanned))
    ensures ScannedFull(bitmap, start, scanned, ScanDistance(start, g, scanned) + 1)
  {
  }

  /** `block` is the first clear bit of group g. */
  ghost predicate FirstIn(geo: Geo, bitmap: seq<Bits>, g: nat, block: nat) {
    g < |bitmap| && exists k: nat ::
      k < |bitmap[g]| && !bitmap[g][k] && Full(bitmap[g][..k]) && block == BlockOf(geo.perGroup, g, k)
  }

  /** `block` is the first clear bit in scan order. */
  ghost predicate FirstFit(geo: Geo, bitmap: seq<Bits>, start: nat, block: nat) {
    exists g: nat :: FirstIn(geo, bitmap, g, block)
      && (g == start
          || (g < geo.groups - 1 && start < geo.groups - 1 && ScannedFull(bitmap, start, geo.groups - 1, ScanDistance(start, g, geo.groups - 1))))
  }

  /** Set bits stay set. */
  ghost predicate BitsKept(bitmap: seq<Bits>, bitmap': seq<Bits>) {
    |bitmap'| == |bitmap| && forall g :: 0 <= g < |bitmap| ==> |bitmap'[g]| == |bitmap[g]| && KeptIn(bitmap[g], bitmap'[g])
  }

  ghost predicate KeptIn(bits: Bits, bits': Bits) {
    |bits'| == |bits| && forall k :: 0 <= k < |bits| && bits[k] ==> bits'[k]
  }

  /** `block` belongs to group g, and all bits before it are set. */
  ghost predicate ReachedIn(geo: Geo, bitmap: seq<Bits>, g: nat, block: nat) {
    g < |bitmap| && exists k: nat :: k < |bitmap[g]| && Full(bitmap[g][..k]) && block == BlockOf(geo.perGroup, g, k)
  }

  /** Every bit that a scan from `start` looks at before that of `block` is set, so that a
      block just taken was the first one free. */
  ghost predicate NoneBefore(geo: Geo, bitmap: seq<Bits>, start: nat, block: nat) {
    exists g: nat {:trigger ReachedIn(geo, bitmap, g, block)} :: ReachedIn(geo, bitmap, g, block)
      && (g == start
          || (g < geo.groups - 1 && start < geo.groups - 1 && ScannedFull(bitmap, start, geo.groups - 1, ScanDistance(start, g, geo.groups - 1))))
  }

  lemma {:induction false} FullKept(bits: Bits, bits': Bits, k: nat)
    requires KeptIn(bits, bits') && k <= |bits| && Full(bits[..k])
    ensures Full(bits'[..k])
  {
    forall i | 0 <= i < k ensures bits'[..k][i] {
      assert bits[..k][i] == bits[i];
    }
  }

  lemma {:induction false} FirstStays(geo: Geo, bitmap: seq<Bits>, bitmap': seq<Bits>, start: nat, block: nat)
    requires FirstFit(geo, bitmap, start, block) && BitsKept(bitmap, bitmap')
    ensures NoneBefore(geo, bitmap', start, block)
  {
    var n := geo.groups - 1;
    var g: nat :| FirstIn(geo, bitmap, g, block)
      && (g == start || (g < n && start < n && ScannedFull(bitmap, start, n, ScanDistance(start, g, n))));
    var k: nat :| k < |bitmap[g]| && !bitmap[g][k] && Full(bitmap[g][..k]) && block == BlockOf(geo.perGroup, g, k);
    FullKept(bitmap[g], bitmap'[g], k);
    assert ReachedIn(geo, bitmap', g, block);
  }

  lemma {:induction false} WrapAdd(x: nat, u: nat)
    ensures (x % TWO32 + u) % TWO32 == (x + u) % TWO32
  {
  }

  lemma {:induction false} UsageStep(blockSize: nat, n: nat)
    ensures Usage(blockSize, n + 1) == (Usage(blockSize, n) + blockSize / 512) % TWO32
  {
    var u := blockSize / 512;
    WrapAdd(u * n, u);
    assert u * (n + 1) == u * n + u;
  }

  /** The inode after its tree gained block `nb` at place `c`. */
  function Charged(geo: Geo, inode: Inode, c: Place, nb: nat): Inode {
    inode.(ptrs := LinkedPtrs(inode.ptrs, c, nb), blocks512 := (inode.blocks512 + geo.blockSize / 512) % TWO32)
  }

  /** i_blocks keeps up when the tree of inode `ino` gains one block. */
  lemma {:induction false} GrowInodes(geo: Geo, owner: map<nat, Owner>, inodes: Inodes, ino: nat, c: Place, nb: nat)
    requires nb !in owner && ino in inodes
    requires forall i :: i in inodes ==> InodeOK(geo, owner, i, inodes[i])
    ensures forall i :: i in inodes ==>
      InodeOK(geo, owner[nb := Owner(ino, c)], i, inodes[ino := Charged(geo, inodes[ino], c, nb)][i])
  {
    UsageStep(geo.blockSize, |Owned(owner, ino)|);
    forall i | i in inodes
      ensures InodeOK(geo, owner[nb := Owner(ino, c)], i, inodes[ino := Charged(geo, inodes[ino], c, nb)][i])
    {
      OwnedGrows(owner, nb, ino, c, i);
    }
  }

  lemma {:induction false} RefZeroBelow(disk: Disk, ptrs: seq<nat>, slot: nat, path: seq<nat>, d: nat)
    requires d <= |path| && Ref(disk, ptrs, Place(slot, path[..d])) == 0
    ensures Ref(disk, ptrs, Place(slot, path)) == 0
    decreases |path| - d
  {
    if d == |path| {
      assert path[..d] == path;
    } else {
      assert Parent(Place(slot, path[..d + 1])).path == path[..d];
      RefZeroBelow(disk, ptrs, slot, path, d + 1);
    }
  }

  lemma {:induction false} RefStep(disk: Disk, ptrs: seq<nat>, slot: nat, path: seq<nat>, d: nat)
    requires d < |path| && slot < |ptrs|
    ensures Ref(disk, ptrs, Place(slot, path[..d + 1])) ==
            Entry(disk, Ref(disk, ptrs, Place(slot, path[..d])), path[d])
  {
    assert Parent(Place(slot, path[..d + 1])).path == path[..d];
  }

  datatype BlockState = BlockOk | BlockSparse | BlockError

  /** Slot and entry numbers for a logical block, by the driver's formula. */
  method Locate(blockSize: nat, index: nat) returns (found: bool, target: Place)
    requires 4 <= blockSize
    ensures found <==> index < MaxBlocks(Ptrs(blockSize))
    ensures found ==> target == PlaceOf(Ptrs(blockSize), index) && LeafPlace(Ptrs(blockSize), target)
  {
    var p := Ptrs(blockSize);
    DriverPlaceCorrect(p, index);
    match DriverPlace(p, index)
    case TooFar =>
      found, target := false, Place(0, []);
    case Route(slot, path) =>
      PlaceOfIsLeaf(p, index);
      found, target := true, Place(slot, path);
  }

  /** The group an inode lives in, where its blocks are looked for first. */
  method HomeGroup(geo: Geo, ino: nat) returns (group: nat)
    requires 0 < ino && 0 < geo.inodesPerGroup
    ensures group == Home(geo, ino)
    ensures Start(group, geo.inodesPerGroup) < ino <= Start(group + 1, geo.inodesPerGroup)
  {
    UnitIsQuotient(ino - 1, geo.inodesPerGroup);
    group := (ino - 1) / geo.inodesPerGroup;
  }

  /** The tree places on the way to one logical block. */
  ghost predicate OnPath(at: Place, target: Place) {
    at.slot == target.slot && at.path <= target.path
  }

  /** Data blocks keep their owner and their bytes. */
  ghost predicate LeafDataKept(p: nat, s: Store, s': Store) {
    forall b :: b in s.owner ==>
      && b in s'.owner && s'.owner[b] == s.owner[b]
      && (LeafPlace(p, s.owner[b].at) && b < |s.disk| && b < |s'.disk| ==> s'.disk[b] == s.disk[b])
  }

  /** Same inodes, same sizes; only inode `ino` may differ. */
  ghost predicate SameButBlocks(inodes: Inodes, inodes': Inodes, ino: nat) {
    && inodes'.Keys == inodes.Keys
    && (forall i :: i in inodes && i != ino ==> inodes'[i] == inodes[i])
    && (ino in inodes ==> inodes'[ino].sizeLo == inodes[ino].sizeLo && inodes'[ino].sizeHi == inodes[ino].sizeHi)
  }

  lemma {:induction false} SameButBlocksTrans(a: Inodes, b: Inodes, c: Inodes, ino: nat)
    requires SameButBlocks(a, b, ino) && SameButBlocks(b, c, ino)
    ensures SameButBlocks(a, c, ino)
  {
  }

  /** Outcome of making sure that place `c` of inode `ino` holds a pointer. */
  ghost predicate Grown(geo: Geo, s: Store, inodes: Inodes, s': Store, inodes': Inodes, ino: nat, c: Place, block: nat) {
    var p := Ptrs(geo.blockSize);
    && SameButBlocks(inodes, inodes', ino)
    && LeafDataKept(p, s, s')
    && if RefOf(s.disk, inodes, ino, c) != 0 then
         s' == s && inodes' == inodes && block == RefOf(s.disk, inodes, ino, c)
       else if block == 0 then
         s' == s && inodes' == inodes && NoFreeBlock(geo, s.bitmap, Home(geo, ino))
       else
         && OnlyRefChanged(p, s.disk, inodes, s'.disk, inodes', ino, c, block) && NoneBefore(geo, s'.bitmap, Home(geo, ino), block)
         && block < |s'.disk| && s'.disk[block] == Zeros(geo.blockSize)
         && block !in s.owner && s'.owner == s.owner[block := Owner(ino, c)]
  }

  /** Nothing to allocate, or nothing left to allocate. */
  lemma {:induction false} GrownSame(geo: Geo, s: Store, inodes: Inodes, ino: nat, c: Place, block: nat)
    requires Consistent(geo, s, inodes) && RefOf(s.disk, inodes, ino, c) == block
    requires block == 0 ==> NoFreeBlock(geo, s.bitmap, Home(geo, ino))
    ensures Grown(geo, s, inodes, s, inodes, ino, c, block)
  {
    assert Opened(true);
  }

  /** The indirect block above a place is a block of the device. */
  lemma {:induction false} ParentUsable(geo: Geo, s: Store, inodes: Inodes, ino: nat, c: Place)
    requires Consistent(geo, s, inodes) && ino in inodes
    requires ValidPlace(Ptrs(geo.blockSize), c) && c.path != []
    requires RefOf(s.disk, inodes, ino, Parent(c)) != 0
    ensures var parent := RefOf(s.disk, inodes, ino, Parent(c));
      && 0 < parent < |s.disk| && parent in s.owner && parent in s.used
      && !LeafPlace(Ptrs(geo.blockSize), s.owner[parent].at)
      && |s.disk[parent]| == geo.blockSize
      && RefOf(s.disk, inodes, ino, c) == PtrAt(s.disk[parent], Last(c))
    ensures 4 * Last(c) + 4 <= geo.blockSize
  {
    assert Opened(true);
    ParentValid(Ptrs(geo.blockSize), c);
    assert s.owner[RefOf(s.disk, inodes, ino, Parent(c))] == Owner(ino, Parent(c));
  }

  lemma {:induction false} GrowBlocks(geo: Geo, s: Store, inodes: Inodes, s': Store, ino: nat, c: Place, nb: nat)
    requires BlocksOK(geo, s) && Taken(geo, s, s', nb) && geo.reserved <= s.used
    requires CanLink(Ptrs(geo.blockSize), s.disk, inodes, ino, c, nb)
    requires s'.disk == LinkedDisk(Ptrs(geo.blockSize), s.disk, inodes, ino, c, nb, geo.blockSize)
    requires s'.owner == s.owner[nb := Owner(ino, c)]
    ensures BlocksOK(geo, s') && s'.disk[nb] == Zeros(geo.blockSize)
  {
  }

  lemma {:induction false} GrowKeepsLeafData(geo: Geo, s: Store, inodes: Inodes, s': Store, ino: nat, c: Place, nb: nat)
    requires CanLink(Ptrs(geo.blockSize), s.disk, inodes, ino, c, nb) && nb !in s.owner
    requires c.path != [] ==>
      var parent := RefOf(s.disk, inodes, ino, Parent(c));
      parent in s.owner && !LeafPlace(Ptrs(geo.blockSize), s.owner[parent].at)
    requires s'.disk == LinkedDisk(Ptrs(geo.blockSize), s.disk, inodes, ino, c, nb, geo.blockSize)
    requires s'.owner == s.owner[nb := Owner(ino, c)]
    ensures LeafDataKept(Ptrs(geo.blockSize), s, s')
  {
  }

  /** Taking a block, zeroing it and linking it into an empty place keeps the
      volume invariant, and changes the pointer at that place only. */
  lemma {:induction false} GrownBy(geo: Geo, s: Store, inodes: Inodes, s': Store, inodes': Inodes, ino: nat, c: Place, nb: nat)
    requires Consistent(geo, s, inodes) && ino in inodes && ValidPlace(Ptrs(geo.blockSize), c)
    requires RefOf(s.disk, inodes, ino, c) == 0 && Taken(geo, s, s', nb) && NoneBefore(geo, s'.bitmap, Home(geo, ino), nb)
    requires c.path != [] ==> RefOf(s.disk, inodes, ino, Parent(c)) != 0
    requires CanLink(Ptrs(geo.blockSize), s.disk, inodes, ino, c, nb)
    requires s'.disk == LinkedDisk(Ptrs(geo.blockSize), s.disk, inodes, ino, c, nb, geo.blockSize)
    requires s'.owner == s.owner[nb := Owner(ino, c)]
    requires inodes' == inodes[ino := Charged(geo, inodes[ino], c, nb)]
    ensures Consistent(geo, s', inodes')
    ensures Grown(geo, s, inodes, s', inodes', ino, c, nb)
  {
    assert Opened(true);
    if c.path != [] {
      ParentUsable(geo, s, inodes, ino, c);
    }
    LinkKeepsTree(Ptrs(geo.blockSize), s.disk, inodes, s.owner, inodes'[ino], ino, c, nb, geo.blockSize);
    GrowBlocks(geo, s, inodes, s', ino, c, nb);
    GrowInodes(geo, s.owner, inodes, ino, c, nb);
    GrowKeepsLeafData(geo, s, inodes, s', ino, c, nb);
  }

  lemma {:induction false} SlotsThere(geo: Geo, s: Store, inodes: Inodes, ino: nat)
    requires Consistent(geo, s, inodes) && ino in inodes
    ensures |inodes[ino].ptrs| == SLOTS && forall slot :: 0 <= slot < SLOTS ==> RefOf(s.disk, inodes, ino, Place(slot, [])) == inodes[ino].ptrs[slot]
  {
    assert Opened(true);
  }

  /** The same for a slot of the inode. */
  lemma {:induction false} SlotGrown(geo: Geo, s: Store, inodes: Inodes, s': Store, inodes': Inodes, ino: nat, slot: nat, nb: nat)
    requires Consistent(geo, s, inodes) && ino in inodes && slot < SLOTS && |inodes[ino].ptrs| == SLOTS && inodes[ino].ptrs[slot] == 0
    requires Taken(geo, s, s', nb) && NoneBefore(geo, s'.bitmap, Home(geo, ino), nb)
    requires s'.disk == s.disk[nb := Zeros(geo.blockSize)] && s'.owner == s.owner[nb := Owner(ino, Place(slot, []))]
    requires inodes' == inodes[ino := inodes[ino].(ptrs := inodes[ino].ptrs[slot := nb], blocks512 := (inodes[ino].blocks512 + geo.blockSize / 512) % TWO32)]
    ensures Consistent(geo, s', inodes')
    ensures Grown(geo, s, inodes, s', inodes', ino, Place(slot, []), nb)
  {
    GrownBy(geo, s, inodes, s', inodes', ino, Place(slot, []), nb);
  }

  lemma {:induction false} EntryCanLink(geo: Geo, s: Store, inodes: Inodes, ino: nat, c: Place, nb: nat)
    requires Consistent(geo, s, inodes) && ino in inodes && ValidPlace(Ptrs(geo.blockSize), c) && c.path != []
    requires RefOf(s.disk, inodes, ino, Parent(c)) != 0 && 0 < nb < |s.disk| && nb < TWO32 && nb !in s.used
    ensures CanLink(Ptrs(geo.blockSize), s.disk, inodes, ino, c, nb)
  {
    assert Opened(true);
    ParentUsable(geo, s, inodes, ino, c);
  }

  /** The same for an entry of an indirect block. */
  lemma {:induction false} EntryGrown(geo: Geo, s: Store, inodes: Inodes, s': Store, inodes': Inodes, ino: nat, c: Place, parent: nat, nb: nat)
    requires Consistent(geo, s, inodes) && ino in inodes && ValidPlace(Ptrs(geo.blockSize), c) && c.path != []
    requires RefOf(s.disk, inodes, ino, c) == 0 && RefOf(s.disk, inodes, ino, Parent(c)) == parent != 0 && parent < |s.disk|
    requires Taken(geo, s, s', nb) && 4 * Last(c) + 4 <= |s.disk[parent]| && NoneBefore(geo, s'.bitmap, Home(geo, ino), nb)
    requires s'.disk == s.disk[nb := Zeros(geo.blockSize)][parent := SetPtr(s.disk[parent], Last(c), nb)]
    requires s'.owner == s.owner[nb := Owner(ino, c)]
    requires inodes' == inodes[ino := inodes[ino].(blocks512 := (inodes[ino].blocks512 + geo.blockSize / 512) % TWO32)]
    ensures Consistent(geo, s', inodes')
    ensures Grown(geo, s, inodes, s', inodes', ino, c, nb)
  {
    EntryCanLink(geo, s, inodes, ino, c, nb);
    GrownBy(geo, s, inodes, s', inodes', ino, c, nb);
  }

  /** What assign_block may have done after `d` levels of the path to `target`:
      pointers that existed are kept, and new ones sit on that path only. */
  ghost predicate GrownTo(p: nat, s: Store, inodes: Inodes, s': Store, inodes': Inodes, ino: nat, target: Place, d: nat) {
    && SameButBlocks(inodes, inodes', ino)
    && LeafDataKept(p, s, s')
    && (forall i, at {:trigger RefOf(s'.disk, inodes', i, at)} :: i in inodes && ValidPlace(p, at) ==>
          || RefOf(s'.disk, inodes', i, at) == RefOf(s.disk, inodes, i, at)
          || (RefOf(s.disk, inodes, i, at) == 0 && i == ino && OnPath(at, target) && |at.path| <= d))
  }

  lemma {:induction false} GrownToStart(p: nat, s: Store, inodes: Inodes, ino: nat, target: Place, d: nat)
    ensures GrownTo(p, s, inodes, s, inodes, ino, target, d)
  {
  }

  lemma {:induction false} LeafDataKeptTrans(p: nat, s0: Store, s: Store, s': Store)
    requires LeafDataKept(p, s0, s) && LeafDataKept(p, s, s')
    requires |s0.disk| == |s.disk| == |s'.disk|
    ensures LeafDataKept(p, s0, s')
  {
  }

  lemma {:induction false} GrownToStep(geo: Geo, s0: Store, inodes0: Inodes, s: Store, inodes: Inodes, s': Store, inodes': Inodes,
                    ino: nat, target: Place, d: nat, d': nat, block: nat)
    requires GrownTo(Ptrs(geo.blockSize), s0, inodes0, s, inodes, ino, target, d)
    requires d <= d' <= |target.path| && |s0.disk| == |s.disk| == |s'.disk|
    requires Grown(geo, s, inodes, s', inodes', ino, Place(target.slot, target.path[..d']), block)
    ensures GrownTo(Ptrs(geo.blockSize), s0, inodes0, s', inodes', ino, target, d')
  {
    var p := Ptrs(geo.blockSize);
    LeafDataKeptTrans(p, s0, s, s');
    forall i, at | i in inodes0 && ValidPlace(p, at)
      ensures
        || RefOf(s'.disk, inodes', i, at) == RefOf(s0.disk, inodes0, i, at)
        || (RefOf(s0.disk, inodes0, i, at) == 0 && i == ino && OnPath(at, target) && |at.path| <= d')
    {
      assert RefOf(s'.disk, inodes', i, at) == RefOf(s.disk, inodes, i, at) || (i == ino && at == Place(target.slot, target.path[..d']));
    }
  }

  /** assign_block has processed `d` levels and holds pointer `block`: 0 only if
      the volume is full, and a zeroed new block if the level was empty. */
  ghost predicate Reached(geo: Geo, s0: Store, inodes0: Inodes, s: Store, inodes: Inodes,
                          ino: nat, target: Place, d: nat, block: nat) {
    && d <= |target.path| && |s.disk| == |s0.disk|
    && GrownTo(Ptrs(geo.blockSize), s0, inodes0, s, inodes, ino, target, d)
    && block == RefOf(s.disk, inodes, ino, Place(target.slot, target.path[..d]))
    && (block == 0 ==> NoFreeBlock(geo, s.bitmap, Home(geo, ino)))
    && (block != 0 && RefOf(s0.disk, inodes0, ino, Place(target.slot, target.path[..d])) == 0 ==>
          block !in s0.owner && block < |s.disk| && s.disk[block] == Zeros(geo.blockSize) && NoneBefore(geo, s.bitmap, Home(geo, ino), block))
  }

  lemma {:induction false} ReachedStep(geo: Geo, s0: Store, inodes0: Inodes, s: Store, inodes: Inodes, s': Store, inodes': Inodes,
                    ino: nat, target: Place, d: nat, d': nat, block: nat)
    requires GrownTo(Ptrs(geo.blockSize), s0, inodes0, s, inodes, ino, target, d)
    requires ino in inodes0 && ValidPlace(Ptrs(geo.blockSize), target)
    requires d <= d' <= |target.path| && (d == d' ==> s == s0 && inodes == inodes0)
    requires |s0.disk| == |s.disk| == |s'.disk|
    requires Grown(geo, s, inodes, s', inodes', ino, Place(target.slot, target.path[..d']), block)
    ensures Reached(geo, s0, inodes0, s', inodes', ino, target, d', block)
  {
    GrownToStep(geo, s0, inodes0, s, inodes, s', inodes', ino, target, d, d', block);
    var c := Place(target.slot, target.path[..d']);
    assert ValidPlace(Ptrs(geo.blockSize), c);
    assert RefOf(s.disk, inodes, ino, c) == RefOf(s0.disk, inodes0, ino, c);
  }

  /** A missing level ends the walk: the target itself is still unmapped. */
  lemma {:induction false} ReachedEnd(geo: Geo, s0: Store, inodes0: Inodes, s: Store, inodes: Inodes,
                   ino: nat, target: Place, d: nat, block: nat)
    requires Reached(geo, s0, inodes0, s, inodes, ino, target, d, block)
    requires block == 0 || d == |target.path|
    ensures Reached(geo, s0, inodes0, s, inodes, ino, target, |target.path|, block)
  {
    if block == 0 && ino in inodes {
      RefZeroBelow(s.disk, inodes[ino].ptrs, target.slot, target.path, d);
      assert target.path[..|target.path|] == target.path;
    }
  }

  // The block map.

  /** The block that get_block finds for logical block `j` of inode `i`. */
  function Mapping(geo: Geo, disk: Disk, inodes: Inodes, i: nat, j: nat): nat {
    var p := Ptrs(geo.blockSize);
    if 0 < p && j < MaxBlocks(p) then RefOf(disk, inodes, i, PlaceOf(p, j)) else 0
  }

  /** `m` is the block map of the volume. */
  ghost predicate IsMap(geo: Geo, disk: Disk, inodes: Inodes, m: FileMap) {
    forall i, j: nat {:trigger Mapping(geo, disk, inodes, i, j)} :: m(i, j) == Mapping(geo, disk, inodes, i, j)
  }

  ghost function MapOf(geo: Geo, disk: Disk, inodes: Inodes): (m: FileMap)
    ensures IsMap(geo, disk, inodes, m)
  {
    (i, j) => Mapping(geo, disk, inodes, i, j)
  }

  /** `n` is the number of logical blocks a file can have. */
  ghost predicate IsCapacity(geo: Geo, n: nat) {
    forall p {:trigger MaxBlocks(p)} :: p == Ptrs(geo.blockSize) ==> n == MaxBlocks(p)
  }

  /** A mapped logical block is a data block of that inode. */
  lemma {:induction false} MappedBlock(geo: Geo, s: Store, inodes: Inodes, i: nat, j: nat)
    requires Consistent(geo, s, inodes) && i in inodes
    ensures var b := Mapping(geo, s.disk, inodes, i, j);
      b != 0 ==>
        && b in s.owner && b < |s.disk| && |s.disk[b]| == geo.blockSize
        && j < MaxBlocks(Ptrs(geo.blockSize))
        && s.owner[b] == Owner(i, PlaceOf(Ptrs(geo.blockSize), j))
        && LeafPlace(Ptrs(geo.blockSize), s.owner[b].at)
  {
    assert Opened(true);
    if j < MaxBlocks(Ptrs(geo.blockSize)) {
      PlaceOfIsLeaf(Ptrs(geo.blockSize), j);
    }
  }

  /** No two logical blocks of any two files share a device block. */
  lemma {:induction false} MapIsOK(geo: Geo, s: Store, inodes: Inodes, m: FileMap)
    requires Consistent(geo, s, inodes) && IsMap(geo, s.disk, inodes, m)
    ensures MapOK(geo.blockSize, s.disk, m, inodes.Keys)
  {
    assert Opened(true);
    forall i, j | i in inodes && 0 <= j && m(i, j) != 0
      ensures m(i, j) < |s.disk| && |s.disk[m(i, j)]| == geo.blockSize
    {
      MappedBlock(geo, s, inodes, i, j);
    }
    forall i, j, i', j' | i in inodes && i' in inodes && 0 <= j && 0 <= j' && m(i, j) == m(i', j') != 0
      ensures i == i' && j == j'
    {
      MappedBlock(geo, s, inodes, i, j);
      MappedBlock(geo, s, inodes, i', j');
      PlaceOfInjective(Ptrs(geo.blockSize), j, j');
    }
  }

  /** Filling the leaf place `target` leaves all other leaf pointers alone, keeps
      the bytes of mapped data blocks, and fills `target` with a block of zeros. */
  lemma {:induction false} LeafRefEffect(geo: Geo, s: Store, inodes: Inodes, s': Store, inodes': Inodes,
                                         ino: nat, target: Place, block: nat, i: nat, at: Place)
    requires Consistent(geo, s, inodes) && Consistent(geo, s', inodes') && i in inodes
    requires LeafPlace(Ptrs(geo.blockSize), target) && LeafPlace(Ptrs(geo.blockSize), at)
    requires Reached(geo, s, inodes, s', inodes', ino, target, |target.path|, block)
    ensures var before, after := RefOf(s.disk, inodes, i, at), RefOf(s'.disk, inodes', i, at);
      && (i == ino && at == target ==> after == block)
      && (!(i == ino && at == target) || before != 0 ==> after == before)
      && (before != 0 ==> before < |s.disk| == |s'.disk| && s'.disk[before] == s.disk[before])
      && (before == 0 && after != 0 ==> after < |s'.disk| && s'.disk[after] == Zeros(geo.blockSize))
  {
    assert Opened(true);
    assert target.path[..|target.path|] == target.path;
    var before, after := RefOf(s.disk, inodes, i, at), RefOf(s'.disk, inodes', i, at);
    assert after == before || (before == 0 && i == ino && OnPath(at, target));
    assert before != 0 ==> before in s.owner && s.owner[before] == Owner(i, at);
  }

  /** assign_block and get_block agree: the block assigned to a logical block is
      the one found there afterwards, and no other mapping moves. */
  lemma {:induction false} AssignMapping(geo: Geo, s: Store, inodes: Inodes, s': Store, inodes': Inodes,
                                         ino: nat, index: nat, block: nat, i: nat, j: nat)
    requires Consistent(geo, s, inodes) && Consistent(geo, s', inodes')
    requires ino in inodes && i in inodes && index < MaxBlocks(Ptrs(geo.blockSize))
    requires var target := PlaceOf(Ptrs(geo.blockSize), index);
      Reached(geo, s, inodes, s', inodes', ino, target, |target.path|, block)
    ensures var b, b' := Mapping(geo, s.disk, inodes, i, j), Mapping(geo, s'.disk, inodes', i, j);
      && (b' == if i == ino && j == index then block else b)
      && (b != 0 ==> b' == b && b < |s.disk| == |s'.disk| && s'.disk[b] == s.disk[b])
      && (b == 0 && b' != 0 ==> b' < |s'.disk| && s'.disk[b'] == Zeros(geo.blockSize))
  {
    assert Opened(true);
    var p := Ptrs(geo.blockSize);
    if j < MaxBlocks(p) {
      PlaceOfIsLeaf(p, index);
      PlaceOfIsLeaf(p, j);
      var target, at := PlaceOf(p, index), PlaceOf(p, j);
      if at == target {
        PlaceOfInjective(p, j, index);
      }
      LeafRefEffect(geo, s, inodes, s', inodes', ino, target, block, i, at);
    }
  }

  lemma {:induction false} AssignMaps(geo: Geo, s: Store, inodes: Inodes, s': Store, inodes': Inodes, m: FileMap, m': FileMap,
                                      ino: nat, index: nat, block: nat)
    requires Consistent(geo, s, inodes) && Consistent(geo, s', inodes')
    requires IsMap(geo, s.disk, inodes, m) && IsMap(geo, s'.disk, inodes', m')
    requires ino in inodes && index < MaxBlocks(Ptrs(geo.blockSize))
    requires var target := PlaceOf(Ptrs(geo.blockSize), index);
      Reached(geo, s, inodes, s', inodes', ino, target, |target.path|, block)
    ensures BlockAssigned(geo.blockSize, s.disk, m, s'.disk, m', inodes.Keys, ino, index, block)
    ensures m'(ino, index) == block && (m(ino, index) == 0 && block != 0 ==> NoneBefore(geo, s'.bitmap, Home(geo, ino), block))
  {
    assert Opened(true);
    forall i, j: nat | i in inodes
      ensures
        && (m'(i, j) == if i == ino && j == index then block else m(i, j))
        && (m(i, j) != 0 ==> m'(i, j) == m(i, j) && m(i, j) < |s.disk| == |s'.disk| && s'.disk[m(i, j)] == s.disk[m(i, j)])
        && (m(i, j) == 0 && m'(i, j) != 0 ==> m'(i, j) < |s'.disk| && s'.disk[m'(i, j)] == Zeros(geo.blockSize))
    {
      AssignMapping(geo, s, inodes, s', inodes', ino, index, block, i, j);
    }
    assert m'(ino, index) == block;
    var target := PlaceOf(Ptrs(geo.blockSize), index);
    assert target.path[..|target.path|] == target.path;
    assert m(ino, index) == Mapping(geo, s.disk, inodes, ino, index);
  }

  /** Rewriting a data block keeps the volume invariant and moves no mapping. */
  lemma {:induction false} DataWriteConsistent(geo: Geo, s: Store, inodes: Inodes, b: nat, data: Block)
    requires Consistent(geo, s, inodes) && |data| == geo.blockSize
    requires b in s.owner && b < |s.disk| && LeafPlace(Ptrs(geo.blockSize), s.owner[b].at)
    ensures Consistent(geo, s.(disk := s.disk[b := data]), inodes)
  {
    assert Opened(true);
    DataWriteKeepsTree(Ptrs(geo.blockSize), s.disk, inodes, s.owner, b, data);
  }

  lemma {:induction false} DataWriteMaps(geo: Geo, s: Store, inodes: Inodes, b: nat, data: Block, m: FileMap, m': FileMap)
    requires Consistent(geo, s, inodes)
    requires b in s.owner && b < |s.disk| && LeafPlace(Ptrs(geo.blockSize), s.owner[b].at)
    requires IsMap(geo, s.disk, inodes, m) && IsMap(geo, s.disk[b := data], inodes, m')
    ensures SameMap(m, m', inodes.Keys)
  {
    assert Opened(true);
    var p := Ptrs(geo.blockSize);
    forall i, j: nat | i in inodes
      ensures m'(i, j) == m(i, j)
    {
      assert m(i, j) == Mapping(geo, s.disk, inodes, i, j) && m'(i, j) == Mapping(geo, s.disk[b := data], inodes, i, j);
      if j < MaxBlocks(p) {
        PlaceOfIsLeaf(p, j);
        DataWriteEffect(p, s.disk, inodes, s.owner, b, data, i, PlaceOf(p, j));
      }
    }
  }

  /** The size goes into i_size and i_dir_acl. */
  function WithSize(inode: Inode, size: nat): (r: Inode)
    ensures SizeOf(r) == size
  {
    inode.(sizeLo := size % TWO32, sizeHi := size / TWO32)
  }

  lemma {:induction false} ResizeConsistent(geo: Geo, s: Store, inodes: Inodes, ino: nat, size: nat)
    requires Consistent(geo, s, inodes) && ino in inodes && size < TWO64
    ensures Consistent(geo, s, inodes[ino := WithSize(inodes[ino], size)])
    ensures forall i, at {:trigger RefOf(s.disk, inodes[ino := WithSize(inodes[ino], size)], i, at)} ::
      RefOf(s.disk, inodes[ino := WithSize(inodes[ino], size)], i, at) == RefOf(s.disk, inodes, i, at)
  {
    assert Opened(true);
    var inodes' := inodes[ino := WithSize(inodes[ino], size)];
    assert forall i, at {:trigger RefOf(s.disk, inodes', i, at)} :: RefOf(s.disk, inodes', i, at) == RefOf(s.disk, inodes, i, at);
    assert inodes'.Keys == inodes.Keys;
  }

  lemma {:induction false} ResizeMaps(geo: Geo, s: Store, inodes: Inodes, ino: nat, size: nat, m: FileMap, m': FileMap)
    requires Consistent(geo, s, inodes) && ino in inodes && size < TWO64
    requires IsMap(geo, s.disk, inodes, m) && IsMap(geo, s.disk, inodes[ino := WithSize(inodes[ino], size)], m')
    ensures SameMap(m, m', inodes.Keys)
  {
    assert Opened(true);
    ResizeConsistent(geo, s, inodes, ino, size);
    forall i, j: nat | i in inodes
      ensures m'(i, j) == m(i, j)
    {
      assert m(i, j) == Mapping(geo, s.disk, inodes, i, j);
      assert m'(i, j) == Mapping(geo, s.disk, inodes[ino := WithSize(inodes[ino], size)], i, j);
    }
  }

  /** Every pointer of a consistent volume is a block of the device. */
  lemma {:induction false} PointersInRange(geo: Geo, s: Store, inodes: Inodes, ino: nat)
    requires Consistent(geo, s, inodes) && ino in inodes
    ensures |inodes[ino].ptrs| == SLOTS
    ensures forall at :: ValidPlace(Ptrs(geo.blockSize), at) ==> Ref(s.disk, inodes[ino].ptrs, at) < |s.disk|
  {
    assert Opened(true);
    forall at | ValidPlace(Ptrs(geo.blockSize), at)
      ensures Ref(s.disk, inodes[ino].ptrs, at) < |s.disk|
    {
      assert Ref(s.disk, inodes[ino].ptrs, at) == RefOf(s.disk, inodes, ino, at);
    }
  }

  /** File positions of all mappable blocks fit in 64 bits. */
  lemma {:induction false} CapacityFits(geo: Geo, n: nat)
    requires GeoOK(geo) && IsCapacity(geo, n)
    ensures Start(n, geo.blockSize) < TWO64
  {
    var bs := geo.blockSize;
    var p := Ptrs(bs);
    assert n == MaxBlocks(p);
    BasesAreSums(p);
    var q := p * p;
    MulMono(p, 0x4000, p);
    assert q <= 0x1000_0000;
    MulMono(q, 0x1000_0000, p);
    assert q * p <= 0x400_0000_0000;
    StartIsProduct(MaxBlocks(p), bs);
    MulMono(MaxBlocks(p), 0x800_0000_0000, bs);
  }

  // A freshly made volume: only the metadata is marked, and no file has a block.

  ghost function FreshStore(geo: Geo): Store {
    var bitmap := seq(geo.groups, g requires 0 <= g => seq(geo.perGroup, k requires 0 <= k => BlockOf(geo.perGroup, g, k) in geo.reserved));
    var free := seq(geo.groups, g requires 0 <= g < geo.groups => CountClear(bitmap[g]));
    Store(seq(geo.blocks, _ => Zeros(geo.blockSize)), bitmap, free, Sum(free), geo.reserved, map[])
  }

  function FreshInodes(inos: set<nat>): Inodes {
    map i | i in inos :: Inode(0, 0, 0, seq(SLOTS, _ => 0))
  }

  lemma {:induction false} EmptyPlaces(disk: Disk, ptrs: seq<nat>, at: Place)
    requires forall k :: 0 <= k < |ptrs| ==> ptrs[k] == 0
    ensures Ref(disk, ptrs, at) == 0
    decreases |at.path|
  {
    if at.path != [] {
      EmptyPlaces(disk, ptrs, Parent(at));
    }
  }

  /** The bits of a short last group that stand for no block are set. */
  ghost predicate PaddingReserved(geo: Geo) {
    forall g: nat, k: nat :: g < geo.groups && k < geo.perGroup && BlockOf(geo.perGroup, g, k) >= geo.blocks ==>
      BlockOf(geo.perGroup, g, k) in geo.reserved
  }

  /** The invariant holds to begin with. */
  lemma {:induction false} FreshIsConsistent(geo: Geo, inos: set<nat>)
    requires GeoOK(geo) && 0 in geo.reserved && PaddingReserved(geo)
    ensures Consistent(geo, FreshStore(geo), FreshInodes(inos))
  {
    var s, inodes := FreshStore(geo), FreshInodes(inos);
    forall ino, at | ino in inodes ensures RefOf(s.disk, inodes, ino, at) == 0 {
      EmptyPlaces(s.disk, inodes[ino].ptrs, at);
    }
    forall i | i in inodes ensures InodeOK(geo, s.owner, i, inodes[i]) {
      assert Owned(s.owner, i) == {};
    }
  }
}
