/**
  The mounted volume: block allocation, get_block, assign_block and the writes
  to data blocks and inodes. Disk I/O on blocks of the device is taken to
  succeed; the bitmaps and the inode table live in reserved blocks and are kept
  as fields of their own.
 */
module Ext2Volume {
  import opened Wrappers
  import opened Ext2Layout
  import opened Ext2Tree
  import opened Ext2Bitmap
  import opened Ext2Bytes
  import opened Ext2Store

  class Volume {
    const geo: Geo
    ghost const inos: set<nat>
    ghost const capacity: nat
    var disk: Disk
    var inodes: Inodes
    var bitmap: seq<Bits>
    var groupFree: seq<nat>
    var totalFree: int
    ghost var used: set<nat>
    ghost var owner: map<nat, Owner>
    ghost var files: FileMap
    ghost var bytes: FileBytes

    ghost function Snap(): Store
      reads this
    {
      Store(disk, bitmap, groupFree, totalFree, used, owner)
    }

    ghost predicate Valid()
      reads this
    {
      && GeoOK(geo) && inodes.Keys == inos && IsCapacity(geo, capacity)
      && (forall key {:trigger Opened(key)} :: Opened(key) ==> Inside())
    }

    /** The contents of the invariant. `Valid` shows it to those who mention the key, so
        that callers who only pass the invariant on do not unfold it. */
    ghost predicate Inside()
      requires GeoOK(geo)
      reads this
    {
      && Consistent(geo, Snap(), inodes)
      && IsMap(geo, disk, inodes, files)
      && MapOK(geo.blockSize, disk, files, inos)
      && IsBytes(geo.blockSize, disk, files, bytes)
    }

    /** A mounted volume, as the disk gives it. */
    constructor (geo: Geo, disk: Disk, bitmap: seq<Bits>, groupFree: seq<nat>, totalFree: int, inodes: Inodes,
                 ghost used: set<nat>, ghost owner: map<nat, Owner>)
      requires Consistent(geo, Store(disk, bitmap, groupFree, totalFree, used, owner), inodes)
      ensures Valid() && this.geo == geo && this.inodes == inodes && Snap() == Store(disk, bitmap, groupFree, totalFree, used, owner)
    {
      this.geo, this.disk, this.bitmap := geo, disk, bitmap;
      this.groupFree, this.totalFree, this.inodes := groupFree, totalFree, inodes;
      this.used, this.owner, inos := used, owner, inodes.Keys;
      capacity := MaxBlocks(Ptrs(geo.blockSize));
      files, bytes := MapOf(geo, disk, inodes), BytesOf(geo.blockSize, disk, MapOf(geo, disk, inodes));
      new;
      MapIsOK(geo, Snap(), inodes, files);
    }

    /** Mark one clear bit used and count it. */
    method TakeBit(g: nat, k: nat) returns (block: nat)
      requires GeoOK(geo) && BitsOK(geo, Snap()) && BlocksOK(geo, Snap())
      requires g < geo.groups && k < geo.perGroup && !bitmap[g][k]
      modifies `bitmap, `groupFree, `totalFree, `used
      ensures Taken(geo, old(Snap()), Snap(), block)
      ensures block == BlockOf(geo.perGroup, g, k)
      ensures bitmap == old(bitmap)[g := old(bitmap)[g][k := true]]
    {
      MarkUsed(bitmap, geo.perGroup, used, g, k);
      MarkCounts(bitmap, groupFree, totalFree, g, k);
      StartIsProduct(g, geo.perGroup);
      block := g * geo.perGroup + k;
      bitmap := bitmap[g := bitmap[g][k := true]];
      groupFree := groupFree[g := groupFree[g] - 1];
      totalFree := totalFree - 1;
      used := used + {block};
    }

    /** The first clear bit of one group, if its count says that there is one. */
    method TakeFrom(g: nat) returns (block: nat)
      requires GeoOK(geo) && BitsOK(geo, Snap()) && BlocksOK(geo, Snap()) && g < geo.groups
      modifies `bitmap, `groupFree, `totalFree, `used
      ensures block == 0 <==> Full(old(bitmap)[g])
      ensures block == 0 ==> Snap() == old(Snap())
      ensures block != 0 ==> Taken(geo, old(Snap()), Snap(), block) && FirstIn(geo, old(bitmap), g, block) && BitsKept(old(bitmap), bitmap)
    {
      block := 0;
      CountZeroIffFull(bitmap[g]);
      if groupFree[g] != 0 {
        var k := FindClear(bitmap[g]);
        if k < geo.perGroup {
          block := TakeBit(g, k);
        }
      }
    }

    /** First-fit search over the groups, starting at `group`; the wrap leaves out the last
        one. Where the source would leave the table, the model ends the search. */
    method AllocBlock(group: nat) returns (block: nat)
      requires GeoOK(geo) && BitsOK(geo, Snap()) && BlocksOK(geo, Snap()) && group < geo.groups
      modifies `bitmap, `groupFree, `totalFree, `used
      ensures block == 0 <==> NoFreeBlock(geo, old(bitmap), group)
      ensures block == 0 ==> Snap() == old(Snap())
      ensures block != 0 ==> Taken(geo, old(Snap()), Snap(), block)
      ensures block != 0 ==> FirstFit(geo, old(bitmap), group, block) && BitsKept(old(bitmap), bitmap)
    {
      var scanned := geo.groups - 1;
      var g := group;
      var again := true;
      ghost var done := 0;
      while again
        invariant 0 <= g < geo.groups && (if group < scanned then g < scanned else g == group && again)
        invariant Snap() == old(Snap())
        invariant again ==> done == ScanDistance(group, g, scanned)
        invariant !again ==> done == scanned
        invariant ScannedFull(bitmap, group, scanned, done)
        decreases scanned - done, again
      {
        block := TakeFrom(g);
        if block != 0 {
          return;
        }
        g := g + 1;
        done := done + 1;
        if g == geo.groups {
          return;
        }
        NextGroup(bitmap, group, g - 1, scanned);
        if g == scanned {
          g := 0;
        }
        again := g != group;
      }
      block := 0;
    }

    /** alloc_and_zero_block. */
    method AllocAndZero(group: nat) returns (block: nat)
      requires GeoOK(geo) && BitsOK(geo, Snap()) && BlocksOK(geo, Snap()) && group < geo.groups
      modifies `bitmap, `groupFree, `totalFree, `used, `disk
      ensures block == 0 ==> Snap() == old(Snap()) && NoFreeBlock(geo, bitmap, group)
      ensures block != 0 ==> Taken(geo, old(Snap()), Snap(), block) && disk == old(disk)[block := Zeros(geo.blockSize)]
      ensures block != 0 ==> NoneBefore(geo, bitmap, group, block)
    {
      block := AllocBlock(group);
      if block != 0 {
        FirstStays(geo, old(bitmap), bitmap, group, block);
        disk := disk[block := Zeros(geo.blockSize)];
      }
    }

    /** Slot `slot` of the in-memory inode, allocated when empty. */
    method EnsureSlot(ino: nat, inode: Inode, slot: nat, group: nat) returns (inode': Inode, block: nat)
      requires ino in inodes && Consistent(geo, Snap(), inodes[ino := inode])
      requires slot < SLOTS && group == Home(geo, ino) < geo.groups
      modifies `bitmap, `groupFree, `totalFree, `used, `disk, `owner
      ensures Consistent(geo, Snap(), inodes[ino := inode'])
      ensures Grown(geo, old(Snap()), inodes[ino := inode], Snap(), inodes[ino := inode'], ino, Place(slot, []), block)
    {
      inode' := inode;
      SlotsThere(geo, Snap(), inodes[ino := inode], ino);
      block := inode.ptrs[slot];
      if block == 0 {
        block := AllocAndZero(group);
        inode' := inode'.(ptrs := inode.ptrs[slot := block]);
        if block != 0 {
          inode' := inode'.(blocks512 := (inode.blocks512 + geo.blockSize / 512) % TWO32);
          owner := owner[block := Owner(ino, Place(slot, []))];
          SlotGrown(geo, old(Snap()), inodes[ino := inode], Snap(), inodes[ino := inode'], ino, slot, block);
          return;
        }
        assert inode' == inode;
      }
      GrownSame(geo, Snap(), inodes[ino := inode], ino, Place(slot, []), block);
    }

    /** Entry Last(c) of the indirect block `parent`, allocated when empty. */
    method EnsureEntry(ino: nat, inode: Inode, c: Place, parent: nat, group: nat) returns (inode': Inode, block: nat)
      requires ino in inodes && Consistent(geo, Snap(), inodes[ino := inode])
      requires ValidPlace(Ptrs(geo.blockSize), c) && c.path != [] && group == Home(geo, ino) < geo.groups
      requires RefOf(disk, inodes[ino := inode], ino, Parent(c)) == parent != 0
      modifies `bitmap, `groupFree, `totalFree, `used, `disk, `owner
      ensures Consistent(geo, Snap(), inodes[ino := inode'])
      ensures Grown(geo, old(Snap()), inodes[ino := inode], Snap(), inodes[ino := inode'], ino, c, block)
    {
      inode' := inode;
      ghost var s, before := Snap(), inodes[ino := inode];
      ParentUsable(geo, s, before, ino, c);
      var buffer := disk[parent];
      block := PtrAt(buffer, Last(c));
      if block == 0 {
        block := AllocAndZero(group);
        buffer := SetPtr(buffer, Last(c), block);
        disk := disk[parent := buffer];
        if block != 0 {
          inode' := inode'.(blocks512 := (inode.blocks512 + geo.blockSize / 512) % TWO32);
          owner := owner[block := Owner(ino, c)];
          EntryGrown(geo, s, before, Snap(), inodes[ino := inode'], ino, c, parent, block);
          return;
        }
        SetPtrSame(s.disk[parent], Last(c));
        assert disk == s.disk;
      }
      GrownSame(geo, Snap(), inodes[ino := inode], ino, c, block);
    }

    /** Follow the pointers of an inode to a leaf place. */
    method Walk(inode: Inode, target: Place) returns (block: nat)
      requires GeoOK(geo) && |inode.ptrs| == SLOTS && ValidPlace(Ptrs(geo.blockSize), target)
      requires forall at :: ValidPlace(Ptrs(geo.blockSize), at) ==> Ref(disk, inode.ptrs, at) < |disk|
      ensures block == Ref(disk, inode.ptrs, target)
    {
      var p, slot, path := Ptrs(geo.blockSize), target.slot, target.path;
      block := inode.ptrs[slot];
      var d := 0;
      while d < |path|
        invariant d <= |path|
        invariant block == Ref(disk, inode.ptrs, Place(slot, path[..d]))
      {
        if block == 0 {
          RefZeroBelow(disk, inode.ptrs, slot, path, d);
          return;
        }
        assert ValidPlace(p, Place(slot, path[..d]));
        RefStep(disk, inode.ptrs, slot, path, d);
        block := PtrAt(disk[block], path[d]);
        d := d + 1;
      }
      assert path[..d] == path;
    }

    /** get_block: the block of logical block `index`. */
    method GetBlock(inode: Inode, index: nat, ghost ino: nat) returns (st: BlockState, block: nat)
      requires Valid() && ino in inodes && inode == inodes[ino]
      ensures st == BlockError <==> index >= capacity
      ensures block == files(ino, index)
      ensures st == BlockOk <==> block != 0
      ensures block != 0 ==> block < |disk| && |disk[block]| == geo.blockSize
    {
      assert Opened(true);
      PointersInRange(geo, Snap(), inodes, ino);
      MappedBlock(geo, Snap(), inodes, ino, index);
      var found, target := Locate(geo.blockSize, index);
      if !found {
        return BlockError, 0;
      }
      block := Walk(inode, target);
      st := if block == 0 then BlockSparse else BlockOk;
    }

    /** Fill the place `target` of inode `ino`, allocating the missing indirect
        blocks on the way. */
    method AssignPlace(ino: nat, target: Place, group: nat) returns (block: nat)
      requires Consistent(geo, Snap(), inodes) && ino in inodes && group == Home(geo, ino) < geo.groups
      requires ValidPlace(Ptrs(geo.blockSize), target)
      modifies `bitmap, `groupFree, `totalFree, `used, `disk, `owner, `inodes
      ensures Consistent(geo, Snap(), inodes)
      ensures Reached(geo, old(Snap()), old(inodes), Snap(), inodes, ino, target, |target.path|, block)
    {
      var inode := inodes[ino];
      assert inodes[ino := inode] == inodes;
      ghost var s0 := Snap();
      GrownToStart(Ptrs(geo.blockSize), s0, inodes, ino, target, 0);
      inode, block := EnsureSlot(ino, inode, target.slot, group);
      ReachedStep(geo, s0, inodes, s0, inodes, Snap(), inodes[ino := inode], ino, target, 0, 0, block);
      var d := 0;
      while block != 0 && d < |target.path|
        invariant inodes == old(inodes)
        invariant Consistent(geo, Snap(), inodes[ino := inode])
        invariant Reached(geo, s0, inodes, Snap(), inodes[ino := inode], ino, target, d, block)
        decreases |target.path| - d
      {
        ghost var s1, inode1 := Snap(), inode;
        d := d + 1;
        var c := Place(target.slot, target.path[..d]);
        assert Parent(c) == Place(target.slot, target.path[..d - 1]);
        inode, block := EnsureEntry(ino, inode, c, block, group);
        ReachedStep(geo, s0, inodes, s1, inodes[ino := inode1], Snap(), inodes[ino := inode], ino, target, d - 1, d, block);
      }
      ReachedEnd(geo, s0, inodes, Snap(), inodes[ino := inode], ino, target, d, block);
      inodes := inodes[ino := inode];
    }

    /** Bring the ghost views up to date. */
    ghost method Refresh()
      requires Consistent(geo, Snap(), inodes) && inodes.Keys == inos && IsCapacity(geo, capacity)
      modifies `files, `bytes
      ensures Valid()
    {
      files := MapOf(geo, disk, inodes);
      MapIsOK(geo, Snap(), inodes, files);
      bytes := BytesOf(geo.blockSize, disk, files);
    }

    /** assign_block: make sure logical block `index` of inode `ino` is mapped;
        get_block then finds that block, no other mapping moves, no byte of any
        file changes, and 0 means that no block was left. */
    method AssignBlock(ino: nat, index: nat) returns (block: nat)
      requires Valid() && ino in inodes && 0 < ino
      requires Home(geo, ino) < geo.groups
      modifies this
      ensures Valid() && block == files(ino, index)
      ensures SameButBlocks(old(inodes), inodes, ino)
      ensures SameBytes(old(bytes), bytes, inos)
      ensures index >= capacity ==> block == 0 && Snap() == old(Snap()) && files == old(files)
      ensures index < capacity ==>
        BlockAssigned(geo.blockSize, old(disk), old(files), disk, files, inos, ino, index, block)
      ensures index < capacity && block == 0 ==> NoFreeBlock(geo, bitmap, Home(geo, ino))
      ensures old(files)(ino, index) == 0 && block != 0 ==> NoneBefore(geo, bitmap, Home(geo, ino), block)
    {
      assert Opened(true);
      var found, target := Locate(geo.blockSize, index);
      if !found {
        assert Mapping(geo, disk, inodes, ino, index) == 0;
        return 0;
      }
      ghost var disk0, m, f := disk, files, bytes;
      var group := HomeGroup(geo, ino);
      block := AssignIndex(ino, index, target, group);
      AssignKeepsBytes(geo.blockSize, disk0, m, f, disk, files, bytes, inos, ino, index, block);
    }

    /** Fill the place of a mappable logical block. */
    method AssignIndex(ino: nat, index: nat, target: Place, group: nat) returns (block: nat)
      requires Valid() && ino in inodes && group == Home(geo, ino) < geo.groups
      requires index < MaxBlocks(Ptrs(geo.blockSize)) && target == PlaceOf(Ptrs(geo.blockSize), index)
      requires ValidPlace(Ptrs(geo.blockSize), target)
      modifies this
      ensures Valid() && block == files(ino, index)
      ensures SameButBlocks(old(inodes), inodes, ino)
      ensures BlockAssigned(geo.blockSize, old(disk), old(files), disk, files, inos, ino, index, block)
      ensures block == 0 ==> NoFreeBlock(geo, bitmap, Home(geo, ino))
      ensures old(files)(ino, index) == 0 && block != 0 ==> NoneBefore(geo, bitmap, Home(geo, ino), block)
    {
      assert Opened(true);
      ghost var s, before, m := Snap(), inodes, files;
      block := AssignPlace(ino, target, group);
      Refresh();
      AssignMaps(geo, s, before, Snap(), inodes, m, files, ino, index, block);
    }

    /** Read-modify-write of part of a mapped data block. */
    method PutBytes(ino: nat, j: nat, block: nat, off: nat, piece: seq<Byte>)
      requires Valid() && ino in inodes && block == files(ino, j) != 0 && off + |piece| <= geo.blockSize
      modifies `disk, `files, `bytes
      ensures Valid()
      ensures SameMap(old(files), files, inos)
      ensures Overlaid(old(bytes), bytes, inos, ino, Start(j, geo.blockSize) + off, piece)
    {
      assert Opened(true);
      ghost var disk0, m, f := disk, files, bytes;
      StoreBlock(ino, j, block, Spliced(disk[block], off, piece));
      SpliceOverlays(geo.blockSize, disk0, m, f, disk, files, bytes, inos, ino, j, off, piece);
    }

    /** write_block on a data block of a file. */
    method StoreBlock(ino: nat, j: nat, block: nat, data: Block)
      requires Valid() && ino in inodes && block == files(ino, j) != 0 && |data| == geo.blockSize
      modifies `disk, `files, `bytes
      ensures Valid() && block < |old(disk)| && disk == old(disk)[block := data]
      ensures SameMap(old(files), files, inos)
    {
      assert Opened(true);
      ghost var s, m := Snap(), files;
      MappedBlock(geo, s, inodes, ino, j);
      DataWriteConsistent(geo, s, inodes, block, data);
      disk := disk[block := data];
      Refresh();
      DataWriteMaps(geo, s, inodes, block, data, m, files);
    }

    /** set_inode with a new size. */
    method SetSize(ino: nat, size: nat)
      requires Valid() && ino in inodes && size < TWO64
      modifies `inodes, `files, `bytes
      ensures Valid() && SizeOf(inodes[ino]) == size
      ensures forall i :: i in inodes && i != ino ==> inodes[i] == old(inodes)[i]
      ensures SameMap(old(files), files, inos) && SameBytes(old(bytes), bytes, inos)
    {
      assert Opened(true);
      ghost var before, m, f := inodes, files, bytes;
      ResizeConsistent(geo, Snap(), inodes, ino, size);
      inodes := inodes[ino := WithSize(inodes[ino], size)];
      assert inodes.Keys == before.Keys;
      Refresh();
      ResizeMaps(geo, Snap(), before, ino, size, m, files);
      SameMapSameBytes(geo.blockSize, disk, m, f, files, bytes, inos);
    }
  }

  function Numbers(from: nat, n: nat): (r: set<nat>)
    ensures forall b :: b in r <==> from <= b < from + n
  {
    if n == 0 then {} else Numbers(from, n - 1) + {from + n - 1}
  }

  /** A volume of two groups, with block 0 and the whole second group for metadata. */
  function TwoGroups(perGroup: nat): Geo {
    Geo(512, perGroup + perGroup, 2, perGroup, 64, {0} + Numbers(perGroup, perGroup))
  }

  lemma {:induction false} SecondIsFull(geo: Geo, perGroup: nat)
    requires 0 < perGroup <= 0x1000_0000 && perGroup % 64 == 0 && geo == TwoGroups(perGroup)
    ensures GeoOK(geo) && PaddingReserved(geo) && 0 in geo.reserved && |FreshStore(geo).bitmap| == 2
    ensures !Full(FreshStore(geo).bitmap[0]) && Full(FreshStore(geo).bitmap[1])
  {
    var bitmap := FreshStore(geo).bitmap;
    assert Start(0, perGroup) == 0 && Start(1, perGroup) == perGroup;
    assert !bitmap[0][1];
  }

  /** alloc_block that starts at the full last group of a freshly made volume finds
      nothing, although the first group has free blocks. */
  method FullLastGroup(perGroup: nat, disk: Disk, bitmap: seq<Bits>, groupFree: seq<nat>, totalFree: int) returns (vol: Volume, block: nat)
    requires 0 < perGroup <= 0x1000_0000 && perGroup % 64 == 0
    requires Store(disk, bitmap, groupFree, totalFree, TwoGroups(perGroup).reserved, map[]) == FreshStore(TwoGroups(perGroup))
    ensures vol.Valid() && block == 0 && |vol.bitmap| == 2 && !Full(vol.bitmap[0])
  {
    var geo := TwoGroups(perGroup);
    SecondIsFull(geo, perGroup);
    FreshIsConsistent(geo, {});
    assert FreshInodes({}) == map[];
    vol := new Volume(geo, disk, bitmap, groupFree, totalFree, map[], geo.reserved, map[]);
    assert Opened(true);
    block := vol.AllocBlock(1);
  }
}
