/**
  The tree of block pointers on the disk: every nonzero pointer that can be
  reached from an inode, at any depth, is referenced from exactly one place.
 */
module Ext2Tree {
  import opened Ext2Layout

  type Byte = b: int | 0 <= b < 256
  type Block = seq<Byte>

  const TWO32 := 0x1_0000_0000
  const TWO64 := 0x1_0000_0000_0000_0000

  /** The part of the on-disk inode the block map and file I/O use. The size is
      split over two 32-bit fields, i_size and i_dir_acl. */
  datatype Inode = Inode(sizeLo: nat, sizeHi: nat, blocks512: nat, ptrs: seq<nat>)

  function SizeOf(inode: Inode): nat {
    inode.sizeLo + TWO32 * inode.sizeHi
  }

  type Disk = seq<Block>
  type Inodes = map<nat, Inode>

  /** Who references a block. */
  datatype Owner = Owner(ino: nat, at: Place)

  /** Little-endian 32-bit entry `i` of an indirect block. */
  function PtrAt(b: Block, i: nat): nat {
    if 4 * i + 4 <= |b| then
      var b0: int, b1: int, b2: int, b3: int := b[4 * i], b[4 * i + 1], b[4 * i + 2], b[4 * i + 3];
      b0 + 0x100 * b1 + 0x1_0000 * b2 + 0x100_0000 * b3
    else 0
  }

  function SetPtr(b: Block, i: nat, v: nat): (r: Block)
    requires 4 * i + 4 <= |b| && v < TWO32
    ensures |r| == |b|
  {
    b[4 * i := v % 0x100][4 * i + 1 := v / 0x100 % 0x100]
    [4 * i + 2 := v / 0x1_0000 % 0x100][4 * i + 3 := v / 0x100_0000]
  }

  function Zeros(n: nat): (b: Block)
    ensures |b| == n && forall i :: 0 <= i < n ==> b[i] == 0
  {
    seq(n, _ => 0)
  }

  lemma {:induction false} FourBytes(v: nat)
    requires v < TWO32
    ensures v % 0x100 + 0x100 * (v / 0x100 % 0x100) + 0x1_0000 * (v / 0x1_0000 % 0x100) + 0x100_0000 * (v / 0x100_0000) == v
  {
    var w := v / 0x100;
    assert v / 0x1_0000 == w / 0x100 && v / 0x100_0000 == w / 0x1_0000;
  }

  lemma {:induction false} SetPtrEffect(b: Block, i: nat, v: nat, j: nat)
    requires 4 * i + 4 <= |b| && v < TWO32
    ensures PtrAt(SetPtr(b, i, v), j) == if i == j then v else PtrAt(b, j)
  {
    var r := SetPtr(b, i, v);
    if i == j {
      FourBytes(v);
    } else if 4 * j + 4 <= |b| {
      assert forall k :: 4 * j <= k < 4 * j + 4 ==> r[k] == b[k];
    }
  }

  lemma {:induction false} SetPtrSame(b: Block, i: nat)
    requires 4 * i + 4 <= |b| && PtrAt(b, i) == 0
    ensures SetPtr(b, i, 0) == b
  {
  }

  /** Entry `i` of block `b`, or 0 when there is no such block. */
  function Entry(disk: Disk, b: nat, i: nat): nat {
    if b == 0 || b >= |disk| then 0 else PtrAt(disk[b], i)
  }

  function Parent(at: Place): Place
    requires at.path != []
  {
    Place(at.slot, at.path[..|at.path| - 1])
  }

  function Last(at: Place): nat
    requires at.path != []
  {
    at.path[|at.path| - 1]
  }

  function Child(at: Place, k: nat): Place {
    Place(at.slot, at.path + [k])
  }

  /** The pointer stored at a place, 0 when some block on the way is missing. */
  function Ref(disk: Disk, ptrs: seq<nat>, at: Place): nat
    decreases |at.path|
  {
    if at.slot >= |ptrs| then 0
    else if at.path == [] then ptrs[at.slot]
    else Entry(disk, Ref(disk, ptrs, Parent(at)), Last(at))
  }

  function RefOf(disk: Disk, inodes: Inodes, ino: nat, at: Place): nat {
    if ino in inodes then Ref(disk, inodes[ino].ptrs, at) else 0
  }

  /** `owner` is exactly the inverse of `RefOf` on the valid places: every
      nonzero pointer has one and only one place. */
  ghost predicate TreeOK(p: nat, disk: Disk, inodes: Inodes, owner: map<nat, Owner>) {
    && (forall ino :: ino in inodes ==> |inodes[ino].ptrs| == SLOTS)
    && (forall b :: b in owner ==>
          && 0 < b < |disk| && owner[b].ino in inodes
          && ValidPlace(p, owner[b].at)
          && RefOf(disk, inodes, owner[b].ino, owner[b].at) == b)
    && (forall ino, at {:trigger RefOf(disk, inodes, ino, at)} ::
          ino in inodes && ValidPlace(p, at) && RefOf(disk, inodes, ino, at) != 0 ==>
          && RefOf(disk, inodes, ino, at) in owner
          && owner[RefOf(disk, inodes, ino, at)] == Owner(ino, at))
  }

  /** No block is referenced twice, from the same inode or from two. */
  lemma {:induction false} ReferencedOnce(p: nat, disk: Disk, inodes: Inodes, owner: map<nat, Owner>,
                       ino: nat, at: Place, ino': nat, at': Place)
    requires TreeOK(p, disk, inodes, owner)
    requires ino in inodes && ino' in inodes && ValidPlace(p, at) && ValidPlace(p, at')
    requires RefOf(disk, inodes, ino, at) == RefOf(disk, inodes, ino', at') != 0
    ensures ino == ino' && at == at'
  {
    assert owner[RefOf(disk, inodes, ino, at)] == Owner(ino, at);
    assert owner[RefOf(disk, inodes, ino', at')] == Owner(ino', at');
  }

  /** A block `nb` can be linked into place `c` of inode `ino`. */
  ghost predicate CanLink(p: nat, disk: Disk, inodes: Inodes, ino: nat, c: Place, nb: nat) {
    && ino in inodes && |inodes[ino].ptrs| == SLOTS && ValidPlace(p, c)
    && 0 < nb < |disk| && nb < TWO32
    && (c.path != [] ==>
          var parent := RefOf(disk, inodes, ino, Parent(c));
          0 < parent < |disk| && parent != nb && 4 * Last(c) + 4 <= |disk[parent]|)
  }

  /** The disk after zeroing block `nb` and storing its number at place `c`. */
  ghost function LinkedDisk(p: nat, disk: Disk, inodes: Inodes, ino: nat, c: Place, nb: nat, size: nat): Disk
    requires CanLink(p, disk, inodes, ino, c, nb)
  {
    var zeroed := disk[nb := Zeros(size)];
    if c.path == [] then zeroed
    else
      var parent := RefOf(disk, inodes, ino, Parent(c));
      zeroed[parent := SetPtr(disk[parent], Last(c), nb)]
  }

  /** The inode slots after linking. */
  function LinkedPtrs(ptrs: seq<nat>, c: Place, nb: nat): seq<nat> {
    if c.path == [] && c.slot < |ptrs| then ptrs[c.slot := nb] else ptrs
  }

  lemma {:induction false} ParentValid(p: nat, at: Place)
    requires ValidPlace(p, at) && at.path != []
    ensures ValidPlace(p, Parent(at)) && Last(at) < p
    ensures at == Child(Parent(at), Last(at))
  {
    assert at.path == at.path[..|at.path| - 1] + [Last(at)];
  }

  /** Linking changes one entry of the indirect blocks: the one at `c`. */
  lemma {:induction false} LinkedEntry(p: nat, disk: Disk, inodes: Inodes, owner: map<nat, Owner>,
                                       ino: nat, c: Place, nb: nat, size: nat, i: nat, at: Place, b: nat)
    requires TreeOK(p, disk, inodes, owner) && CanLink(p, disk, inodes, ino, c, nb) && nb !in owner
    requires i in inodes && ValidPlace(p, at) && at.path != [] && b == RefOf(disk, inodes, i, Parent(at)) != 0
    ensures Entry(LinkedDisk(p, disk, inodes, ino, c, nb, size), b, Last(at)) == if i == ino && at == c then nb else Entry(disk, b, Last(at))
  {
    ParentValid(p, at);
    assert owner[b] == Owner(i, Parent(at));
    if c.path != [] {
      ParentValid(p, c);
      var parent := RefOf(disk, inodes, ino, Parent(c));
      assert owner[parent] == Owner(ino, Parent(c));
      if b == parent {
        SetPtrEffect(disk[parent], Last(c), nb, Last(at));
      }
    }
  }

  /** The new block holds no pointer. */
  lemma {:induction false} EmptyEntry(p: nat, disk: Disk, inodes: Inodes, ino: nat, c: Place, nb: nat, size: nat, k: nat)
    requires CanLink(p, disk, inodes, ino, c, nb)
    ensures Entry(LinkedDisk(p, disk, inodes, ino, c, nb, size), nb, k) == 0
  {
  }

  /** Linking changes the pointer at `c` and at no other place of any inode. */
  lemma {:induction false} LinkEffect(p: nat, disk: Disk, inodes: Inodes, owner: map<nat, Owner>,
                                      inode': Inode, ino: nat, c: Place, nb: nat, size: nat, i: nat, at: Place)
    requires TreeOK(p, disk, inodes, owner) && CanLink(p, disk, inodes, ino, c, nb)
    requires RefOf(disk, inodes, ino, c) == 0 && nb !in owner
    requires inode'.ptrs == LinkedPtrs(inodes[ino].ptrs, c, nb)
    requires i in inodes && ValidPlace(p, at)
    ensures RefOf(LinkedDisk(p, disk, inodes, ino, c, nb, size), inodes[ino := inode'], i, at) ==
            if i == ino && at == c then nb else RefOf(disk, inodes, i, at)
    decreases |at.path|
  {
    if at.path != [] {
      ParentValid(p, at);
      var q := Parent(at);
      LinkEffect(p, disk, inodes, owner, inode', ino, c, nb, size, i, q);
      var b := RefOf(disk, inodes, i, q);
      if i == ino && q == c {
        EmptyEntry(p, disk, inodes, ino, c, nb, size, Last(at));
      } else if b != 0 {
        LinkedEntry(p, disk, inodes, owner, ino, c, nb, size, i, at, b);
      }
    }
  }

  /** Only the pointer at place `c` of inode `ino` differs, and it is `nb`. */
  ghost predicate OnlyRefChanged(p: nat, disk: Disk, inodes: Inodes, disk': Disk, inodes': Inodes, ino: nat, c: Place, nb: nat) {
    forall i, at {:trigger RefOf(disk', inodes', i, at)} :: i in inodes && ValidPlace(p, at) ==>
      RefOf(disk', inodes', i, at) == if i == ino && at == c then nb else RefOf(disk, inodes, i, at)
  }

  /** Linking a fresh block keeps every pointer referenced exactly once. */
  lemma {:induction false} LinkKeepsTree(p: nat, disk: Disk, inodes: Inodes, owner: map<nat, Owner>,
                      inode': Inode, ino: nat, c: Place, nb: nat, size: nat)
    requires TreeOK(p, disk, inodes, owner) && CanLink(p, disk, inodes, ino, c, nb)
    requires RefOf(disk, inodes, ino, c) == 0 && nb !in owner
    requires inode'.ptrs == LinkedPtrs(inodes[ino].ptrs, c, nb)
    ensures OnlyRefChanged(p, disk, inodes, LinkedDisk(p, disk, inodes, ino, c, nb, size), inodes[ino := inode'], ino, c, nb)
    ensures TreeOK(p, LinkedDisk(p, disk, inodes, ino, c, nb, size), inodes[ino := inode'], owner[nb := Owner(ino, c)])
  {
    var disk', inodes' := LinkedDisk(p, disk, inodes, ino, c, nb, size), inodes[ino := inode'];
    forall i, at | i in inodes && ValidPlace(p, at)
      ensures RefOf(disk', inodes', i, at) == if i == ino && at == c then nb else RefOf(disk, inodes, i, at)
    {
      LinkEffect(p, disk, inodes, owner, inode', ino, c, nb, size, i, at);
    }
    assert inodes'.Keys == inodes.Keys;
  }

  /** Overwriting a data block moves no pointer. */
  lemma {:induction false} DataWriteEffect(p: nat, disk: Disk, inodes: Inodes, owner: map<nat, Owner>,
                                           b: nat, data: Block, i: nat, at: Place)
    requires TreeOK(p, disk, inodes, owner) && b in owner && LeafPlace(p, owner[b].at)
    requires i in inodes && ValidPlace(p, at)
    ensures RefOf(disk[b := data], inodes, i, at) == RefOf(disk, inodes, i, at)
    decreases |at.path|
  {
    if at.path != [] {
      ParentValid(p, at);
      DataWriteEffect(p, disk, inodes, owner, b, data, i, Parent(at));
      var q := RefOf(disk, inodes, i, Parent(at));
      assert q != 0 ==> owner[q] == Owner(i, Parent(at));
    }
  }

  lemma {:induction false} DataWriteKeepsTree(p: nat, disk: Disk, inodes: Inodes, owner: map<nat, Owner>, b: nat, data: Block)
    requires TreeOK(p, disk, inodes, owner) && b in owner && LeafPlace(p, owner[b].at)
    ensures TreeOK(p, disk[b := data], inodes, owner)
    ensures forall i, at {:trigger RefOf(disk[b := data], inodes, i, at)} :: i in inodes && ValidPlace(p, at) ==>
      RefOf(disk[b := data], inodes, i, at) == RefOf(disk, inodes, i, at)
  {
    forall i, at | i in inodes && ValidPlace(p, at)
      ensures RefOf(disk[b := data], inodes, i, at) == RefOf(disk, inodes, i, at)
    {
      DataWriteEffect(p, disk, inodes, owner, b, data, i, at);
    }
  }

  /** The blocks of one inode's tree, data and indirect. */
  ghost function Owned(owner: map<nat, Owner>, ino: nat): set<nat> {
    set b | b in owner && owner[b].ino == ino
  }

  /** `Owned` is the set of pointers reachable from the inode. */
  lemma {:induction false} OwnedIsReachable(p: nat, disk: Disk, inodes: Inodes, owner: map<nat, Owner>, ino: nat, b: nat)
    requires TreeOK(p, disk, inodes, owner) && ino in inodes
    ensures b in Owned(owner, ino) <==>
            b != 0 && exists at :: ValidPlace(p, at) && RefOf(disk, inodes, ino, at) == b
  {
    if b in Owned(owner, ino) {
      assert ValidPlace(p, owner[b].at) && RefOf(disk, inodes, ino, owner[b].at) == b;
    }
  }

  lemma {:induction false} OwnedGrows(owner: map<nat, Owner>, nb: nat, ino: nat, at: Place, i: nat)
    requires nb !in owner
    ensures |Owned(owner[nb := Owner(ino, at)], i)| == |Owned(owner, i)| + (if i == ino then 1 else 0)
  {
    var owner' := owner[nb := Owner(ino, at)];
    if i == ino {
      assert Owned(owner', i) == Owned(owner, i) + {nb};
    } else {
      assert Owned(owner', i) == Owned(owner, i);
    }
  }
}
