/**
  File contents as flat byte arrays over an abstract block map: which bytes a
  file has, which of them a read covers, and what rewriting or mapping a block
  does to the bytes of every file.
 */
module Ext2Bytes {
  import opened Ext2Layout
  import opened Ext2Tree

  /** The device block of logical block `j` of inode `i`; 0 for a hole. */
  type FileMap = (nat, nat) -> nat

  /** Byte `off` of device block `b`; holes read as zero. */
  function ByteOf(disk: Disk, b: nat, off: nat): Byte {
    if b == 0 || b >= |disk| || off >= |disk[b]| then 0 else disk[b][off]
  }

  /** Byte `k` of file `i`. */
  function ByteAt(bs: nat, disk: Disk, m: FileMap, i: nat, k: nat): Byte
    requires 0 < bs
  {
    var j := UnitOf(k, bs);
    ByteOf(disk, m(i, j), k - Start(j, bs))
  }

  /** Mapped blocks are blocks of the device, and no two logical blocks of any
      two files share one. */
  ghost predicate MapOK(bs: nat, disk: Disk, m: FileMap, inos: set<nat>) {
    && (forall i, j :: i in inos && 0 <= j && m(i, j) != 0 ==> m(i, j) < |disk| && |disk[m(i, j)]| == bs)
    && (forall i, j, i', j' :: i in inos && i' in inos && 0 <= j && 0 <= j' && m(i, j) == m(i', j') != 0 ==>
          i == i' && j == j')
  }

  /** All bytes of all files, as one function of inode and position. */
  type FileBytes = (nat, nat) -> Byte

  ghost predicate IsBytes(bs: nat, disk: Disk, m: FileMap, f: FileBytes)
    requires 0 < bs
  {
    forall i, k: nat {:trigger ByteAt(bs, disk, m, i, k)} :: f(i, k) == ByteAt(bs, disk, m, i, k)
  }

  ghost function BytesOf(bs: nat, disk: Disk, m: FileMap): (f: FileBytes)
    requires 0 < bs
    ensures IsBytes(bs, disk, m, f)
  {
    (i, k) => ByteAt(bs, disk, m, i, k)
  }

  /** Bytes [from, from + n) of a file. */
  ghost function Slice(f: FileBytes, i: nat, from: nat, n: nat): (r: seq<Byte>)
    ensures |r| == n
  {
    seq<Byte>(n, d requires 0 <= d => f(i, from + d))
  }

  lemma {:induction false} SliceAppend(f: FileBytes, i: nat, from: nat, n: nat, n': nat)
    ensures Slice(f, i, from, n) + Slice(f, i, from + n, n') == Slice(f, i, from, n + n')
  {
  }

  /** The bytes of one chunk inside block `j`. */
  lemma {:induction false} ChunkByte(bs: nat, disk: Disk, m: FileMap, f: FileBytes, i: nat, j: nat, off: nat)
    requires off < bs && IsBytes(bs, disk, m, f)
    ensures f(i, Start(j, bs) + off) == ByteOf(disk, m(i, j), off)
  {
    UnitUnique(Start(j, bs) + off, j, bs);
    assert f(i, Start(j, bs) + off) == ByteAt(bs, disk, m, i, Start(j, bs) + off);
  }

  /** A chunk copied from a mapped block is the matching slice of the file. */
  lemma {:induction false} CopiedSlice(bs: nat, disk: Disk, m: FileMap, f: FileBytes, i: nat, j: nat, off: nat, n: nat)
    requires 0 < bs && off + n <= bs && IsBytes(bs, disk, m, f)
    requires 0 < m(i, j) < |disk| && |disk[m(i, j)]| == bs
    ensures disk[m(i, j)][off..off + n] == Slice(f, i, Start(j, bs) + off, n)
  {
    var slice := Slice(f, i, Start(j, bs) + off, n);
    forall d | 0 <= d < n
      ensures disk[m(i, j)][off..off + n][d] == slice[d]
    {
      ChunkByte(bs, disk, m, f, i, j, off + d);
    }
  }

  /** A zero-filled chunk of a hole is the matching slice of the file. */
  lemma {:induction false} HoleSlice(bs: nat, disk: Disk, m: FileMap, f: FileBytes, i: nat, j: nat, off: nat, n: nat)
    requires 0 < bs && off + n <= bs && IsBytes(bs, disk, m, f) && m(i, j) == 0
    ensures Zeros(n) == Slice(f, i, Start(j, bs) + off, n)
  {
    var slice := Slice(f, i, Start(j, bs) + off, n);
    forall d | 0 <= d < n
      ensures slice[d] == 0
    {
      ChunkByte(bs, disk, m, f, i, j, off + d);
    }
  }

  // How far a read goes.

  function Min(a: int, b: int): int {
    if a < b then a else b
  }

  /** The logical block of the last byte. */
  function TailBlock(size: nat, bs: nat): nat
    requires 0 < size && 0 < bs
  {
    UnitOf(size - 1, bs)
  }

  /** The block with the last byte of the file is mapped (or the file is empty). */
  ghost predicate TailMapped(bs: nat, m: FileMap, i: nat, size: nat)
    requires 0 < bs
  {
    size == 0 || m(i, TailBlock(size, bs)) != 0
  }

  /** The first position a read will not go past: the size, rounded up to whole
      blocks when the tail is a hole, and never beyond the `max` mappable blocks. */
  ghost function ReadLimit(bs: nat, m: FileMap, i: nat, size: nat, max: nat): nat
    requires 0 < bs
  {
    if size == 0 then 0
    else
      var tail := TailBlock(size, bs);
      if tail >= max then Start(max, bs)
      else if m(i, tail) != 0 then size
      else Start(tail, bs) + bs
  }

  /** How many bytes a read of `count` at `pos` returns. */
  ghost function ReadLen(bs: nat, m: FileMap, i: nat, size: nat, max: nat, pos: nat, count: nat): int
    requires 0 < bs
  {
    var limit := ReadLimit(bs, m, i, size, max);
    if pos >= size || pos >= limit then 0 else Min(count, limit - pos)
  }

  /** Where a chunk inside block `j` may end. */
  lemma {:induction false} ChunkBounds(bs: nat, m: FileMap, i: nat, size: nat, max: nat, j: nat, off: nat)
    requires off < bs && Start(j, bs) + off < size
    ensures var limit := ReadLimit(bs, m, i, size, max);
      var end := Start(j, bs) + bs;
      && (j >= max ==> limit <= Start(j, bs))
      && (j < max && m(i, j) != 0 ==> Min(end, size) <= limit && (size <= end ==> limit == size))
      && (j < max && m(i, j) == 0 ==> end <= limit && (size <= end ==> limit == end))
  {
    var tail := TailBlock(size, bs);
    if tail < j {
      StartMono(tail, j, bs);
    } else if j < tail {
      StartMono(j, tail, bs);
    }
    if j < max {
      StartMono(j, max, bs);
    } else if max < j {
      StartMono(max, j, bs);
    }
  }

  // Effects on the bytes and on the mapping of every file.

  /** The bytes of file `ino` from `pos` on were replaced by `data`; every other
      byte of every file is as before. */
  ghost predicate Overlaid(f: FileBytes, f': FileBytes, inos: set<nat>, ino: nat, pos: nat, data: seq<Byte>) {
    forall i, k: nat {:trigger f'(i, k)} :: i in inos ==>
      f'(i, k) == if i == ino && pos <= k < pos + |data| then data[k - pos] else f(i, k)
  }

  /** No byte changed. */
  ghost predicate SameBytes(f: FileBytes, f': FileBytes, inos: set<nat>) {
    forall i, k: nat {:trigger f'(i, k)} :: i in inos ==> f'(i, k) == f(i, k)
  }

  /** No mapping moved. */
  ghost predicate SameMap(m: FileMap, m': FileMap, inos: set<nat>) {
    forall i, j: nat {:trigger m'(i, j)} :: i in inos ==> m'(i, j) == m(i, j)
  }

  /** Blocks lo..hi of file `ino` are mapped now, in addition to what was. */
  ghost predicate MapsGrown(m: FileMap, m': FileMap, inos: set<nat>, ino: nat, lo: nat, hi: nat) {
    forall i, j: nat {:trigger m'(i, j)} :: i in inos ==>
      (m'(i, j) != 0 <==> m(i, j) != 0 || (i == ino && lo <= j < hi))
  }

  lemma {:induction false} OverlaidTrans(f: FileBytes, f1: FileBytes, f2: FileBytes, inos: set<nat>, ino: nat, pos: nat,
                                         a: seq<Byte>, b: seq<Byte>)
    requires Overlaid(f, f1, inos, ino, pos, a) && Overlaid(f1, f2, inos, ino, pos + |a|, b)
    ensures Overlaid(f, f2, inos, ino, pos, a + b)
  {
  }

  lemma {:induction false} MapsGrownTrans(m: FileMap, m1: FileMap, m2: FileMap, inos: set<nat>, ino: nat, lo: nat, hi: nat, j: nat)
    requires MapsGrown(m, m1, inos, ino, lo, hi) && MapsGrown(m1, m2, inos, ino, j, j + 1)
    requires lo <= j && j <= hi <= j + 1
    ensures MapsGrown(m, m2, inos, ino, lo, j + 1)
  {
  }

  /** Logical block `index` of file `ino` got device block `block`, zeroed if it
      was a hole; all mapped blocks keep their place and their bytes. */
  ghost predicate BlockAssigned(bs: nat, disk: Disk, m: FileMap, disk': Disk, m': FileMap, inos: set<nat>,
                                ino: nat, index: nat, block: nat) {
    forall i, j: nat {:trigger m'(i, j)} :: i in inos ==>
      && (m'(i, j) == if i == ino && j == index then block else m(i, j))
      && (m(i, j) != 0 ==> m'(i, j) == m(i, j) && m(i, j) < |disk| == |disk'| && disk'[m(i, j)] == disk[m(i, j)])
      && (m(i, j) == 0 && m'(i, j) != 0 ==> m'(i, j) < |disk'| && disk'[m'(i, j)] == Zeros(bs))
  }

  /** Mapping a hole changes no byte of any file. */
  lemma {:induction false} AssignKeepsBytes(bs: nat, disk: Disk, m: FileMap, f: FileBytes, disk': Disk, m': FileMap, f': FileBytes,
                                            inos: set<nat>, ino: nat, index: nat, block: nat)
    requires 0 < bs && BlockAssigned(bs, disk, m, disk', m', inos, ino, index, block)
    requires IsBytes(bs, disk, m, f) && IsBytes(bs, disk', m', f')
    ensures SameBytes(f, f', inos)
  {
    forall i, k: nat | i in inos
      ensures f'(i, k) == f(i, k)
    {
      assert f(i, k) == ByteAt(bs, disk, m, i, k) && f'(i, k) == ByteAt(bs, disk', m', i, k);
      assert m'(i, UnitOf(k, bs)) == m(i, UnitOf(k, bs)) || m(i, UnitOf(k, bs)) == 0;
    }
  }

  lemma {:induction false} SameMapSameBytes(bs: nat, disk: Disk, m: FileMap, f: FileBytes, m': FileMap, f': FileBytes, inos: set<nat>)
    requires 0 < bs && SameMap(m, m', inos)
    requires IsBytes(bs, disk, m, f) && IsBytes(bs, disk, m', f')
    ensures SameBytes(f, f', inos)
  {
    forall i, k: nat | i in inos
      ensures f'(i, k) == f(i, k)
    {
      assert f(i, k) == ByteAt(bs, disk, m, i, k) && f'(i, k) == ByteAt(bs, disk, m', i, k);
    }
  }

  /** A block with `piece` copied in at `off`. */
  function Spliced(b: Block, off: nat, piece: seq<Byte>): (r: Block)
    requires off + |piece| <= |b|
    ensures |r| == |b|
    ensures forall d :: 0 <= d < |b| ==> r[d] == if off <= d < off + |piece| then piece[d - off] else b[d]
  {
    b[..off] + piece + b[off + |piece|..]
  }

  lemma {:induction false} SpliceByte(bs: nat, disk: Disk, m: FileMap, m': FileMap, inos: set<nat>, ino: nat, j: nat, off: nat,
                                      piece: seq<Byte>, i: nat, k: nat)
    requires 0 < bs && MapOK(bs, disk, m, inos) && ino in inos && i in inos
    requires m(ino, j) != 0 && off + |piece| <= bs
    requires m'(i, UnitOf(k, bs)) == m(i, UnitOf(k, bs))
    ensures m(ino, j) < |disk| && |disk[m(ino, j)]| == bs
    ensures var from := Start(j, bs) + off;
      ByteAt(bs, disk[m(ino, j) := Spliced(disk[m(ino, j)], off, piece)], m', i, k) ==
      if i == ino && from <= k < from + |piece| then piece[k - from] else ByteAt(bs, disk, m, i, k)
  {
    var j' := UnitOf(k, bs);
    if Start(j, bs) <= k < Start(j, bs) + bs {
      UnitUnique(k, j, bs);
    }
    assert m(i, j') == m(ino, j) ==> i == ino && j' == j;
  }

  /** Rewriting part of one data block replaces exactly those bytes of one file. */
  lemma {:induction false} SpliceOverlays(bs: nat, disk: Disk, m: FileMap, f: FileBytes, disk': Disk, m': FileMap, f': FileBytes,
                                          inos: set<nat>, ino: nat, j: nat, off: nat, piece: seq<Byte>)
    requires 0 < bs && MapOK(bs, disk, m, inos) && ino in inos
    requires 0 < m(ino, j) < |disk| && |disk[m(ino, j)]| == bs && off + |piece| <= bs
    requires disk' == disk[m(ino, j) := Spliced(disk[m(ino, j)], off, piece)] && SameMap(m, m', inos)
    requires IsBytes(bs, disk, m, f) && IsBytes(bs, disk', m', f')
    ensures Overlaid(f, f', inos, ino, Start(j, bs) + off, piece)
  {
    var from := Start(j, bs) + off;
    forall i, k: nat | i in inos
      ensures f'(i, k) == if i == ino && from <= k < from + |piece| then piece[k - from] else f(i, k)
    {
      assert f(i, k) == ByteAt(bs, disk, m, i, k) && f'(i, k) == ByteAt(bs, disk', m', i, k);
      SpliceByte(bs, disk, m, m', inos, ino, j, off, piece, i, k);
    }
  }

  /** Mapping block `j` and then rewriting part of it. */
  lemma {:induction false} AssignThenPut(f: FileBytes, m: FileMap, f1: FileBytes, m1: FileMap, f2: FileBytes, m2: FileMap,
                                         inos: set<nat>, ino: nat, j: nat, pos: nat, piece: seq<Byte>)
    requires SameBytes(f, f1, inos) && MapsGrown(m, m1, inos, ino, j, j + 1)
    requires Overlaid(f1, f2, inos, ino, pos, piece) && SameMap(m1, m2, inos)
    ensures Overlaid(f, f2, inos, ino, pos, piece) && MapsGrown(m, m2, inos, ino, j, j + 1)
  {
  }

  /** A step that maps the hole `index` maps nothing else. */
  lemma {:induction false} AssignGrowsMap(bs: nat, disk: Disk, m: FileMap, disk': Disk, m': FileMap, inos: set<nat>,
                                          ino: nat, index: nat, block: nat)
    requires BlockAssigned(bs, disk, m, disk', m', inos, ino, index, block)
    ensures block != 0 ==> MapsGrown(m, m', inos, ino, index, index + 1)
    ensures block == 0 ==> SameMap(m, m', inos)
  {
  }

  // Whole writes.

  /** One past the last block touched by `n` bytes at `pos`. */
  function EndBlock(bs: nat, pos: nat, n: nat): nat
    requires 0 < bs
  {
    if n == 0 then UnitOf(pos, bs) else UnitOf(pos + n - 1, bs) + 1
  }

  lemma {:induction false} EndBlockStep(bs: nat, pos: nat, w: nat, n: nat, j: nat, off: nat)
    requires 0 < bs && 0 < n && off + n <= bs && pos + w == Start(j, bs) + off
    ensures EndBlock(bs, pos, w + n) == j + 1
    ensures UnitOf(pos, bs) <= j <= EndBlock(bs, pos, w) <= j + 1
  {
    UnitUnique(pos + w + n - 1, j, bs);
    var first := UnitOf(pos, bs);
    if j < first {
      StartMono(j, first, bs);
    }
    if w == 0 {
      UnitUnique(pos, j, bs);
    } else if off > 0 {
      UnitUnique(pos + w - 1, j, bs);
    } else {
      UnitUnique(pos + w - 1, j - 1, bs);
    }
  }

  /** What ext2_write promises about bytes and mappings: `data` at `pos`, nothing
      else, and exactly the blocks it touched are newly mapped. */
  ghost predicate Written(bs: nat, f: FileBytes, m: FileMap, f': FileBytes, m': FileMap, inos: set<nat>,
                          ino: nat, pos: nat, data: seq<Byte>)
    requires 0 < bs
  {
    && Overlaid(f, f', inos, ino, pos, data)
    && MapsGrown(m, m', inos, ino, UnitOf(pos, bs), EndBlock(bs, pos, |data|))
  }

  lemma {:induction false} NothingWritten(bs: nat, f: FileBytes, m: FileMap, inos: set<nat>, ino: nat, pos: nat, data: seq<Byte>)
    requires 0 < bs
    ensures Written(bs, f, m, f, m, inos, ino, pos, data[..0])
  {
  }

  /** One more chunk of `data`, inside block `j` at offset `off`. */
  lemma {:induction false} WrittenStep(bs: nat, f: FileBytes, m: FileMap, f1: FileBytes, m1: FileMap, f2: FileBytes, m2: FileMap,
                                       inos: set<nat>, ino: nat, pos: nat, data: seq<Byte>, w: nat, n: nat, j: nat, off: nat)
    requires 0 < bs && 0 < n && off + n <= bs && w + n <= |data| && pos + w == Start(j, bs) + off
    requires Written(bs, f, m, f1, m1, inos, ino, pos, data[..w])
    requires Overlaid(f1, f2, inos, ino, pos + w, data[w..w + n]) && MapsGrown(m1, m2, inos, ino, j, j + 1)
    ensures Written(bs, f, m, f2, m2, inos, ino, pos, data[..w + n])
  {
    OverlaidTrans(f, f1, f2, inos, ino, pos, data[..w], data[w..w + n]);
    assert data[..w] + data[w..w + n] == data[..w + n];
    EndBlockStep(bs, pos, w, n, j, off);
    MapsGrownTrans(m, m1, m2, inos, ino, UnitOf(pos, bs), EndBlock(bs, pos, w), j);
  }

  /** A step that changes no byte and maps no block. */
  lemma {:induction false} WrittenSame(bs: nat, f: FileBytes, m: FileMap, f1: FileBytes, m1: FileMap, f2: FileBytes, m2: FileMap,
                                       inos: set<nat>, ino: nat, pos: nat, data: seq<Byte>)
    requires 0 < bs && Written(bs, f, m, f1, m1, inos, ino, pos, data)
    requires SameBytes(f1, f2, inos) && SameMap(m1, m2, inos)
    ensures Written(bs, f, m, f2, m2, inos, ino, pos, data)
  {
  }

  function MaxOf(a: nat, b: nat): nat {
    if a < b then b else a
  }
}
