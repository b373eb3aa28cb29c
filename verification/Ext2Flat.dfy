/**
  The flat-file view: reads and writes act on a byte array with a cursor. A
  write past the end zero-fills the gap. A read is exact unless the tail block
  of the file is a hole, which the condition below pins down.
 */
module Ext2Flat {
  import opened Ext2Layout
  import opened Ext2Tree
  import opened Ext2Bytes
  import opened Ext2Store

  /** The file as a flat array. */
  ghost function Contents(f: FileBytes, i: nat, size: nat): seq<Byte> {
    Slice(f, i, 0, size)
  }

  /** Bytes beyond the size are zero. */
  ghost predicate ZeroPast(f: FileBytes, i: nat, size: nat) {
    forall k: nat {:trigger f(i, k)} :: size <= k ==> f(i, k) == 0
  }

  /** The flat array after `data` was written at `pos`: a gap reads as zeros. */
  ghost function FlatWrite(c: seq<Byte>, pos: nat, data: seq<Byte>): seq<Byte> {
    seq<Byte>(MaxOf(|c|, pos + |data|), k requires 0 <= k =>
      if pos <= k < pos + |data| then data[k - pos] else if k < |c| then c[k] else 0)
  }

  /** A write on the volume is a write on the flat array, and keeps the bytes
      beyond the new size zero. */
  lemma {:induction false} WriteIsFlatWrite(f: FileBytes, f': FileBytes, inos: set<nat>, ino: nat, size: nat, pos: nat, data: seq<Byte>)
    requires ino in inos && Overlaid(f, f', inos, ino, pos, data) && ZeroPast(f, ino, size)
    ensures var size' := MaxOf(size, pos + |data|);
      Contents(f', ino, size') == FlatWrite(Contents(f, ino, size), pos, data) && ZeroPast(f', ino, size')
  {
    var size' := MaxOf(size, pos + |data|);
    var c, w := Contents(f', ino, size'), FlatWrite(Contents(f, ino, size), pos, data);
    forall k | 0 <= k < size' ensures c[k] == w[k] {
      assert c[k] == f'(ino, k);
      assert size <= k ==> f(ino, k) == 0;
    }
    forall k: nat | size' <= k ensures f'(ino, k) == 0 {
      assert f(ino, k) == 0;
    }
  }

  /** Other files are untouched by a write. */
  lemma {:induction false} WriteKeepsOthers(f: FileBytes, f': FileBytes, inos: set<nat>, ino: nat, pos: nat, data: seq<Byte>, i: nat, size: nat)
    requires i in inos && i != ino && Overlaid(f, f', inos, ino, pos, data)
    ensures Contents(f', i, size) == Contents(f, i, size)
    ensures ZeroPast(f, i, size) ==> ZeroPast(f', i, size)
  {
    forall k | 0 <= k < size ensures Contents(f', i, size)[k] == Contents(f, i, size)[k] {
      assert f'(i, k) == f(i, k);
    }
    if ZeroPast(f, i, size) {
      forall k: nat | size <= k ensures f'(i, k) == 0 {
        assert f(i, k) == 0;
      }
    }
  }

  // Reads.

  /** What a read on a flat array of `size` bytes returns. */
  function FlatReadLen(size: nat, pos: nat, count: nat): int {
    if pos >= size then 0 else Min(count, size - pos)
  }

  /** A read stays inside the flat array exactly when the tail is mapped, or the
      size is a whole number of blocks, or the request itself ends in time. */
  lemma {:induction false} ReadExactIff(bs: nat, m: FileMap, i: nat, size: nat, max: nat, pos: nat, count: nat)
    requires 0 < bs && size <= Start(max, bs)
    ensures ReadLen(bs, m, i, size, max, pos, count) == FlatReadLen(size, pos, count) <==>
            pos >= size || TailMapped(bs, m, i, size) || Start(TailBlock(size, bs), bs) + bs == size || count <= size - pos
  {
    if pos < size {
      var tail := TailBlock(size, bs);
      if max < tail {
        StartMono(max, tail, bs);
      }
      assert tail < max;
    }
  }

  /** Beyond the mappable blocks a read stops at the last mappable byte. */
  lemma {:induction false} ReadBeyondCapacity(bs: nat, m: FileMap, i: nat, size: nat, max: nat, pos: nat, count: nat)
    requires 0 < bs && Start(max, bs) < size
    ensures ReadLen(bs, m, i, size, max, pos, count) == FlatReadLen(Start(max, bs), pos, count)
  {
    var tail := TailBlock(size, bs);
    if tail < max {
      StartMono(tail, max, bs);
    } else if max < tail {
      StartMono(max, tail, bs);
    }
  }

  /** An exact read returns the matching piece of the flat array. */
  lemma {:induction false} ReadIsFlatRead(f: FileBytes, i: nat, size: nat, pos: nat, count: nat)
    ensures var n := FlatReadLen(size, pos, count);
      0 <= n && (n > 0 ==> pos + n <= size && Slice(f, i, pos, n) == Contents(f, i, size)[pos..pos + n])
  {
  }

  /** ext2_write keeps the tail mapped except when it writes nothing beyond the
      end of the file into a hole. */
  lemma {:induction false} TailStaysMappedIff(bs: nat, m: FileMap, m': FileMap, inos: set<nat>, ino: nat, size: nat, pos: nat, w: nat)
    requires 0 < bs && ino in inos && TailMapped(bs, m, ino, size)
    requires MapsGrown(m, m', inos, ino, UnitOf(pos, bs), EndBlock(bs, pos, w))
    ensures TailMapped(bs, m', ino, MaxOf(size, pos + w)) <==>
            w > 0 || pos <= size || m(ino, UnitOf(pos - 1, bs)) != 0
  {
    var size' := MaxOf(size, pos + w);
    if size' > 0 {
      var tail := TailBlock(size', bs);
      assert m'(ino, tail) != 0 <==> m(ino, tail) != 0 || UnitOf(pos, bs) <= tail < EndBlock(bs, pos, w);
      if size < pos + w && w > 0 {
        var a, b := UnitOf(pos, bs), UnitOf(pos + w - 1, bs);
        if b < a {
          StartMono(b, a, bs);
        }
      }
    }
  }

  /** Whatever number of bytes a write at `pos` manages to write, the tail stays mapped. */
  ghost predicate TailSafe(bs: nat, m: FileMap, inos: set<nat>, ino: nat, size: nat, pos: nat)
    requires 0 < bs
  {
    forall m', w: nat {:trigger MapsGrown(m, m', inos, ino, UnitOf(pos, bs), EndBlock(bs, pos, w))} ::
      MapsGrown(m, m', inos, ino, UnitOf(pos, bs), EndBlock(bs, pos, w)) ==> TailMapped(bs, m', ino, MaxOf(size, pos + w))
  }

  /** What a caller can check before the call: that is so exactly if the write does not
      start past the end, or the byte before it lies in a mapped block. */
  lemma {:induction false} TailSafeIff(bs: nat, m: FileMap, inos: set<nat>, ino: nat, size: nat, pos: nat)
    requires 0 < bs && ino in inos && TailMapped(bs, m, ino, size)
    ensures TailSafe(bs, m, inos, ino, size, pos) <==> pos <= size || m(ino, UnitOf(pos - 1, bs)) != 0
  {
    if pos <= size || m(ino, UnitOf(pos - 1, bs)) != 0 {
      forall m', w: nat | MapsGrown(m, m', inos, ino, UnitOf(pos, bs), EndBlock(bs, pos, w))
        ensures TailMapped(bs, m', ino, MaxOf(size, pos + w))
      {
        TailStaysMappedIff(bs, m, m', inos, ino, size, pos, w);
      }
    } else {
      assert MapsGrown(m, m, inos, ino, UnitOf(pos, bs), EndBlock(bs, pos, 0));
      TailStaysMappedIff(bs, m, m, inos, ino, size, pos, 0);
      assert MaxOf(size, pos + 0) == pos;
    }
  }

  // All files at once.

  type Files = map<nat, seq<Byte>>

  /** All files of the volume as flat arrays. */
  ghost function FilesOf(f: FileBytes, inodes: Inodes): Files {
    map i | i in inodes :: Contents(f, i, SizeOf(inodes[i]))
  }

  ghost predicate AllZeroPast(f: FileBytes, inodes: Inodes) {
    forall i :: i in inodes ==> ZeroPast(f, i, SizeOf(inodes[i]))
  }

  /** A write of the volume is a write of one flat array. */
  lemma {:induction false} WriteIsUpdate(f: FileBytes, inodes: Inodes, f': FileBytes, inodes': Inodes, ino: nat, pos: nat, data: seq<Byte>)
    requires ino in inodes && inodes'.Keys == inodes.Keys
    requires AllZeroPast(f, inodes) && Overlaid(f, f', inodes.Keys, ino, pos, data)
    requires SizeOf(inodes'[ino]) == MaxOf(SizeOf(inodes[ino]), pos + |data|)
    requires forall i :: i in inodes && i != ino ==> inodes'[i] == inodes[i]
    ensures AllZeroPast(f', inodes')
    ensures FilesOf(f', inodes') == FilesOf(f, inodes)[ino := FlatWrite(FilesOf(f, inodes)[ino], pos, data)]
  {
    forall i | i in inodes
      ensures ZeroPast(f', i, SizeOf(inodes'[i]))
      ensures Contents(f', i, SizeOf(inodes'[i])) == if i == ino then FlatWrite(FilesOf(f, inodes)[ino], pos, data) else FilesOf(f, inodes)[i]
    {
      if i == ino {
        WriteIsFlatWrite(f, f', inodes.Keys, i, SizeOf(inodes[i]), pos, data);
      } else {
        WriteKeepsOthers(f, f', inodes.Keys, ino, pos, data, i, SizeOf(inodes[i]));
      }
    }
  }
}
