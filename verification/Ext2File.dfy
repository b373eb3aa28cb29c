/**
  ext2_read, ext2_write and ext2_seek on an open inode: they act on the flat
  byte array of the file, across block boundaries and sparse holes.
 */
module Ext2File {
  import opened Wrappers
  import opened Ext2Layout
  import opened Ext2Tree
  import opened Ext2Bytes
  import opened Ext2Store
  import opened Ext2Volume

  /** Length of the next chunk before any cut at the file size. */
  function ChunkLen(count: nat, seek: nat, bs: nat): (n: nat)
    requires 0 < count && seek < bs
    ensures 0 < n <= count && seek + n <= bs && (n == count || seek + n == bs)
  {
    var n := if count < bs then count else bs;
    if n + seek > bs then bs - seek else n
  }

  /** Unsigned 64-bit subtraction. */
  function WrapSub(a: nat, b: nat): (r: nat)
    requires a < TWO64 && b < TWO64
    ensures r < TWO64
    ensures r == if a >= b then a - b else a - b + TWO64
  {
    (a - b) % TWO64
  }

  class Handle {
    const vol: Volume
    const ino: nat
    var seek: nat
    var seekBlock: nat

    ghost predicate Valid()
      reads this, vol
    {
      && vol.Valid() && ino in vol.inodes && 0 < ino
      && Home(vol.geo, ino) < vol.geo.groups
      && seek < vol.geo.blockSize
    }

    constructor (vol: Volume, ino: nat)
      requires vol.Valid() && ino in vol.inodes && 0 < ino
      requires Home(vol.geo, ino) < vol.geo.groups
      ensures Valid() && Position() == 0 && this.vol == vol && this.ino == ino
    {
      this.vol, this.ino := vol, ino;
      seek, seekBlock := 0, 0;
    }

    /** The cursor; ext2_get_seek computes it as a product. */
    ghost function Position(): nat
      reads this
    {
      Start(seekBlock, vol.geo.blockSize) + seek
    }

    /** ext2_get_seek. */
    method GetSeek() returns (pos: nat)
      requires Valid()
      ensures pos == Position()
    {
      StartIsProduct(seekBlock, vol.geo.blockSize);
      pos := seekBlock * vol.geo.blockSize + seek;
    }

    /** ext2_seek. */
    method Seek(pos: nat)
      requires Valid()
      modifies this
      ensures Valid() && Position() == pos
    {
      UnitIsQuotient(pos, vol.geo.blockSize);
      seekBlock := pos / vol.geo.blockSize;
      seek := pos % vol.geo.blockSize;
    }

    /** Move the cursor inside the current block, or to the start of the next. */
    method Advance(n: nat)
      requires Valid() && seek + n <= vol.geo.blockSize
      modifies this
      ensures Valid() && Position() == old(Position()) + n
    {
      seek := seek + n;
      if seek == vol.geo.blockSize {
        seek := 0;
        seekBlock := seekBlock + 1;
      }
    }

    /** One pass of the read loop: at most `count` bytes of the current block,
        cut at the file size only when the block is mapped. */
    method ReadChunk(inode: Inode, full: nat, count: nat)
      returns (st: BlockState, piece: seq<Byte>, clamped: bool)
      requires Valid() && inode == vol.inodes[ino]
      requires full == Position() < SizeOf(inode) && 0 < count
      ensures var limit := ReadLimit(vol.geo.blockSize, vol.files, ino, SizeOf(inode), vol.capacity);
        if st == BlockError then limit <= full
        else
          && 0 < |piece| <= count && seek + |piece| <= vol.geo.blockSize
          && full + |piece| <= limit
          && piece == Slice(vol.bytes, ino, full, |piece|)
          && (clamped ==> full + |piece| == SizeOf(inode) == limit)
          && (!clamped && full + |piece| >= SizeOf(inode) && |piece| < count ==> full + |piece| == limit)
    {
      assert Opened(true);
      var bs, size := vol.geo.blockSize, SizeOf(inode);
      clamped := false;
      var readLen := ChunkLen(count, seek, bs);
      var block;
      st, block := vol.GetBlock(inode, seekBlock, ino);
      ChunkBounds(bs, vol.files, ino, size, vol.capacity, seekBlock, seek);
      if st == BlockError {
        return st, [], false;
      }
      if st == BlockOk {
        if readLen + full >= size {
          readLen := size - full;
          clamped := true;
        }
        piece := vol.disk[block][seek..seek + readLen];
        CopiedSlice(bs, vol.disk, vol.files, vol.bytes, ino, seekBlock, seek, readLen);
      } else {
        piece := Zeros(readLen);
        HoleSlice(bs, vol.disk, vol.files, vol.bytes, ino, seekBlock, seek, readLen);
      }
    }

    /** ext2_read: the exact number of bytes and exactly those of the file. */
    method Read(count0: nat) returns (out: seq<Byte>)
      requires Valid() && count0 < TWO64
      modifies this
      ensures |out| == ReadLen(vol.geo.blockSize, vol.files, ino, SizeOf(vol.inodes[ino]), vol.capacity, old(Position()), count0)
      ensures out == Slice(vol.bytes, ino, old(Position()), |out|)
      ensures Valid() && Position() == old(Position()) + |out|
    {
      var inode, bs := vol.inodes[ino], vol.geo.blockSize;
      var size := SizeOf(inode);
      var count := count0;
      var full := GetSeek();
      ghost var pos, limit := full, ReadLimit(bs, vol.files, ino, size, vol.capacity);
      out := [];
      ghost var cut := false;
      while count != 0
        invariant 0 <= count < TWO64 && Valid()
        invariant full == pos + |out| == Position()
        invariant |out| <= count0
        invariant out == Slice(vol.bytes, ino, pos, |out|)
        invariant out != [] ==> pos < size && full <= limit
        invariant out != [] && full >= size && count != 0 ==> full == limit
        invariant if cut then full >= size && count != 0 else count == count0 - |out|
        decreases if cut then 0 else count
      {
        if full >= size {
          break;
        }
        var st, piece, clamped := ReadChunk(inode, full, count);
        if st == BlockError {
          break;
        }
        if clamped {
          count := 0;
          cut := true;
        }
        SliceAppend(vol.bytes, ino, pos, |out|, |piece|);
        out := out + piece;
        full := full + |piece|;
        Advance(|piece|);
        count := WrapSub(count, |piece|);
      }
    }

    /** The block under the cursor, mapped if it was a hole; 0 if that failed. */
    method MapCurrent(inode: Inode) returns (block: nat, inode': Inode)
      requires Valid() && inode == vol.inodes[ino]
      modifies vol
      ensures Valid() && inode' == vol.inodes[ino]
      ensures SameButBlocks(old(vol.inodes), vol.inodes, ino)
      ensures SameBytes(old(vol.bytes), vol.bytes, vol.inos)
      ensures block == vol.files(ino, seekBlock) && (block != 0 ==> seekBlock < vol.capacity)
      ensures block != 0 ==> MapsGrown(old(vol.files), vol.files, vol.inos, ino, seekBlock, seekBlock + 1)
      ensures block == 0 ==> SameMap(old(vol.files), vol.files, vol.inos)
      ensures block == 0 ==> seekBlock >= vol.capacity || NoFreeBlock(vol.geo, vol.bitmap, Home(vol.geo, ino))
    {
      inode' := inode;
      var st;
      st, block := vol.GetBlock(inode, seekBlock, ino);
      if st == BlockSparse {
        ghost var disk0, m0 := vol.disk, vol.files;
        block := vol.AssignBlock(ino, seekBlock);
        inode' := vol.inodes[ino];
        AssignGrowsMap(vol.geo.blockSize, disk0, m0, vol.disk, vol.files, vol.inos, ino, seekBlock, block);
      }
    }

    /** The data half of a pass, after the current block was mapped. */
    method PutPiece(block: nat, piece: seq<Byte>, ghost f0: FileBytes, ghost m0: FileMap)
      requires Valid() && block == vol.files(ino, seekBlock) != 0 && seek + |piece| <= vol.geo.blockSize
      requires SameBytes(f0, vol.bytes, vol.inos) && MapsGrown(m0, vol.files, vol.inos, ino, seekBlock, seekBlock + 1)
      modifies vol`disk, vol`files, vol`bytes
      ensures Valid()
      ensures Overlaid(f0, vol.bytes, vol.inos, ino, Position(), piece)
      ensures MapsGrown(m0, vol.files, vol.inos, ino, seekBlock, seekBlock + 1)
    {
      ghost var f1, m1 := vol.bytes, vol.files;
      vol.PutBytes(ino, seekBlock, block, seek, piece);
      AssignThenPut(f0, m0, f1, m1, vol.bytes, vol.files, vol.inos, ino, seekBlock, Position(), piece);
    }

    /** One pass of the write loop: map the current block if it is a hole, then
        replace `piece` bytes of it. */
    method WriteChunk(inode: Inode, piece: seq<Byte>) returns (ok: bool, inode': Inode)
      requires Valid() && inode == vol.inodes[ino]
      requires 0 < |piece| && seek + |piece| <= vol.geo.blockSize
      modifies vol
      ensures Valid() && inode' == vol.inodes[ino]
      ensures SameButBlocks(old(vol.inodes), vol.inodes, ino)
      ensures ok ==>
        && seekBlock < vol.capacity
        && Overlaid(old(vol.bytes), vol.bytes, vol.inos, ino, Position(), piece)
        && MapsGrown(old(vol.files), vol.files, vol.inos, ino, seekBlock, seekBlock + 1)
      ensures !ok ==>
        && (seekBlock >= vol.capacity || NoFreeBlock(vol.geo, vol.bitmap, Home(vol.geo, ino)))
        && SameBytes(old(vol.bytes), vol.bytes, vol.inos)
        && SameMap(old(vol.files), vol.files, vol.inos)
    {
      ghost var f0, m0 := vol.bytes, vol.files;
      var block;
      block, inode' := MapCurrent(inode);
      ok := block != 0;
      if ok {
        PutPiece(block, piece, f0, m0);
      }
    }

    /** Where the write loop stands: `written` bytes of `data` are in place. */
    ghost predicate Writing(inode: Inode, data: seq<Byte>, written: nat, f0: FileBytes, m0: FileMap, inodes0: Inodes, pos: nat)
      reads this, vol
    {
      && Valid() && inode == vol.inodes[ino] && written <= |data|
      && Position() == pos + written && (written > 0 ==> Position() <= Start(vol.capacity, vol.geo.blockSize))
      && SameButBlocks(inodes0, vol.inodes, ino)
      && Written(vol.geo.blockSize, f0, m0, vol.bytes, vol.files, vol.inos, ino, pos, data[..written])
    }

    /** One pass with its effect on everything written so far. */
    method WritePass(inode: Inode, data: seq<Byte>, written: nat, ghost f0: FileBytes, ghost m0: FileMap, ghost inodes0: Inodes, ghost pos: nat)
      returns (n: nat, inode': Inode)
      requires Writing(inode, data, written, f0, m0, inodes0, pos) && written < |data|
      modifies this, vol
      ensures Writing(inode', data, written + n, f0, m0, inodes0, pos)
      ensures n == 0 ==> seekBlock >= vol.capacity || NoFreeBlock(vol.geo, vol.bitmap, Home(vol.geo, ino))
    {
      ghost var f1, m1, inodes1, inos, bs := vol.bytes, vol.files, vol.inodes, vol.inos, vol.geo.blockSize;
      n := ChunkLen(|data| - written, seek, vol.geo.blockSize);
      var ok;
      ok, inode' := WriteChunk(inode, data[written..written + n]);
      SameButBlocksTrans(inodes0, inodes1, vol.inodes, ino);
      if ok {
        WrittenStep(bs, f0, m0, f1, m1, vol.bytes, vol.files, inos, ino, pos, data, written, n, seekBlock, seek);
        StartMono(seekBlock, vol.capacity, bs);
        Advance(n);
      } else {
        n := 0;
        WrittenSame(bs, f0, m0, f1, m1, vol.bytes, vol.files, inos, ino, pos, data[..written]);
      }
    }

    /** The loop of ext2_write, before the size is stored. */
    method WriteLoop(data: seq<Byte>) returns (written: nat)
      requires Valid() && |data| < TWO64 && Position() < TWO64
      modifies this, vol
      ensures written <= |data| && ino in vol.inodes
      ensures Writing(vol.inodes[ino], data, written, old(vol.bytes), old(vol.files), old(vol.inodes), old(Position()))
      ensures Position() < TWO64
      ensures written < |data| ==> seekBlock >= vol.capacity || NoFreeBlock(vol.geo, vol.bitmap, Home(vol.geo, ino))
    {
      var inode := vol.inodes[ino];
      ghost var f0, m0, inodes0, pos := vol.bytes, vol.files, vol.inodes, Position();
      CapacityFits(vol.geo, vol.capacity);
      NothingWritten(vol.geo.blockSize, f0, m0, vol.inos, ino, pos, data);
      written := 0;
      while written < |data|
        invariant Writing(inode, data, written, f0, m0, inodes0, pos)
      {
        var n;
        n, inode := WritePass(inode, data, written, f0, m0, inodes0, pos);
        if n == 0 {
          break;
        }
        written := written + n;
      }
    }

    /** ext2_write: the bytes at the cursor are replaced, all other bytes of all
        files are kept, and the size is the larger end. */
    method Write(data: seq<Byte>) returns (written: nat)
      requires Valid() && |data| < TWO64 && Position() < TWO64
      modifies this, vol
      ensures Valid() && written <= |data|
      ensures Position() == old(Position()) + written
      ensures Written(vol.geo.blockSize, old(vol.bytes), old(vol.files), vol.bytes, vol.files, vol.inos,
                      ino, old(Position()), data[..written])
      ensures SizeOf(vol.inodes[ino]) == MaxOf(SizeOf(old(vol.inodes)[ino]), old(Position()) + written)
      ensures forall i :: i in vol.inodes && i != ino ==> vol.inodes[i] == old(vol.inodes)[i]
      ensures written < |data| ==> seekBlock >= vol.capacity || NoFreeBlock(vol.geo, vol.bitmap, Home(vol.geo, ino))
      ensures Position() < TWO64 && (written > 0 ==> Position() <= Start(vol.capacity, vol.geo.blockSize))
    {
      var size := SizeOf(vol.inodes[ino]);
      written := WriteLoop(data);
      var full := GetSeek();
      if full > size {
        ghost var f, m := vol.bytes, vol.files;
        vol.SetSize(ino, full);
        WrittenSame(vol.geo.blockSize, old(vol.bytes), old(vol.files), f, m, vol.bytes, vol.files, vol.inos,
                    ino, old(Position()), data[..written]);
      }
    }
  }
}
