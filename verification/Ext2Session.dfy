/**
  Whole runs: any number of open handles on any files of a volume, seeking, reading
  and writing in any order.
 */
module Ext2Session {
  import opened Wrappers
  import opened Ext2Layout
  import opened Ext2Tree
  import opened Ext2Bitmap
  import opened Ext2Bytes
  import opened Ext2Store
  import opened Ext2Volume
  import opened Ext2File
  import opened Ext2Flat

  datatype Op = SeekTo(h: nat, pos: nat) | WriteData(h: nat, data: seq<Byte>) | ReadData(h: nat, count: nat)

  datatype Outcome = Sought | Wrote(n: nat) | Got(bytes: seq<Byte>)

  /** The flat view: every file a byte array, every handle an inode and a cursor. */
  datatype Flat = Flat(files: Files, inos: seq<nat>, cursors: seq<nat>)

  ghost predicate FlatOK(s: Flat) {
    |s.inos| == |s.cursors| && forall k :: 0 <= k < |s.inos| ==> s.inos[k] in s.files
  }

  ghost predicate OpOK(s: Flat, op: Op) {
    op.h < |s.cursors|
  }

  /** The flat view after an operation with the given outcome. */
  ghost function Apply(s: Flat, op: Op, out: Outcome): (r: Flat)
    requires FlatOK(s) && OpOK(s, op)
    ensures FlatOK(r) && |r.cursors| == |s.cursors|
  {
    var ino, pos := s.inos[op.h], s.cursors[op.h];
    match op
    case SeekTo(h, p) => s.(cursors := s.cursors[h := p])
    case WriteData(h, data) =>
      if out.Wrote? && out.n <= |data| then
        s.(files := s.files[ino := FlatWrite(s.files[ino], pos, data[..out.n])], cursors := s.cursors[h := pos + out.n])
      else s
    case ReadData(h, count) =>
      if out.Got? then s.(cursors := s.cursors[h := pos + |out.bytes|]) else s
  }

  /** The write starts inside the file or at its end. */
  ghost predicate NoGap(s: Flat, op: Op)
    requires FlatOK(s) && OpOK(s, op)
  {
    op.WriteData? ==> s.cursors[op.h] <= |s.files[s.inos[op.h]]|
  }

  /** What a read of a flat file returns. */
  ghost function FlatRead(s: Flat, op: Op): seq<Byte>
    requires FlatOK(s) && OpOK(s, op) && op.ReadData?
  {
    var file, pos := s.files[s.inos[op.h]], s.cursors[op.h];
    if pos >= |file| then [] else file[pos..pos + Min(op.count, |file| - pos)]
  }

  ghost predicate OpsOK(s: Flat, ops: seq<Op>) {
    forall k :: 0 <= k < |ops| ==> OpOK(s, ops[k])
  }

  /** The flat view after a run. */
  ghost function Replay(s: Flat, ops: seq<Op>, outs: seq<Outcome>): (r: Flat)
    requires FlatOK(s) && OpsOK(s, ops) && |outs| == |ops|
    ensures FlatOK(r) && |r.cursors| == |s.cursors|
    decreases |ops|
  {
    if ops == [] then s
    else
      var n := |ops| - 1;
      Apply(Replay(s, ops[..n], outs[..n]), ops[n], outs[n])
  }

  /** No write of the run starts past the end of its file. */
  ghost predicate GapFree(s: Flat, ops: seq<Op>, outs: seq<Outcome>)
    requires FlatOK(s) && OpsOK(s, ops) && |outs| == |ops|
    decreases |ops|
  {
    ops == [] || (var n := |ops| - 1; GapFree(s, ops[..n], outs[..n]) && NoGap(Replay(s, ops[..n], outs[..n]), ops[n]))
  }

  // The volume and its handles.

  /** Tails are mapped and sizes are within the mappable blocks. */
  ghost predicate Tails(bs: nat, m: FileMap, inodes: Inodes, max: nat)
    requires 0 < bs
  {
    forall i :: i in inodes ==> TailMapped(bs, m, i, SizeOf(inodes[i])) && SizeOf(inodes[i]) <= Start(max, bs)
  }

  ghost predicate TailsOK(vol: Volume)
    requires vol.Valid()
    reads vol
  {
    Tails(vol.geo.blockSize, vol.files, vol.inodes, vol.capacity)
  }

  ghost predicate HandleOK(vol: Volume, h: Handle)
    requires GeoOK(vol.geo)
    reads h
  {
    && h.vol == vol && h.ino in vol.inos && 0 < h.ino && h.seek < vol.geo.blockSize && h.Position() < TWO64
    && Home(vol.geo, h.ino) < vol.geo.groups
  }

  ghost predicate Session(vol: Volume, hs: seq<Handle>)
    reads vol, hs
  {
    && vol.Valid() && AllZeroPast(vol.bytes, vol.inodes)
    && (forall k :: 0 <= k < |hs| ==> HandleOK(vol, hs[k]))
    && (forall j, k :: 0 <= j < k < |hs| ==> hs[j] != hs[k])
  }

  ghost function FlatOf(vol: Volume, hs: seq<Handle>): (s: Flat)
    requires Session(vol, hs)
    reads vol, hs
    ensures FlatOK(s) && |s.cursors| == |hs| && s.files == FilesOf(vol.bytes, vol.inodes)
    ensures forall k :: 0 <= k < |hs| ==> s.inos[k] == hs[k].ino && s.cursors[k] == hs[k].Position()
  {
    Flat(FilesOf(vol.bytes, vol.inodes),
         seq(|hs|, k requires 0 <= k < |hs| reads hs => hs[k].ino),
         seq(|hs|, k requires 0 <= k < |hs| reads hs, vol => hs[k].Position()))
  }

  lemma {:induction false} ReadLimitBound(bs: nat, m: FileMap, i: nat, size: nat, max: nat)
    requires 0 < bs
    ensures ReadLimit(bs, m, i, size, max) <= Start(max, bs)
  {
    if size > 0 {
      var tail := TailBlock(size, bs);
      if tail < max {
        StartMono(tail, max, bs);
      }
    }
  }

  /** With a mapped tail a read returns the matching piece of the flat array. */
  lemma {:induction false} ReadIsExact(bs: nat, m: FileMap, f: FileBytes, i: nat, size: nat, max: nat, pos: nat, count: nat)
    requires 0 < bs && TailMapped(bs, m, i, size) && size <= Start(max, bs)
    ensures var n := ReadLen(bs, m, i, size, max, pos, count);
      && 0 <= n && n == (if pos >= size then 0 else Min(count, size - pos))
      && Slice(f, i, pos, n) == if pos >= size then [] else Contents(f, i, size)[pos..pos + Min(count, size - pos)]
  {
    ReadExactIff(bs, m, i, size, max, pos, count);
    ReadIsFlatRead(f, i, size, pos, count);
  }

  /** A write that starts at or before the end keeps every tail mapped. */
  lemma {:induction false} TailAfterWrite(bs: nat, m: FileMap, m': FileMap, inos: set<nat>, ino: nat, i: nat, size: nat, size': nat, max: nat, pos: nat, w: nat)
    requires 0 < bs && ino in inos && i in inos && MapsGrown(m, m', inos, ino, UnitOf(pos, bs), EndBlock(bs, pos, w))
    requires TailMapped(bs, m, i, size) && size <= Start(max, bs) && (w > 0 ==> pos + w <= Start(max, bs))
    requires if i == ino then pos <= size && size' == MaxOf(size, pos + w) else size' == size
    ensures TailMapped(bs, m', i, size') && size' <= Start(max, bs)
  {
    if i == ino {
      TailStaysMappedIff(bs, m, m', inos, ino, size, pos, w);
    } else if size > 0 {
      assert m'(i, TailBlock(size, bs)) != 0;
    }
  }

  lemma {:induction false} TailsAfterWrite(bs: nat, m: FileMap, inodes: Inodes, m': FileMap, inodes': Inodes, ino: nat, max: nat, pos: nat, w: nat)
    requires 0 < bs && ino in inodes && inodes'.Keys == inodes.Keys && Tails(bs, m, inodes, max) && pos <= SizeOf(inodes[ino])
    requires MapsGrown(m, m', inodes.Keys, ino, UnitOf(pos, bs), EndBlock(bs, pos, w)) && (w > 0 ==> pos + w <= Start(max, bs))
    requires SizeOf(inodes'[ino]) == MaxOf(SizeOf(inodes[ino]), pos + w) && forall i :: i in inodes && i != ino ==> inodes'[i] == inodes[i]
    ensures Tails(bs, m', inodes', max)
  {
    forall i | i in inodes' ensures TailMapped(bs, m', i, SizeOf(inodes'[i])) && SizeOf(inodes'[i]) <= Start(max, bs) {
      TailAfterWrite(bs, m, m', inodes.Keys, ino, i, SizeOf(inodes[i]), SizeOf(inodes'[i]), max, pos, w);
    }
  }

  /** A write through one handle. */
  method WriteOne(vol: Volume, h: Handle, data: seq<Byte>) returns (n: nat)
    requires vol.Valid() && AllZeroPast(vol.bytes, vol.inodes) && HandleOK(vol, h) && |data| < TWO64
    modifies vol, h
    ensures vol.Valid() && AllZeroPast(vol.bytes, vol.inodes) && HandleOK(vol, h) && n <= |data|
    ensures h.Position() == old(h.Position()) + n && h.ino in old(vol.inodes)
    ensures FilesOf(vol.bytes, vol.inodes)
         == old(FilesOf(vol.bytes, vol.inodes))[h.ino := FlatWrite(old(FilesOf(vol.bytes, vol.inodes))[h.ino], old(h.Position()), data[..n])]
    ensures old(TailsOK(vol)) && old(h.Position()) <= SizeOf(old(vol.inodes)[h.ino]) ==> TailsOK(vol)
  {
    ghost var f, m, inodes, pos, bs := vol.bytes, vol.files, vol.inodes, h.Position(), vol.geo.blockSize;
    n := h.Write(data);
    WriteIsUpdate(f, inodes, vol.bytes, vol.inodes, h.ino, pos, data[..n]);
    if Tails(bs, m, inodes, vol.capacity) && pos <= SizeOf(inodes[h.ino]) {
      TailsAfterWrite(bs, m, inodes, vol.files, vol.inodes, h.ino, vol.capacity, pos, n);
    }
  }

  method DoWrite(vol: Volume, hs: seq<Handle>, k: nat, data: seq<Byte>) returns (n: nat)
    requires Session(vol, hs) && k < |hs| && |data| < TWO64
    modifies vol, hs[k]
    ensures Session(vol, hs) && FlatOf(vol, hs) == Apply(old(FlatOf(vol, hs)), WriteData(k, data), Wrote(n))
    ensures old(TailsOK(vol)) && NoGap(old(FlatOf(vol, hs)), WriteData(k, data)) ==> TailsOK(vol)
  {
    ghost var s := FlatOf(vol, hs);
    n := WriteOne(vol, hs[k], data);
    Written(s, FlatOf(vol, hs), k, data, n);
  }

  lemma {:induction false} Written(s: Flat, t: Flat, k: nat, data: seq<Byte>, n: nat)
    requires FlatOK(s) && FlatOK(t) && k < |s.cursors| == |t.cursors| && n <= |data|
    requires t.files == s.files[s.inos[k] := FlatWrite(s.files[s.inos[k]], s.cursors[k], data[..n])]
    requires forall j :: 0 <= j < |s.inos| ==> t.inos[j] == s.inos[j]
    requires forall j :: 0 <= j < |s.cursors| ==> t.cursors[j] == if j == k then s.cursors[k] + n else s.cursors[j]
    ensures t == Apply(s, WriteData(k, data), Wrote(n))
  {
    assert t.inos == s.inos && t.cursors == s.cursors[k := s.cursors[k] + n];
  }

  /** A read through one handle. */
  method ReadOne(vol: Volume, h: Handle, count: nat) returns (out: seq<Byte>)
    requires vol.Valid() && HandleOK(vol, h) && count < TWO64
    modifies h
    ensures HandleOK(vol, h) && h.Position() == old(h.Position()) + |out|
    ensures TailsOK(vol) ==> var file, pos := FilesOf(vol.bytes, vol.inodes)[h.ino], old(h.Position());
      out == if pos >= |file| then [] else file[pos..pos + Min(count, |file| - pos)]
  {
    ghost var pos, size, bs := h.Position(), SizeOf(vol.inodes[h.ino]), vol.geo.blockSize;
    CapacityFits(vol.geo, vol.capacity);
    ReadLimitBound(bs, vol.files, h.ino, size, vol.capacity);
    out := h.Read(count);
    if Tails(bs, vol.files, vol.inodes, vol.capacity) {
      ReadIsExact(bs, vol.files, vol.bytes, h.ino, size, vol.capacity, pos, count);
    }
  }

  method DoRead(vol: Volume, hs: seq<Handle>, k: nat, count: nat) returns (out: seq<Byte>)
    requires Session(vol, hs) && k < |hs| && count < TWO64
    modifies hs[k]
    ensures Session(vol, hs) && FlatOf(vol, hs) == Apply(old(FlatOf(vol, hs)), ReadData(k, count), Got(out))
    ensures TailsOK(vol) ==> out == FlatRead(old(FlatOf(vol, hs)), ReadData(k, count))
  {
    out := ReadOne(vol, hs[k], count);
  }

  method DoSeek(vol: Volume, hs: seq<Handle>, k: nat, pos: nat)
    requires Session(vol, hs) && k < |hs| && pos < TWO64
    modifies hs[k]
    ensures Session(vol, hs) && FlatOf(vol, hs) == Apply(old(FlatOf(vol, hs)), SeekTo(k, pos), Sought)
  {
    hs[k].Seek(pos);
  }

  /** Numbers are 64 bits wide. */
  predicate Sized(op: Op) {
    match op
    case SeekTo(h, pos) => pos < TWO64
    case WriteData(h, data) => |data| < TWO64
    case ReadData(h, count) => count < TWO64
  }

  /** One operation of a run. */
  method Perform(vol: Volume, hs: seq<Handle>, op: Op) returns (out: Outcome)
    requires Session(vol, hs) && op.h < |hs| && Sized(op)
    modifies vol, hs
    ensures Session(vol, hs) && FlatOf(vol, hs) == Apply(old(FlatOf(vol, hs)), op, out)
    ensures old(TailsOK(vol)) && NoGap(old(FlatOf(vol, hs)), op) ==> TailsOK(vol)
    ensures old(TailsOK(vol)) && op.ReadData? ==> out == Got(FlatRead(old(FlatOf(vol, hs)), op))
  {
    match op
    case SeekTo(h, pos) =>
      DoSeek(vol, hs, h, pos);
      out := Sought;
    case WriteData(h, data) =>
      var n := DoWrite(vol, hs, h, data);
      out := Wrote(n);
    case ReadData(h, count) =>
      var bytes := DoRead(vol, hs, h, count);
      out := Got(bytes);
  }

  /** The reads that follow only writes without gaps return exactly the bytes of the
      flat arrays. */
  ghost predicate ReadsExact(s: Flat, ops: seq<Op>, outs: seq<Outcome>)
    requires FlatOK(s) && OpsOK(s, ops) && |outs| == |ops|
    decreases |ops|
  {
    ops == [] ||
    (var n := |ops| - 1;
     && ReadsExact(s, ops[..n], outs[..n])
     && (ops[n].ReadData? && GapFree(s, ops[..n], outs[..n]) ==> outs[n] == Got(FlatRead(Replay(s, ops[..n], outs[..n]), ops[n]))))
  }

  /** One more operation of a run. */
  lemma {:induction false} OneMore(s: Flat, ops: seq<Op>, outs: seq<Outcome>, k: nat, out: Outcome)
    requires FlatOK(s) && OpsOK(s, ops) && k < |ops| && |outs| == k
    ensures OpsOK(s, ops[..k]) && OpsOK(s, ops[..k + 1])
    ensures var before := Replay(s, ops[..k], outs);
      && OpOK(before, ops[k])
      && Replay(s, ops[..k + 1], outs + [out]) == Apply(before, ops[k], out)
      && (GapFree(s, ops[..k + 1], outs + [out]) <==> GapFree(s, ops[..k], outs) && NoGap(before, ops[k]))
      && (ReadsExact(s, ops[..k + 1], outs + [out]) <==>
            (ReadsExact(s, ops[..k], outs)
             && (ops[k].ReadData? && GapFree(s, ops[..k], outs) ==> out == Got(FlatRead(before, ops[k])))))
  {
    assert ops[..k + 1][..k] == ops[..k] && (outs + [out])[..k] == outs && ops[..k + 1][k] == ops[k];
  }

  /** Every run equals its replay on flat arrays and cursors. If the tails are mapped at
      first, then as long as no write starts past the end of its file they stay mapped and
      every read returns exactly min(count, size - pos) bytes of the flat array. */
  method Run(vol: Volume, hs: seq<Handle>, ops: seq<Op>) returns (outs: seq<Outcome>)
    requires Session(vol, hs)
    requires forall k :: 0 <= k < |ops| ==> ops[k].h < |hs| && Sized(ops[k])
    modifies vol, hs
    ensures Session(vol, hs) && |outs| == |ops| && OpsOK(old(FlatOf(vol, hs)), ops)
    ensures FlatOf(vol, hs) == Replay(old(FlatOf(vol, hs)), ops, outs)
    ensures old(TailsOK(vol)) && GapFree(old(FlatOf(vol, hs)), ops, outs) ==> TailsOK(vol)
    ensures old(TailsOK(vol)) ==> ReadsExact(old(FlatOf(vol, hs)), ops, outs)
  {
    outs := [];
    ghost var s := FlatOf(vol, hs);
    var k := 0;
    assert ops[..0] == [];
    while k < |ops|
      invariant 0 <= k == |outs| <= |ops| && Session(vol, hs) && OpsOK(s, ops) && OpsOK(s, ops[..k])
      invariant FlatOf(vol, hs) == Replay(s, ops[..k], outs) && (old(TailsOK(vol)) ==> ReadsExact(s, ops[..k], outs))
      invariant old(TailsOK(vol)) && GapFree(s, ops[..k], outs) ==> TailsOK(vol)
    {
      var out := Perform(vol, hs, ops[k]);
      OneMore(s, ops, outs, k, out);
      outs := outs + [out];
      k := k + 1;
    }
    assert ops[..k] == ops;
  }

  /** On a volume with an empty file that has no block: seek to 1, write nothing, and the
      file is one byte long; a read of two bytes from its start returns two. */
  method ReadPastEnd(vol: Volume, ino: nat) returns (out: seq<Byte>)
    requires vol.Valid() && ino in vol.inodes && 0 < ino && Home(vol.geo, ino) < vol.geo.groups
    requires SizeOf(vol.inodes[ino]) == 0 && vol.files(ino, 0) == 0 && 0 < vol.capacity
    modifies vol
    ensures vol.Valid() && ino in vol.inodes && SizeOf(vol.inodes[ino]) == 1 && |out| == 2
  {
    ghost var m, bs := vol.files, vol.geo.blockSize;
    var h := new Handle(vol, ino);
    h.Seek(1);
    var n := h.Write([]);
    assert vol.files(ino, 0) == 0;
    h.Seek(0);
    UnitUnique(0, 0, bs);
    assert TailBlock(1, bs) == 0;
    out := h.Read(2);
  }

  /** Empty files have no block, and a tree addresses at least the direct ones. */
  lemma {:induction false} FreshFile(geo: Geo, disk: Disk, inos: set<nat>, ino: nat, m: FileMap, max: nat)
    requires GeoOK(geo) && ino in inos && IsMap(geo, disk, FreshInodes(inos), m) && IsCapacity(geo, max)
    ensures SizeOf(FreshInodes(inos)[ino]) == 0 && m(ino, 0) == 0 && 0 < max
  {
    var p := Ptrs(geo.blockSize);
    assert max == MaxBlocks(p);
    BasesAreSums(p);
    assert m(ino, 0) == Mapping(geo, disk, FreshInodes(inos), ino, 0);
    EmptyPlaces(disk, FreshInodes(inos)[ino].ptrs, PlaceOf(p, 0));
  }

  /** So it happens on every freshly made volume, with every inode. */
  method FreshReadPastEnd(geo: Geo, disk: Disk, bitmap: seq<Bits>, groupFree: seq<nat>, totalFree: int, inos: set<nat>, ino: nat)
    returns (vol: Volume, out: seq<Byte>)
    requires GeoOK(geo) && 0 in geo.reserved && PaddingReserved(geo)
    requires Store(disk, bitmap, groupFree, totalFree, geo.reserved, map[]) == FreshStore(geo)
    requires ino in inos && 0 < ino && Home(geo, ino) < geo.groups
    ensures vol.Valid() && ino in vol.inodes && SizeOf(vol.inodes[ino]) == 1 && |out| == 2
  {
    FreshIsConsistent(geo, inos);
    vol := new Volume(geo, disk, bitmap, groupFree, totalFree, FreshInodes(inos), geo.reserved, map[]);
    assert Opened(true);
    FreshFile(geo, disk, inos, ino, vol.files, vol.capacity);
    out := ReadPastEnd(vol, ino);
  }
}
