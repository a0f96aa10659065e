/** Block mapping and file I/O of SFS: src/kern/fs/sfs/sfs_vnode.c. */
module Sfs {
  import opened Basics
  import opened Codec
  import opened Volume
  import opened Bitmap
  import opened UserIo
  import opened Directory

  datatype Errno = OK | ENOSPC | EINVAL | ENOENT | EEXIST | ENAMETOOLONG | ENOMEM | EBUSY

  /** Every bit of the free map is set. */
  ghost predicate Full(v: Vol) {
    forall b: nat :: b < |v.used| ==> v.used[b]
  }

  /** The blocks that are not marked. */
  ghost function FreeBlocks(v: Vol): set<nat> {
    set b: nat | b < |v.used| && !v.used[b]
  }

  lemma FullNone(v: Vol)
    ensures Full(v) <==> FreeBlocks(v) == {}
  {
    if FreeBlocks(v) == {} {
      forall b: nat | b < |v.used|
        ensures v.used[b]
      {
        assert b !in FreeBlocks(v);
      }
    }
  }

  /** The bytes of the first `n` blocks of the free map on a device. */
  function MapBytes(dev: seq<Block>, n: nat): (s: seq<Byte>)
    requires MAPSTART + n <= |dev|
    ensures |s| == n * BLOCKSIZE
  {
    if n == 0 then [] else MapBytes(dev, n - 1) + dev[MAPSTART + n - 1]
  }

  /** sfs_mapio, reading. */
  method LoadMap(dev: seq<Block>, mapsize: nat, v: array<Byte>)
    requires MAPSTART + mapsize <= |dev| && v.Length == mapsize * BLOCKSIZE
    modifies v
    ensures v[..] == MapBytes(dev, mapsize)
  {
    var j := 0;
    while j < mapsize
      invariant j <= mapsize
      invariant v[..j * BLOCKSIZE] == MapBytes(dev, j)
    {
      ghost var was := v[..j * BLOCKSIZE];
      var blk := dev[MAPSTART + j];
      forall i | 0 <= i < BLOCKSIZE { v[j * BLOCKSIZE + i] := blk[i]; }
      assert v[..(j + 1) * BLOCKSIZE] == was + blk;
      j := j + 1;
    }
    assert v[..] == v[..mapsize * BLOCKSIZE];
  }

  /** The volume stored on a device, as it is before any vnode is loaded. */
  function Image(dev: seq<Block>): Vol
    requires MAPSTART + BitBlocks(|dev|) <= |dev|
  {
    Vol(|dev|, dev, Bits(MapBytes(dev, BitBlocks(|dev|))), map[])
  }

  /** Only its own blocks matter to the free map on a device. */
  lemma {:induction false} SamePrefix(dev: seq<Block>, img: seq<Block>, n: nat)
    requires |img| == |dev| && MAPSTART + n <= |dev|
    requires forall b: nat :: MAPSTART <= b < MAPSTART + n ==> img[b] == dev[b]
    ensures MapBytes(img, n) == MapBytes(dev, n)
  {
    if n > 0 { SamePrefix(dev, img, n - 1); }
  }

  /** The superblock is on the device, and so is the free map unless it is marked as changed. */
  ghost predicate MetaStored(disk: seq<Block>, super: Block, n: nat, dirty: bool, bytes: seq<Byte>) {
    && MAPSTART + BitBlocks(n) <= |disk| && disk[0] == super && |bytes| == BitBlocks(n) * BLOCKSIZE
    && (!dirty ==> MapBytes(disk, BitBlocks(n)) == bytes)
  }

  /** Writing a block of a file does not concern them. */
  lemma MetaKept(disk: seq<Block>, super: Block, n: nat, dirty: bool, bytes: seq<Byte>, b: nat, blk: Block)
    requires MetaStored(disk, super, n, dirty, bytes) && b < |disk|
    requires b != 0 && !(MAPSTART <= b < MAPSTART + BitBlocks(n))
    ensures MetaStored(disk[b := blk], super, n, dirty, bytes)
  {
    SamePrefix(disk, disk[b := blk], BitBlocks(n));
  }

  /** A change of the free map is harmless once it is marked. */
  lemma MetaMarked(disk: seq<Block>, super: Block, n: nat, dirty: bool, bytes: seq<Byte>, bytes': seq<Byte>)
    requires MetaStored(disk, super, n, dirty, bytes) && |bytes'| == |bytes|
    ensures MetaStored(disk, super, n, true, bytes')
  {
  }

  /** What a place of a file holds is not metadata. */
  lemma NotMeta(v: Vol, files: set<nat>, owner: map<nat, Ref>, r: Ref)
    requires Inv(v, files, owner) && r.ino in files && Target(v, r) != 0
    ensures Target(v, r) < v.nblocks == |v.disk| && !Meta(v, Target(v, r))
  {
    hide Target;
  }

  /** A list without repetitions whose elements are `s`. */
  ghost predicate Lists(t: seq<nat>, s: set<nat>) {
    && (forall i, j :: 0 <= i < j < |t| ==> t[i] != t[j])
    && (forall x :: x in t <==> x in s)
  }

  lemma AddListed(t: seq<nat>, s: set<nat>, x: nat)
    requires Lists(t, s)
    ensures x !in s ==> Lists(t + [x], s + {x})
  {
  }

  /** The same vnodes are in memory; only that of `f` may differ, and keeps its references. */
  ghost predicate OnlyVnode(c: map<nat, Vnode>, d: map<nat, Vnode>, f: nat) {
    && d.Keys == c.Keys && (f in c ==> d[f].refs == c[f].refs)
    && forall g :: g in c && g != f ==> d[g] == c[g]
  }

  lemma OnlyVnodeIn(c: map<nat, Vnode>, d: map<nat, Vnode>, f: nat)
    requires OnlyVnode(c, d, f) && f in c
    ensures f in d
  {
  }

  lemma OnlyVnodeTwice(c: map<nat, Vnode>, d: map<nat, Vnode>, e: map<nat, Vnode>, f: nat)
    requires OnlyVnode(c, d, f) && OnlyVnode(d, e, f)
    ensures OnlyVnode(c, e, f)
  {
  }

  /** The vnodes of the files other than `f` are as they were. */
  ghost predicate KeepsOthers(c: map<nat, Vnode>, d: map<nat, Vnode>, f: nat) {
    && (forall g :: g != f ==> (g in d <==> g in c))
    && (forall g :: g != f && g in c ==> d[g] == c[g])
  }

  /** The contents of block `b`, all zero for block 0. */
  function BlockBytes(v: Vol, b: nat): (s: Block)
    ensures forall o: nat :: o < BLOCKSIZE ==> s[o] == DiskByte(v, b, o)
  {
    if b == 0 || |v.disk| <= b then ZeroBlock() else v.disk[b]
  }

  /** A block of a file is the disk block it is mapped to. */
  lemma ReadSpan(v: Vol, f: nat, fb: nat)
    requires fb < MAXBLOCKS
    ensures FileOf(v, f).bytes[fb * BLOCKSIZE..fb * BLOCKSIZE + BLOCKSIZE] == BlockBytes(v, Target(v, DataRef(f, fb)))
  {
    hide Target;
    forall o: nat | o < BLOCKSIZE
      ensures FileByte(v, f, fb * BLOCKSIZE + o) == DiskByte(v, Target(v, DataRef(f, fb)), o)
    {
      assert (fb * BLOCKSIZE + o) / BLOCKSIZE == fb && (fb * BLOCKSIZE + o) % BLOCKSIZE == o;
    }
  }

  lemma ReadSlice(v: Vol, f: nat, fb: nat, skip: nat, len: nat)
    requires fb < MAXBLOCKS && skip + len <= BLOCKSIZE
    ensures FileOf(v, f).bytes[fb * BLOCKSIZE + skip..fb * BLOCKSIZE + skip + len] ==
            BlockBytes(v, Target(v, DataRef(f, fb)))[skip..skip + len]
  {
    hide Target, BlockBytes;
    ReadSpan(v, f, fb);
    var bytes, at := FileOf(v, f).bytes, fb * BLOCKSIZE;
    assert bytes[at + skip..at + skip + len] == bytes[at..at + BLOCKSIZE][skip..skip + len];
  }

  /** Overwriting part of the disk block of a file's block overwrites that part of the file. */
  lemma WriteSpan(v: Vol, files: set<nat>, owner: map<nat, Ref>, f: nat, fb: nat, skip: nat, data: seq<Byte>)
    requires Inv(v, files, owner) && f in files && fb < MAXBLOCKS && skip + |data| <= BLOCKSIZE
    requires Target(v, DataRef(f, fb)) != 0
    ensures var b := Target(v, DataRef(f, fb));
      && b < v.nblocks == |v.disk|
      && var w := WithBlock(v, b, Splice(v.disk[b], skip, data));
      && Inv(w, files, owner)
      && (forall r: Ref :: r.ino in files ==> Target(w, r) == Target(v, r))
      && forall g: nat :: g in files ==>
        FileOf(w, g) == if g == f then Written(FileOf(v, f), fb * BLOCKSIZE + skip, data) else FileOf(v, g)
  {
    var b := Target(v, DataRef(f, fb));
    var blk := Splice(v.disk[b], skip, data);
    WriteDataInv(v, files, owner, b, blk);
    WriteBlockTargets(v, files, owner, b, blk);
    var w := WithBlock(v, b, blk);
    forall g: nat | g in files
      ensures FileOf(w, g) == if g == f then Written(FileOf(v, f), fb * BLOCKSIZE + skip, data) else FileOf(v, g)
    {
      WriteSpanFile(v, files, owner, f, fb, skip, data, g);
    }
  }

  lemma WriteSpanFile(v: Vol, files: set<nat>, owner: map<nat, Ref>, f: nat, fb: nat, skip: nat, data: seq<Byte>,
    g: nat)
    requires Inv(v, files, owner) && f in files && fb < MAXBLOCKS && skip + |data| <= BLOCKSIZE
    requires Target(v, DataRef(f, fb)) != 0 && g in files
    ensures var b := Target(v, DataRef(f, fb));
      && b < v.nblocks == |v.disk|
      && FileOf(WithBlock(v, b, Splice(v.disk[b], skip, data)), g) ==
         if g == f then Written(FileOf(v, f), fb * BLOCKSIZE + skip, data) else FileOf(v, g)
  {
    hide Inv, Target, FileByte, Splice, DataRef, CurInode;
    var b := Target(v, DataRef(f, fb));
    OwnedData(v, files, owner, f, fb);
    var blk := Splice(v.disk[b], skip, data);
    WriteDataInv(v, files, owner, b, blk);
    var w := WithBlock(v, b, blk);
    var off := fb * BLOCKSIZE + skip;
    forall p: nat | p < CAPACITY
      ensures FileByte(w, g, p) ==
              if g == f && off <= p < off + |data| then data[p - off] else FileByte(v, g, p)
    {
      WriteSpanByte(v, files, owner, f, fb, b, skip, data, g, p);
    }
    SpliceBytes(FileBytes(v, g), FileBytes(w, g), off, if g == f then data else []);
    SpliceNone(FileBytes(v, g), off);
  }

  lemma OwnedData(v: Vol, files: set<nat>, owner: map<nat, Ref>, f: nat, fb: nat)
    requires Inv(v, files, owner) && f in files && Target(v, DataRef(f, fb)) != 0
    ensures var b := Target(v, DataRef(f, fb));
      b in owner && owner[b] == DataRef(f, fb) && HoldsData(owner[b]) && b < v.nblocks == |v.disk|
  {
  }

  lemma WriteSpanByte(v: Vol, files: set<nat>, owner: map<nat, Ref>, f: nat, fb: nat, b: nat, skip: nat,
                      data: seq<Byte>, g: nat, p: nat)
    requires Inv(v, files, owner) && f in files && fb < MAXBLOCKS && skip + |data| <= BLOCKSIZE
    requires b in owner && owner[b] == DataRef(f, fb) && b < |v.disk| && g in files
    ensures var off := fb * BLOCKSIZE + skip;
      FileByte(WithBlock(v, b, Splice(v.disk[b], skip, data)), g, p) ==
        if g == f && off <= p < off + |data| then data[p - off] else FileByte(v, g, p)
  {
    assert Target(v, DataRef(f, fb)) == b != 0;
    hide Inv, Target, FileByte, Splice;
    WriteData(v, files, owner, b, Splice(v.disk[b], skip, data), g, p);
    WriteSpanAt(v, f, fb, b, skip, data, g, p);
  }

  lemma WriteSpanAt(v: Vol, f: nat, fb: nat, b: nat, skip: nat, data: seq<Byte>, g: nat, p: nat)
    requires b == Target(v, DataRef(f, fb)) && 0 < b < |v.disk| && skip + |data| <= BLOCKSIZE
    ensures DataRef(g, p / BLOCKSIZE) == DataRef(f, fb) ==>
      Splice(v.disk[b], skip, data)[p % BLOCKSIZE] ==
      if fb * BLOCKSIZE + skip <= p < fb * BLOCKSIZE + skip + |data| then data[p - (fb * BLOCKSIZE + skip)]
      else FileByte(v, g, p)
    ensures DataRef(g, p / BLOCKSIZE) != DataRef(f, fb) && g == f ==>
      !(fb * BLOCKSIZE + skip <= p < fb * BLOCKSIZE + skip + |data|)
  {
    hide Target;
    assert p == p / BLOCKSIZE * BLOCKSIZE + p % BLOCKSIZE;
  }

  lemma SpliceBytes(c: seq<Byte>, d: seq<Byte>, off: nat, data: seq<Byte>)
    requires |c| == |d| && off + |data| <= |c|
    requires forall p: nat :: p < |c| ==> d[p] == if off <= p < off + |data| then data[p - off] else c[p]
    ensures d == Splice(c, off, data)
  {
  }

  /** A file after `data` has been written at `off`. */
  function Written(f: File, off: nat, data: seq<Byte>): File
    requires off + |data| <= |f.bytes|
  {
    File(Splice(f.bytes, off, data), f.size, f.typ, f.links)
  }

  /** What moving `n` bytes between a buffer and file `f` at `off` does to the
      files and to the buffer. */
  ghost predicate Moved(rw: Rw, f: nat, off: nat, n: nat, base: nat,
                        fs: map<nat, File>, fs': map<nat, File>, buf: seq<Byte>, buf': seq<Byte>) {
    && f in fs && off + n <= |fs[f].bytes| && base + n <= |buf|
    && match rw
       case Read => fs' == fs && buf' == Splice(buf, base, fs[f].bytes[off..off + n])
       case Write => buf' == buf && fs' == fs[f := Written(fs[f], off, buf[base..base + n])]
  }

  lemma MovedNone(rw: Rw, f: nat, off: nat, base: nat, fs: map<nat, File>, buf: seq<Byte>)
    requires f in fs && off <= |fs[f].bytes| && base <= |buf|
    ensures Moved(rw, f, off, 0, base, fs, fs, buf, buf)
  {
    SpliceNone(buf, base);
    SpliceNone(fs[f].bytes, off);
  }

  lemma MovedTwice(rw: Rw, f: nat, off: nat, n: nat, m: nat, base: nat,
                   fs: map<nat, File>, fs1: map<nat, File>, fs2: map<nat, File>,
                   buf: seq<Byte>, buf1: seq<Byte>, buf2: seq<Byte>)
    requires Moved(rw, f, off, n, base, fs, fs1, buf, buf1)
    requires Moved(rw, f, off + n, m, base + n, fs1, fs2, buf1, buf2)
    ensures Moved(rw, f, off, n + m, base, fs, fs2, buf, buf2)
  {
    hide Splice;
    match rw {
      case Read =>
        var bytes := fs[f].bytes;
        SpliceTwice(buf, base, bytes[off..off + n], bytes[off + n..off + n + m]);
        assert bytes[off..off + n + m] == bytes[off..off + n] + bytes[off + n..off + n + m];
      case Write =>
        SpliceTwice(fs[f].bytes, off, buf[base..base + n], buf[base + n..base + n + m]);
        assert buf[base..base + n + m] == buf[base..base + n] + buf[base + n..base + n + m];
    }
  }

  /** Where a run of block transfers stands after moving `m` bytes. */
  ghost predicate Progress(rw: Rw, f: nat, off: nat, m: nat, base: nat,
                           fs: map<nat, File>, fs': map<nat, File>, buf: seq<Byte>, buf': seq<Byte>) {
    if off <= CAPACITY then Moved(rw, f, off, m, base, fs, fs', buf, buf')
    else m == 0 && fs' == fs && buf' == buf
  }

  lemma ProgressStart(rw: Rw, f: nat, off: nat, base: nat, fs: map<nat, File>, buf: seq<Byte>)
    requires f in fs && |fs[f].bytes| == CAPACITY && base <= |buf|
    ensures Progress(rw, f, off, 0, base, fs, fs, buf, buf)
  {
    if off <= CAPACITY { MovedNone(rw, f, off, base, fs, buf); }
  }

  lemma ProgressTwice(rw: Rw, f: nat, off: nat, n: nat, m: nat, base: nat,
                      fs: map<nat, File>, fs1: map<nat, File>, fs2: map<nat, File>,
                      buf: seq<Byte>, buf1: seq<Byte>, buf2: seq<Byte>)
    requires Progress(rw, f, off, n, base, fs, fs1, buf, buf1)
    requires f in fs && |fs[f].bytes| == CAPACITY
    requires Progress(rw, f, off + n, m, base + n, fs1, fs2, buf1, buf2)
    ensures Progress(rw, f, off, n + m, base, fs, fs2, buf, buf2)
    ensures off <= CAPACITY ==> off + n + m <= CAPACITY
  {
    if off <= CAPACITY {
      assert off + n <= CAPACITY && |fs1[f].bytes| == CAPACITY;
      MovedTwice(rw, f, off, n, m, base, fs, fs1, fs2, buf, buf1, buf2);
    }
  }

  /** How the whole transfer of `n` bytes at `off` of file `f` can end, having reached offset `end`. */
  ghost predicate IoResult(e: Errno, rw: Rw, f: nat, off: nat, n: nat, end: nat, v: Vol, w: Vol) {
    && off <= end <= off + n && (e == OK ==> end == off + n)
    && (e == OK || (e == EINVAL && CAPACITY <= end) || (e == ENOSPC && rw == Write && Full(w)))
    && (e != OK ==> (end == off || end % BLOCKSIZE == 0) && (end < off + n || n == 0))
    && (e == ENOSPC ==> Target(w, DataRef(f, end / BLOCKSIZE)) == 0)
    && (rw == Read ==> w == v)
    && (InOneBlock(off, n) && Target(v, DataRef(f, off / BLOCKSIZE)) != 0 ==> e == OK)
  }

  /** Block `k` of a file is one that a transfer of `n` bytes at `off` looks at. */
  predicate Touched(k: nat, off: nat, n: nat) {
    off / BLOCKSIZE <= k && (k == off / BLOCKSIZE || k * BLOCKSIZE < off + n)
  }

  /** No place of a file that held a block has changed, and the only empty ones that may have
      been filled are those of the blocks the transfer looks at and that of the indirect block. */
  ghost predicate OnlyFilled(v: Vol, w: Vol, files: set<nat>, f: nat, off: nat, n: nat) {
    forall r: Ref :: r.ino in files ==>
      || Target(w, r) == Target(v, r)
      || (Target(v, r) == 0 &&
          (r == IndirectRef(f) || (HoldsData(r) && r == DataRef(f, BlockIndex(r)) && Touched(BlockIndex(r), off, n))))
  }

  lemma OnlyFilledSame(v: Vol, w: Vol, files: set<nat>, f: nat, off: nat, n: nat)
    requires forall r: Ref :: r.ino in files ==> Target(w, r) == Target(v, r)
    ensures OnlyFilled(v, w, files, f, off, n)
  {
    hide Target;
  }

  lemma OnlyFilledOne(v: Vol, w: Vol, files: set<nat>, f: nat, fb: nat)
    requires forall r: Ref :: r.ino in files ==>
      Target(w, r) == Target(v, r) || (Target(v, r) == 0 && (r == IndirectRef(f) || r == DataRef(f, fb)))
    ensures OnlyFilled(v, w, files, f, fb * BLOCKSIZE, 0)
  {
    hide Target;
    assert BlockIndex(DataRef(f, fb)) == fb;
  }

  lemma OnlyFilledMore(v: Vol, w: Vol, files: set<nat>, f: nat, off: nat, n: nat, m: nat)
    requires OnlyFilled(v, w, files, f, off / BLOCKSIZE * BLOCKSIZE, 0) ||
      (OnlyFilled(v, w, files, f, off, n) && n <= m)
    ensures OnlyFilled(v, w, files, f, off, m)
  {
    hide Target, DataRef;
  }

  lemma OnlyFilledTwice(v: Vol, u: Vol, w: Vol, files: set<nat>, f: nat, off: nat, n: nat, m: nat)
    requires OnlyFilled(v, u, files, f, off, n) && OnlyFilled(u, w, files, f, off + n, m)
    requires n == 0 || ((off + n) % BLOCKSIZE == 0 && 0 < m)
    ensures OnlyFilled(v, w, files, f, off, n + m)
  {
    hide Target, DataRef;
  }

  lemma OnlyFilledThen(v: Vol, u: Vol, w: Vol, files: set<nat>, f: nat, off: nat, n: nat)
    requires OnlyFilled(v, u, files, f, off, n) && forall r: Ref :: r.ino in files ==> Target(w, r) == Target(u, r)
    ensures OnlyFilled(v, w, files, f, off, n)
  {
    hide Target, DataRef;
  }

  /** A transfer inside one block takes no blocks but that one and the indirect one. */
  lemma Spent(v: Vol, w: Vol, files: set<nat>, owner: map<nat, Ref>, owner': map<nat, Ref>, f: nat, off: nat, n: nat)
    requires Inv(v, files, owner) && Inv(w, files, owner') && w.nblocks == v.nblocks && |w.used| == |v.used|
    requires OnlyFilled(v, w, files, f, off, n) && InOneBlock(off, n)
    ensures FreeBlocks(v) <= FreeBlocks(w) + {Target(w, IndirectRef(f)), Target(w, DataRef(f, off / BLOCKSIZE))}
  {
    hide Target;
    forall b | b in FreeBlocks(v) && b !in FreeBlocks(w)
      ensures b == Target(w, IndirectRef(f)) || b == Target(w, DataRef(f, off / BLOCKSIZE))
    {
      FreeBit(v, files, owner, b);
      assert b in owner';
      var r := owner'[b];
      assert Target(w, r) == b && Target(v, r) != b;
      if HoldsData(r) { OneTouched(BlockIndex(r), off, n); }
    }
  }

  lemma OneTouched(k: nat, off: nat, n: nat)
    requires InOneBlock(off, n)
    ensures Touched(k, off, n) ==> k == off / BLOCKSIZE
  {
  }

  /** When such a transfer runs out of space, there was at most a block for the indirect one. */
  lemma NoSpace(v: Vol, w: Vol, files: set<nat>, owner: map<nat, Ref>, owner': map<nat, Ref>, f: nat, off: nat, n: nat)
    requires Inv(v, files, owner) && Inv(w, files, owner') && w.nblocks == v.nblocks && |w.used| == |v.used|
    requires OnlyFilled(v, w, files, f, off, n) && InOneBlock(off, n)
    requires Full(w) && Target(w, DataRef(f, off / BLOCKSIZE)) == 0
    ensures |FreeBlocks(v)| <= 1
  {
    hide Inv, OnlyFilled, Target, Full;
    Spent(v, w, files, owner, owner', f, off, n);
    FullNone(w);
    ZeroTaken(v, files, owner);
    assert FreeBlocks(v) <= {Target(w, IndirectRef(f))};
    if FreeBlocks(v) != {} { assert FreeBlocks(v) == {Target(w, IndirectRef(f))}; }
  }

  lemma ZeroTaken(v: Vol, files: set<nat>, owner: map<nat, Ref>)
    requires Inv(v, files, owner)
    ensures 0 !in FreeBlocks(v)
  {
    if 0 in FreeBlocks(v) { FreeBit(v, files, owner, 0); }
  }

  /** The number of bytes a read of `n` bytes at `off` finds before the end of file. */
  function Readable(size: nat, off: nat, n: nat): nat {
    if size <= off then 0 else Min(n, size - off)
  }

  /** ... and the number of those that the block map can reach. */
  function Reachable(off: nat, n: nat): nat {
    if CAPACITY <= off then 0 else Min(n, CAPACITY - off)
  }

  /** What a read of `n` bytes at `off` of a file is: it ends at `off + n` or at the end of file,
      or where the block map ends before that, it fails only there, and exactly the bytes on the
      way are in the buffer from `base` on. */
  ghost predicate ReadAs(e: Errno, g: File, off: nat, n: nat, end: nat, base: nat, buf: seq<Byte>, buf': seq<Byte>) {
    && |g.bytes| == CAPACITY && |buf'| == |buf|
    && (g.size <= off ==> e == OK && end == off)
    && (off < g.size <= CAPACITY ==> e == OK && end == if off + n <= g.size then off + n else g.size)
    && (off < CAPACITY < g.size ==> end == if off + n <= CAPACITY then off + n else CAPACITY)
    && (CAPACITY <= off ==> end == off)
    && (off < g.size && CAPACITY < g.size && 0 < n ==> (e == OK <==> off + n <= CAPACITY))
    && forall i: nat :: i < |buf| ==>
      buf'[i] == if base <= i < base + (end - off) && off + (i - base) < CAPACITY then g.bytes[off + (i - base)]
                 else buf[i]
  }

  /** What a write of the bytes of `buf` from `base` on, up to offset `end`, makes of a file. */
  ghost predicate WroteAs(g: File, h: File, off: nat, end: nat, base: nat, buf: seq<Byte>) {
    && |h.bytes| == |g.bytes| == CAPACITY && h.typ == g.typ && h.links == g.links
    && off <= end && base + (end - off) <= |buf| && h.size == (if end <= g.size then g.size else end)
    && forall p: nat :: p < CAPACITY ==> h.bytes[p] == if off <= p < end then buf[base + (p - off)] else g.bytes[p]
  }

  lemma ReadMeans(e: Errno, g: File, off: nat, n: nat, base: nat, buf: seq<Byte>, buf': seq<Byte>)
    requires |g.bytes| == CAPACITY
    requires var want := Readable(g.size, off, n);
      var m := Reachable(off, want);
      && (e == OK ==> m == want) && (g.size <= off ==> e == OK)
      && (e != OK ==> e == EINVAL && CAPACITY <= off + m && (m < want || want == 0))
      && base + m <= |buf| && buf' == if m == 0 then buf else Splice(buf, base, g.bytes[off..off + m])
    ensures ReadAs(e, g, off, n, off + Reachable(off, Readable(g.size, off, n)), base, buf, buf')
  {
    var m := Reachable(off, Readable(g.size, off, n));
    if m > 0 { SpliceAt(buf, base, g.bytes[off..off + m]); }
    hide Splice;
  }

  lemma WriteMeans(fs: map<nat, File>, f: nat, off: nat, end: nat, base: nat, buf: seq<Byte>)
    requires f in fs && |fs[f].bytes| == CAPACITY && off <= end < WORD && base + (end - off) <= |buf|
    requires off < end ==> end <= CAPACITY
    ensures WroteAs(fs[f], AfterWrite(fs, f, off, buf[base..base + (end - off)])[f], off, end, base, buf)
  {
    if end <= CAPACITY { SpliceAt(fs[f].bytes, off, buf[base..base + (end - off)]); }
    hide Splice;
  }

  /** The files after `data` has been written at `off` of `f`. The size moves up to the
      end of the data even when that lies past the block map and `data` is empty. */
  function AfterWrite(fs: map<nat, File>, f: nat, off: nat, data: seq<Byte>): map<nat, File>
    requires f in fs && off + |data| < WORD
  {
    var g := fs[f];
    var end := off + |data|;
    fs[f := File(if end <= |g.bytes| then Splice(g.bytes, off, data) else g.bytes,
                 if g.size < end then end else g.size, g.typ, g.links)]
  }

  /** Two transfers in sequence, the first complete and the second not empty. */
  lemma IoResultTwice(e: Errno, rw: Rw, f: nat, off: nat, n: nat, m: nat, end: nat, v: Vol, u: Vol, w: Vol)
    requires IoResult(OK, rw, f, off, n, off + n, v, u) && IoResult(e, rw, f, off + n, m, end, u, w)
    requires 0 < m && if n == 0 then u == v else (off + n) % BLOCKSIZE == 0
    ensures IoResult(e, rw, f, off, n + m, end, v, w)
  {
    hide Target, DataRef, Full;
  }

  /** Changing the size afterwards does not matter. */
  lemma IoResultThen(e: Errno, f: nat, off: nat, n: nat, end: nat, v: Vol, u: Vol, w: Vol, files: set<nat>)
    requires IoResult(e, Write, f, off, n, end, v, u) && f in files && w.used == u.used
    requires forall r: Ref :: r.ino in files ==> Target(w, r) == Target(u, r)
    ensures IoResult(e, Write, f, off, n, end, v, w)
  {
    hide Target;
  }

  /** Moving the bytes and then the size is the write. */
  lemma GrownWrite(f: nat, off: nat, end: Word, base: nat, fs: map<nat, File>, fs1: map<nat, File>,
                   buf: seq<Byte>, buf': seq<Byte>)
    requires f in fs && |fs[f].bytes| == CAPACITY && off <= end && base + (end - off) <= |buf|
    requires Progress(Write, f, off, end - off, base, fs, fs1, buf, buf')
    ensures buf' == buf && (off < end ==> end <= CAPACITY) && f in fs1
    ensures fs1[f := Grown(fs1[f], end)] == AfterWrite(fs, f, off, buf[base..base + (end - off)])
  {
    if off <= CAPACITY {
      if off == end { SpliceNone(fs[f].bytes, off); }
    }
    hide Splice;
  }

  lemma IoResultCut(e: Errno, rw: Rw, f: nat, off: nat, n: nat, m: nat, end: nat, v: Vol, w: Vol)
    requires IoResult(e, rw, f, off, n, end, v, w) && e != OK && n <= m
    ensures IoResult(e, rw, f, off, m, end, v, w)
  {
    hide Target, DataRef, Full;
  }

  lemma ReadKeeps(e: Errno, f: nat, off: nat, n: nat, end: nat, v: Vol, w: Vol)
    requires IoResult(e, Read, f, off, n, end, v, w)
    ensures w == v
  {
  }

  lemma ReadOutcome(e: Errno, f: nat, off: nat, want: nat, end: nat, base: nat,
                    fs: map<nat, File>, fs': map<nat, File>, buf: seq<Byte>, buf': seq<Byte>, v: Vol, w: Vol)
    requires IoResult(e, Read, f, off, want, end, v, w) && f in fs && |fs[f].bytes| == CAPACITY && base <= |buf|
    requires Progress(Read, f, off, end - off, base, fs, fs', buf, buf')
    ensures var m := Reachable(off, want);
      && end == off + m && base + m <= |buf|
      && (e == OK ==> m == want)
      && (e != OK ==> e == EINVAL && CAPACITY <= off + m && (m < want || want == 0))
      && buf' == if m == 0 then buf else Splice(buf, base, fs[f].bytes[off..off + m])
  {
    hide Target, DataRef, Full;
    SpliceNone(buf, base);
    if off <= CAPACITY {
      assert fs[f].bytes[off..off] == [];
    }
  }

  function Grown(g: File, end: Word): File {
    File(g.bytes, if g.size < end then end else g.size, g.typ, g.links)
  }

  predicate InOneBlock(off: nat, n: nat) { off % BLOCKSIZE + n <= BLOCKSIZE }

  lemma MappedBelow(v: Vol, f: nat, off: nat)
    requires Target(v, DataRef(f, off / BLOCKSIZE)) != 0
    ensures off < CAPACITY
  {
  }

  /** Everything that filling an empty place with a free block does and keeps. */
  lemma LinkedAll(v: Vol, files: set<nat>, owner: map<nat, Ref>, r: Ref, b: nat)
    requires Inv(v, files, owner) && Vacant(v, r) && b < |v.used| && !v.used[b]
    ensures 0 < b < |v.disk| && b < WORD
    ensures Inv(Linked(v, r, b), files, owner[b := r])
    ensures forall g: nat :: g in files ==> FileOf(Linked(v, r, b), g) == FileOf(v, g)
    ensures r.ino in files && Target(Linked(v, r, b), r) == b
    ensures r.EntryRef? ==> v.cache[r.ino].inode.indirect != b
    ensures forall q: Ref :: q.ino in files && q != r ==> Target(Linked(v, r, b), q) == Target(v, q)
  {
    FreeBit(v, files, owner, b);
    LinkedInv(v, files, owner, r, b);
    LinkedFiles(v, files, owner, r, b);
    forall q: Ref | q.ino in files
      ensures Target(Linked(v, r, b), q) == if q == r then b else Target(v, q)
    {
      LinkedTarget(v, files, owner, r, b, q);
    }
    assert Target(v, IndirectRef(r.ino)) == CurInode(v, r.ino).indirect;
  }

  /** The types sfs_loadvnode has operations for. */
  predicate KnownType(t: Half) { t == TYPE_FILE || t == TYPE_DIR }

  lemma TypeOnDisk(v: Vol, f: nat)
    requires f !in v.cache && f < |v.disk|
    ensures FileOf(v, f).typ == InodeOfBlock(v.disk[f]).typ
  {
  }

  /** Where the inodes are kept does not matter to the block map. */
  lemma SameInodes(v: Vol, w: Vol)
    requires w.disk == v.disk && forall f: nat :: CurInode(w, f) == CurInode(v, f)
    ensures forall r: Ref :: Target(w, r) == Target(v, r)
  {
    hide CurInode;
  }

  lemma IndirectOwned(v: Vol, files: set<nat>, owner: map<nat, Ref>, f: nat)
    requires Inv(v, files, owner) && f in v.cache && v.cache[f].inode.indirect != 0
    ensures v.cache[f].inode.indirect < v.nblocks == |v.disk| && !Meta(v, v.cache[f].inode.indirect)
  {
    CacheKnown(v, files, owner, f);
    assert Target(v, IndirectRef(f)) == v.cache[f].inode.indirect;
    NotMeta(v, files, owner, IndirectRef(f));
  }

  lemma InodeOwned(v: Vol, files: set<nat>, owner: map<nat, Ref>, f: nat)
    requires Inv(v, files, owner) && f in files
    ensures 0 < f < v.nblocks == |v.disk| && !Meta(v, f)
  {
    assert Target(v, InodeRef(f)) == f;
    NotMeta(v, files, owner, InodeRef(f));
  }

  class Mount {
    const nblocks: nat
    const freemap: BitMap
    var disk: seq<Block>
    var cache: map<nat, Vnode>
    const super: Block // sfs_super, which is never marked as changed
    var mapDirty: bool // sfs_freemapdirty
    var table: seq<nat> // sfs_vnodes, a vnode being named by its inode number
    ghost var files: set<nat>
    ghost var owner: map<nat, Ref>

    ghost function V(): Vol
      reads this, freemap.v
    {
      Vol(nblocks, disk, Bits(freemap.v[..]), cache)
    }

    ghost predicate Valid()
      reads this, freemap, freemap.v
    {
      && freemap.Valid() && Inv(V(), files, owner)
      && nblocks <= freemap.nbits && Lists(table, cache.Keys) && Stored()
    }

    /** The map in memory and the volume keep their sizes. */
    lemma Sizes()
      requires Valid()
      ensures |V().used| == 8 * freemap.v.Length && V().nblocks == nblocks
    {
    }

    /** What is on the device of the superblock and the free map. */
    ghost predicate Stored()
      reads this`disk, this`mapDirty, freemap.v
    {
      MetaStored(disk, super, nblocks, mapDirty, freemap.v[..])
    }

    /** The end of sfs_domount: load the free map. A consistent volume makes a valid mount. */
    constructor (dev: seq<Block>, ghost fs: set<nat>, ghost own: map<nat, Ref>)
      requires MAPSTART + BitBlocks(|dev|) <= |dev|
      ensures fresh(freemap) && fresh(freemap.v) && freemap.Valid()
      ensures V() == Image(dev) && files == fs && owner == own && table == [] && super == dev[0]
      ensures Inv(Image(dev), fs, own) ==> Valid()
    {
      nblocks, disk, cache, table, super, mapDirty := |dev|, dev, map[], [], dev[0], false;
      files, owner := fs, own;
      var mapsize := BitBlocks(|dev|);
      var fm := new BitMap(mapsize * BLOCKBITS);
      freemap := fm;
      new;
      hide MetaStored, Inv, Bits;
      LoadMap(dev, mapsize, fm.v);
    }

    /** The files of the volume as their users see them. */
    ghost function Files(): (m: map<nat, File>)
      reads this, freemap.v
      ensures m.Keys == files && forall f :: f in m ==> |m[f].bytes| == CAPACITY
    {
      FilesOf(V(), files)
    }

    lemma InMemory(f: nat)
      requires Valid() && f in cache
      ensures f in files && f < nblocks == |disk| && nblocks <= WORD
      ensures var g, i := Files()[f], cache[f].inode; g.size == i.size && g.typ == i.typ && g.links == i.links
    {
      CacheKnown(V(), files, owner, f);
    }

    /** sfs_balloc: the check that the block lies inside the volume never fails. */
    method Balloc() returns (e: Errno, b: nat)
      requires Valid()
      modifies this`disk, this`mapDirty, freemap.v
      ensures freemap.Valid() && Stored()
      ensures e == OK || (e == ENOSPC && V() == old(V()) && Full(V()))
      ensures e == OK ==>
        && b < |old(V()).used| && !old(V()).used[b] && b < |old(disk)|
        && V() == Allocated(old(V()), b)
    {
      b := 0;
      var r := freemap.Alloc();
      if r < 0 {
        return ENOSPC, 0;
      }
      b := r;
      mapDirty := true;
      FreeBit(old(V()), files, owner, b);
      assert b < nblocks;
      disk := disk[b := ZeroBlock()];
      e := OK;
    }

    /** sfs_bfree. */
    method Bfree(b: nat)
      requires freemap.Valid() && Stored() && b < freemap.nbits && V().used[b]
      modifies this`mapDirty, freemap.v
      ensures freemap.Valid() && Stored() && V() == Freed(old(V()), b)
    {
      hide MetaStored, Bits;
      freemap.Unmark(b);
      MetaMarked(disk, super, nblocks, mapDirty, old(freemap.v[..]), freemap.v[..]);
      mapDirty := true;
    }

    /** Allocate a block for the empty place `r` and record it there: the three
        places of sfs_bmap where a block number is stored. */
    method Fill(r: Ref) returns (e: Errno, b: nat)
      requires Valid() && Vacant(V(), r)
      modifies this`disk, this`cache, this`owner, this`mapDirty, freemap.v
      ensures Valid() && OnlyVnode(old(cache), cache, r.ino)
      ensures Files() == old(Files())
      ensures e == OK || (e == ENOSPC && V() == old(V()) && Full(V()))
      ensures e == OK ==> b == Target(V(), r) != 0
      ensures e == OK ==> forall q: Ref :: q.ino in files && q != r ==> Target(V(), q) == old(Target(V(), q))
    {
      hide Inv, FileOf, Target, Bits, Full, MetaStored;
      ghost var v := V();
      if r.EntryRef? { IndirectOwned(v, files, owner, r.ino); }
      e, b := Balloc();
      if e != OK { return; }
      LinkedAll(v, files, owner, r, b);
      owner := owner[b := r];
      var i := cache[r.ino].inode;
      match r {
        case DirectRef(f, k) =>
          cache := cache[f := Vnode(SetDirect(i, k, b), true, cache[f].refs)];
        case IndirectRef(f) =>
          cache := cache[f := Vnode(SetIndirect(i, b), true, cache[f].refs)];
        case EntryRef(f, j) =>
          MetaKept(disk, super, nblocks, mapDirty, freemap.v[..], i.indirect, SetWord(disk[i.indirect], j, b));
          disk := disk[i.indirect := SetWord(disk[i.indirect], j, b)];
      }
      assert V() == Linked(v, r, b);
    }

    /** sfs_bmap: the disk block of block `fileblock` of file `f`, allocating it if asked to.
        The check that the block found is marked in use never fails. */
    method Bmap(f: nat, fileblock: nat, doalloc: bool) returns (e: Errno, diskblock: nat)
      requires Valid() && f in cache
      modifies this`disk, this`cache, this`owner, this`mapDirty, freemap.v
      ensures Valid() && OnlyVnode(old(cache), cache, f)
      ensures Files() == old(Files())
      ensures e == EINVAL <==> MAXBLOCKS <= fileblock
      ensures e == OK ==> diskblock == Target(V(), DataRef(f, fileblock)) < nblocks
      ensures e == OK && doalloc ==> diskblock != 0
      ensures e == OK || e == EINVAL || (e == ENOSPC && doalloc && Full(V()))
      ensures !doalloc || e == EINVAL || old(Target(V(), DataRef(f, fileblock))) != 0 ==> V() == old(V()) && e != ENOSPC
      ensures OnlyFilled(old(V()), V(), files, f, fileblock * BLOCKSIZE, 0)
      ensures e == ENOSPC ==> Target(V(), DataRef(f, fileblock)) == 0
    {
      hide MetaStored, Inv, FileOf, Bits, Full, Target;
      if fileblock < NDIRECT {
        e, diskblock := BmapDirect(f, fileblock, doalloc);
        OnlyFilledOne(old(V()), V(), files, f, fileblock);
        return;
      }
      var idnum, idoff := (fileblock - NDIRECT) / DBPERIDB, (fileblock - NDIRECT) % DBPERIDB;
      if idnum > 0 {
        OnlyFilledSame(old(V()), V(), files, f, fileblock * BLOCKSIZE, 0);
        return EINVAL, 0;
      }
      e, diskblock := BmapIndirect(f, idoff, doalloc);
      OnlyFilledOne(old(V()), V(), files, f, fileblock);
    }

    method BmapDirect(f: nat, k: nat, doalloc: bool) returns (e: Errno, block: nat)
      requires Valid() && f in cache && k < NDIRECT
      modifies this`disk, this`cache, this`owner, this`mapDirty, freemap.v
      ensures Valid() && OnlyVnode(old(cache), cache, f)
      ensures Files() == old(Files())
      ensures e == OK ==> block == Target(V(), DirectRef(f, k)) < nblocks && (doalloc ==> block != 0)
      ensures e == OK || (e == ENOSPC && doalloc && Full(V()))
      ensures !doalloc || old(Target(V(), DirectRef(f, k))) != 0 ==> V() == old(V()) && e == OK
      ensures forall r: Ref :: r.ino in files && r != DirectRef(f, k) ==> Target(V(), r) == old(Target(V(), r))
      ensures e == ENOSPC ==> Target(V(), DirectRef(f, k)) == 0
    {
      hide MetaStored, Inv, FileOf, Bits, Full, Linked;
      CacheKnown(V(), files, owner, f);
      block := cache[f].inode.direct[k];
      if block == 0 && doalloc {
        e, block := Fill(DirectRef(f, k));
        if e != OK { return; }
      }
      RefInUse(V(), files, owner, DirectRef(f, k));
      return OK, block;
    }

    method BmapIndirect(f: nat, idoff: nat, doalloc: bool) returns (e: Errno, block: nat)
      requires Valid() && f in cache && idoff < DBPERIDB
      modifies this`disk, this`cache, this`owner, this`mapDirty, freemap.v
      ensures Valid() && OnlyVnode(old(cache), cache, f)
      ensures Files() == old(Files())
      ensures e == OK ==> block == Target(V(), EntryRef(f, idoff)) < nblocks && (doalloc ==> block != 0)
      ensures e == OK || (e == ENOSPC && doalloc && Full(V()))
      ensures !doalloc || old(Target(V(), EntryRef(f, idoff))) != 0 ==> V() == old(V()) && e == OK
      ensures forall r: Ref :: r.ino in files && r != IndirectRef(f) && r != EntryRef(f, idoff) ==>
        Target(V(), r) == old(Target(V(), r))
      ensures old(Target(V(), IndirectRef(f))) != 0 ==> Target(V(), IndirectRef(f)) == old(Target(V(), IndirectRef(f)))
      ensures e == ENOSPC ==> Target(V(), EntryRef(f, idoff)) == 0
    {
      hide MetaStored, Inv, FileOf, Bits, Full, Linked;
      CacheKnown(V(), files, owner, f);
      block := 0;
      var idblock := cache[f].inode.indirect;
      if idblock == 0 && !doalloc {
        return OK, 0;
      } else if idblock == 0 {
        e, idblock := Fill(IndirectRef(f));
        if e != OK { return; }
      }
      CacheKnown(V(), files, owner, f);
      RefInUse(V(), files, owner, IndirectRef(f));
      block := WordAt(disk[idblock], idoff);
      if block == 0 && doalloc {
        e, block := Fill(EntryRef(f, idoff));
        if e != OK { return; }
      }
      RefInUse(V(), files, owner, EntryRef(f, idoff));
      return OK, block;
    }

    /** sfs_partialio: part of one block, read in first even when writing. */
    method PartialIo(f: nat, uio: Uio, skip: nat, len: nat) returns (e: Errno)
      requires Valid() && f in cache && uio.Valid() && uio.buf != freemap.v
      requires skip + len <= BLOCKSIZE && len <= uio.resid && uio.offset % BLOCKSIZE == skip
      modifies this`disk, this`cache, this`owner, this`mapDirty, freemap.v, uio, uio.buf
      ensures Valid() && uio.Valid() && OnlyVnode(old(cache), cache, f) && f in files
      ensures IoResult(e, uio.rw, f, old(uio.offset), len, uio.offset, old(V()), V())
      ensures OnlyFilled(old(V()), V(), files, f, old(uio.offset), len)
      ensures var n := uio.offset - old(uio.offset);
        && uio.base == old(uio.base) + n && uio.len == old(uio.len) - n && uio.resid == old(uio.resid) - n
        && Progress(uio.rw, f, old(uio.offset), n, old(uio.base), old(Files()), Files(), old(uio.buf[..]), uio.buf[..])
    {
      hide MetaStored, Inv, FileOf, Bits, Full, Target, DataRef, Moved, OnlyFilled;
      CacheKnown(V(), files, owner, f);
      var fileblock := uio.offset / BLOCKSIZE;
      if Target(V(), DataRef(f, fileblock)) != 0 { MappedBelow(V(), f, uio.offset); }
      var diskblock;
      e, diskblock := Bmap(f, fileblock, uio.rw == Write);
      OnlyFilledMore(old(V()), V(), files, f, uio.offset, 0, len);
      if e != OK {
        ProgressStart(uio.rw, f, uio.offset, uio.base, Files(), uio.buf[..]);
        return;
      }
      ghost var u := V();
      Transfer(f, fileblock, diskblock, uio, skip, len);
      OnlyFilledThen(old(V()), u, V(), files, f, old(uio.offset), len);
    }

    /** The part of sfs_partialio after the block has been mapped. */
    method Transfer(f: nat, fileblock: nat, diskblock: nat, uio: Uio, skip: nat, len: nat)
      requires Valid() && f in files && uio.Valid() && uio.buf != freemap.v
      requires skip + len <= BLOCKSIZE && len <= uio.resid && fileblock < MAXBLOCKS
      requires uio.offset == fileblock * BLOCKSIZE + skip
      requires diskblock == Target(V(), DataRef(f, fileblock)) < nblocks
      requires uio.rw == Write ==> diskblock != 0
      modifies this`disk, uio, uio.buf
      ensures Valid() && uio.Valid()
      ensures forall r: Ref :: r.ino in files ==> Target(V(), r) == old(Target(V(), r))
      ensures uio.rw == Read ==> V() == old(V())
      ensures uio.base == old(uio.base) + len && uio.len == old(uio.len) - len
      ensures uio.resid == old(uio.resid) - len && uio.offset == old(uio.offset) + len
      ensures Moved(uio.rw, f, old(uio.offset), len, old(uio.base), old(Files()), Files(), old(uio.buf[..]),
        uio.buf[..])
    {
      hide MetaStored, Inv, FileOf, Bits, Full, Target, DataRef, Splice;
      ghost var v := V();
      DiskSize(v, files, owner);
      var blk := if diskblock == 0 then ZeroBlock() else disk[diskblock];
      var iobuf := new Byte[BLOCKSIZE](i requires 0 <= i < BLOCKSIZE => blk[i]);
      assert iobuf[..] == blk;
      ghost var data := uio.buf[uio.base..uio.base + len];
      if uio.rw == Write {
        WriteSpan(v, files, owner, f, fileblock, skip, data);
        uio.Move(iobuf, skip, len);
        NotMeta(v, files, owner, DataRef(f, fileblock));
        MetaKept(disk, super, nblocks, mapDirty, freemap.v[..], diskblock, iobuf[..]);
        disk := disk[diskblock := iobuf[..]];
        assert V() == WithBlock(v, diskblock, Splice(v.disk[diskblock], skip, data));
      } else {
        ReadSlice(v, f, fileblock, skip, len);
        uio.Move(iobuf, skip, len);
        assert iobuf[skip..skip + len] == blk[skip..skip + len];
      }
    }

    /** sfs_rwblock on a reliable device: transfer the sector at uio_offset. */
    method RwBlock(uio: Uio)
      requires uio.Valid() && uio.resid == BLOCKSIZE && uio.offset % BLOCKSIZE == 0
      requires uio.offset / BLOCKSIZE < |disk|
      modifies this`disk, uio, uio.buf
      ensures uio.Valid() && uio.base == old(uio.base) + BLOCKSIZE && uio.len == old(uio.len) - BLOCKSIZE
      ensures uio.resid == 0 && uio.offset == old(uio.offset) + BLOCKSIZE
      ensures var b := old(uio.offset) / BLOCKSIZE;
        var data := old(uio.buf[uio.base..uio.base + BLOCKSIZE]);
        if uio.rw == Read then disk == old(disk) && uio.buf[..] == Splice(old(uio.buf[..]), old(uio.base), disk[b])
        else uio.buf[..] == old(uio.buf[..]) && disk == old(disk)[b := data]
    {
      var b := uio.offset / BLOCKSIZE;
      var blk := disk[b];
      var sector := new Byte[BLOCKSIZE](i requires 0 <= i < BLOCKSIZE => blk[i]);
      assert sector[..] == blk;
      ghost var data := uio.buf[uio.base..uio.base + BLOCKSIZE];
      uio.Move(sector, 0, BLOCKSIZE);
      if uio.rw == Write {
        assert sector[..] == data;
        disk := disk[b := sector[..]];
      } else {
        assert sector[0..BLOCKSIZE] == blk;
      }
    }

    /** sfs_blockio: one whole block, straight between the device and the buffer, with the
        descriptor's offset and residue replaced for the device and restored afterwards. */
    method BlockIo(f: nat, uio: Uio) returns (e: Errno)
      requires Valid() && f in cache && uio.Valid() && uio.buf != freemap.v
      requires BLOCKSIZE <= uio.resid && uio.offset % BLOCKSIZE == 0
      modifies this`disk, this`cache, this`owner, this`mapDirty, freemap.v, uio, uio.buf
      ensures Valid() && uio.Valid() && OnlyVnode(old(cache), cache, f) && f in files
      ensures IoResult(e, uio.rw, f, old(uio.offset), BLOCKSIZE, uio.offset, old(V()), V())
      ensures OnlyFilled(old(V()), V(), files, f, old(uio.offset), BLOCKSIZE)
      ensures var n := uio.offset - old(uio.offset);
        && uio.base == old(uio.base) + n && uio.len == old(uio.len) - n && uio.resid == old(uio.resid) - n
        && Progress(uio.rw, f, old(uio.offset), n, old(uio.base), old(Files()), Files(), old(uio.buf[..]), uio.buf[..])
    {
      hide MetaStored, Inv, FileOf, Bits, Full, Target, DataRef, Moved, OnlyFilled;
      CacheKnown(V(), files, owner, f);
      var fileblock := uio.offset / BLOCKSIZE;
      if Target(V(), DataRef(f, fileblock)) != 0 { MappedBelow(V(), f, uio.offset); }
      var diskblock;
      e, diskblock := Bmap(f, fileblock, uio.rw == Write);
      OnlyFilledMore(old(V()), V(), files, f, uio.offset, 0, BLOCKSIZE);
      if e != OK {
        ProgressStart(uio.rw, f, uio.offset, uio.base, Files(), uio.buf[..]);
        return;
      }
      ghost var u := V();
      WholeBlock(f, fileblock, diskblock, uio);
      OnlyFilledThen(old(V()), u, V(), files, f, old(uio.offset), BLOCKSIZE);
    }

    /** The part of sfs_blockio after the block has been mapped. */
    method WholeBlock(f: nat, fileblock: nat, diskblock: nat, uio: Uio)
      requires Valid() && f in files && uio.Valid() && uio.buf != freemap.v
      requires BLOCKSIZE <= uio.resid && fileblock < MAXBLOCKS
      requires uio.offset == fileblock * BLOCKSIZE
      requires diskblock == Target(V(), DataRef(f, fileblock)) < nblocks
      requires uio.rw == Write ==> diskblock != 0
      modifies this`disk, uio, uio.buf
      ensures Valid() && uio.Valid()
      ensures forall r: Ref :: r.ino in files ==> Target(V(), r) == old(Target(V(), r))
      ensures uio.rw == Read ==> V() == old(V())
      ensures uio.base == old(uio.base) + BLOCKSIZE && uio.len == old(uio.len) - BLOCKSIZE
      ensures uio.resid == old(uio.resid) - BLOCKSIZE && uio.offset == old(uio.offset) + BLOCKSIZE
      ensures Moved(uio.rw, f, old(uio.offset), BLOCKSIZE, old(uio.base),
                    old(Files()), Files(), old(uio.buf[..]), uio.buf[..])
    {
      hide MetaStored, Inv, FileOf, Bits, Full, Target, DataRef, Splice;
      ghost var v := V();
      DiskSize(v, files, owner);
      ReadSpan(v, f, fileblock);
      if diskblock == 0 {
        uio.MoveZeros(BLOCKSIZE);
        assert ZeroBlock() == seq(BLOCKSIZE, _ => 0);
        return;
      }
      ghost var data := uio.buf[uio.base..uio.base + BLOCKSIZE];
      var saveoff, diskoff := uio.offset, diskblock * BLOCKSIZE;
      var saveres, diskres := uio.resid, BLOCKSIZE;
      uio.offset, uio.resid := diskoff, diskres;
      RwBlock(uio);
      uio.offset := (uio.offset - diskoff) + saveoff;
      uio.resid := (uio.resid - diskres) + saveres;
      if uio.rw == Write {
        WriteSpan(v, files, owner, f, fileblock, 0, data);
        NotMeta(v, files, owner, DataRef(f, fileblock));
        MetaKept(v.disk, super, nblocks, mapDirty, freemap.v[..], diskblock, data);
        SpliceAll(v.disk[diskblock], data);
        assert V() == WithBlock(v, diskblock, data);
      }
    }

    /** The body of sfs_io between the end-of-file check and the size update: a leading
        partial block, whole blocks, a trailing partial block. */
    method IoBlocks(f: nat, uio: Uio) returns (e: Errno)
      requires Valid() && f in cache && uio.Valid() && uio.buf != freemap.v
      modifies this`disk, this`cache, this`owner, this`mapDirty, freemap.v, uio, uio.buf
      ensures Valid() && uio.Valid() && OnlyVnode(old(cache), cache, f) && f in files
      ensures IoResult(e, uio.rw, f, old(uio.offset), old(uio.resid), uio.offset, old(V()), V())
      ensures OnlyFilled(old(V()), V(), files, f, old(uio.offset), old(uio.resid))
      ensures var m := uio.offset - old(uio.offset);
        && uio.base == old(uio.base) + m && uio.len == old(uio.len) - m && uio.resid == old(uio.resid) - m
        && Progress(uio.rw, f, old(uio.offset), m, old(uio.base), old(Files()), Files(), old(uio.buf[..]), uio.buf[..])
    {
      hide Valid, FileOf, Bits, Full, Target, DataRef, Progress, Files, InOneBlock, OnlyFilled, OnlyVnode;
      InMemory(f);
      ghost var c := cache;
      var len;
      e, len := Leading(f, uio);
      if e != OK {
        OnlyFilledMore(old(V()), V(), files, f, old(uio.offset), len, old(uio.resid));
        IoResultCut(e, uio.rw, f, old(uio.offset), len, old(uio.resid), uio.offset, old(V()), V());
        return;
      }
      if uio.resid == 0 {
        return;
      }
      OnlyVnodeIn(c, cache, f);
      ghost var c1, fs1, buf1, v1 := cache, Files(), uio.buf[..], V();
      e := IoAligned(f, uio);
      OnlyVnodeTwice(c, c1, cache, f);
      OnlyFilledTwice(old(V()), v1, V(), files, f, old(uio.offset), len, old(uio.resid) - len);
      IoResultTwice(e, uio.rw, f, old(uio.offset), len, old(uio.resid) - len, uio.offset, old(V()), v1, V());
      ProgressTwice(uio.rw, f, old(uio.offset), len, uio.offset - old(uio.offset) - len, old(uio.base),
                    old(Files()), fs1, Files(), old(uio.buf[..]), buf1, uio.buf[..]);
    }

    /** The leading partial block, when the offset is inside a block. */
    method Leading(f: nat, uio: Uio) returns (e: Errno, len: nat)
      requires Valid() && f in cache && uio.Valid() && uio.buf != freemap.v
      modifies this`disk, this`cache, this`owner, this`mapDirty, freemap.v, uio, uio.buf
      ensures Valid() && uio.Valid() && OnlyVnode(old(cache), cache, f) && f in files && len <= old(uio.resid)
      ensures IoResult(e, uio.rw, f, old(uio.offset), len, uio.offset, old(V()), V())
      ensures OnlyFilled(old(V()), V(), files, f, old(uio.offset), len)
      ensures e == OK && uio.resid > 0 ==> uio.offset % BLOCKSIZE == 0 && (len == 0 ==> V() == old(V()))
      ensures var m := uio.offset - old(uio.offset);
        && uio.base == old(uio.base) + m && uio.len == old(uio.len) - m && uio.resid == old(uio.resid) - m
        && Progress(uio.rw, f, old(uio.offset), m, old(uio.base), old(Files()), Files(), old(uio.buf[..]), uio.buf[..])
    {
      hide Valid, FileOf, Bits, Full, Target, DataRef, Progress, Files, OnlyFilled;
      InMemory(f);
      ProgressStart(uio.rw, f, uio.offset, uio.base, Files(), uio.buf[..]);
      OnlyFilledSame(V(), V(), files, f, uio.offset, 0);
      e, len := OK, 0;
      var blkoff := uio.offset % BLOCKSIZE;
      if blkoff != 0 {
        len := BLOCKSIZE - blkoff;
        if len > uio.resid { len := uio.resid; }
        e := PartialIo(f, uio, blkoff, len);
      }
    }

    method IoAligned(f: nat, uio: Uio) returns (e: Errno)
      requires Valid() && f in cache && uio.Valid() && uio.buf != freemap.v
      requires uio.offset % BLOCKSIZE == 0
      modifies this`disk, this`cache, this`owner, this`mapDirty, freemap.v, uio, uio.buf
      ensures Valid() && uio.Valid() && OnlyVnode(old(cache), cache, f) && f in files
      ensures IoResult(e, uio.rw, f, old(uio.offset), old(uio.resid), uio.offset, old(V()), V())
      ensures OnlyFilled(old(V()), V(), files, f, old(uio.offset), old(uio.resid))
      ensures var m := uio.offset - old(uio.offset);
        && uio.base == old(uio.base) + m && uio.len == old(uio.len) - m && uio.resid == old(uio.resid) - m
        && Progress(uio.rw, f, old(uio.offset), m, old(uio.base), old(Files()), Files(), old(uio.buf[..]), uio.buf[..])
    {
      hide Valid, FileOf, Bits, Full, Target, DataRef, Progress, Files, InOneBlock, OnlyFilled;
      InMemory(f);
      ghost var fs, buf, v := Files(), uio.buf[..], V();
      ghost var off, base := uio.offset, uio.base;
      ProgressStart(uio.rw, f, off, base, fs, buf);
      var n := uio.resid / BLOCKSIZE;
      e := IoWhole(f, uio, n);
      OnlyFilledMore(old(V()), V(), files, f, off, n * BLOCKSIZE, old(uio.resid));
      if e != OK {
        IoResultCut(e, uio.rw, f, off, n * BLOCKSIZE, old(uio.resid), uio.offset, old(V()), V());
        return;
      }
      if uio.resid > 0 {
        ghost var fs1, buf1, v1, m1 := Files(), uio.buf[..], V(), uio.offset - off;
        e := PartialIo(f, uio, 0, uio.resid);
        OnlyFilledTwice(old(V()), v1, V(), files, f, off, m1, old(uio.resid) - m1);
        IoResultTwice(e, uio.rw, f, off, m1, old(uio.resid) - m1, uio.offset, old(V()), v1, V());
        ProgressTwice(uio.rw, f, off, m1, uio.offset - off - m1, base, fs, fs1, Files(), buf, buf1, uio.buf[..]);
      }
    }

    /** The loop of sfs_io over `n` whole blocks. */
    method IoWhole(f: nat, uio: Uio, n: nat) returns (e: Errno)
      requires Valid() && f in cache && uio.Valid() && uio.buf != freemap.v
      requires uio.offset % BLOCKSIZE == 0 && n * BLOCKSIZE <= uio.resid
      modifies this`disk, this`cache, this`owner, this`mapDirty, freemap.v, uio, uio.buf
      ensures Valid() && uio.Valid() && OnlyVnode(old(cache), cache, f) && f in files
      ensures IoResult(e, uio.rw, f, old(uio.offset), n * BLOCKSIZE, uio.offset, old(V()), V())
      ensures OnlyFilled(old(V()), V(), files, f, old(uio.offset), n * BLOCKSIZE)
      ensures n == 0 ==> V() == old(V())
      ensures var m := uio.offset - old(uio.offset);
        && uio.base == old(uio.base) + m && uio.len == old(uio.len) - m && uio.resid == old(uio.resid) - m
        && Progress(uio.rw, f, old(uio.offset), m, old(uio.base), old(Files()), Files(), old(uio.buf[..]), uio.buf[..])
    {
      hide Valid, FileOf, Bits, Full, Target, DataRef, Progress, Files, OnlyFilled;
      InMemory(f);
      OnlyFilledSame(V(), V(), files, f, uio.offset, 0);
      ghost var fs, buf, v := Files(), uio.buf[..], V();
      ghost var off, base := uio.offset, uio.base;
      ProgressStart(uio.rw, f, off, base, fs, buf);
      if Target(V(), DataRef(f, uio.offset / BLOCKSIZE)) != 0 { MappedBelow(V(), f, uio.offset); }
      e := OK;
      var i := 0;
      while i < n
        invariant i <= n
        invariant Valid() && uio.Valid() && OnlyVnode(old(cache), cache, f) && f in files
        invariant uio.offset == off + i * BLOCKSIZE && uio.base == base + i * BLOCKSIZE
        invariant uio.len == old(uio.len) - i * BLOCKSIZE && uio.resid == old(uio.resid) - i * BLOCKSIZE
        invariant uio.rw == Read ==> V() == v
        invariant i == 0 ==> V() == v
        invariant OnlyFilled(v, V(), files, f, off, i * BLOCKSIZE)
        invariant Progress(uio.rw, f, off, i * BLOCKSIZE, base, fs, Files(), buf, uio.buf[..])
      {
        ghost var fs1, buf1, v1 := Files(), uio.buf[..], V();
        e := BlockIo(f, uio);
        OnlyFilledTwice(v, v1, V(), files, f, off, i * BLOCKSIZE, BLOCKSIZE);
        ProgressTwice(uio.rw, f, off, i * BLOCKSIZE, uio.offset - off - i * BLOCKSIZE, base,
                      fs, fs1, Files(), buf, buf1, uio.buf[..]);
        if e != OK {
          OnlyFilledMore(v, V(), files, f, off, i * BLOCKSIZE + BLOCKSIZE, n * BLOCKSIZE);
          return;
        }
        i := i + 1;
      }
      e := OK;
    }

    /** sfs_io, reading: exactly the bytes before the end of file arrive, holes as zeros,
        unless the block map ends first. */
    method ReadIo(f: nat, uio: Uio) returns (e: Errno)
      requires Valid() && f in cache && uio.Valid() && uio.buf != freemap.v && uio.rw == Read
      modifies this`disk, this`cache, this`owner, this`mapDirty, freemap.v, uio, uio.buf
      ensures Valid() && uio.Valid() && V() == old(V()) && f in files
      ensures var off := old(uio.offset);
        var want := Readable(old(Files())[f].size, off, old(uio.resid));
        var m := Reachable(off, want);
        && (e == OK ==> m == want)
        && (e != OK ==> e == EINVAL && CAPACITY <= off + m && (m < want || want == 0))
        && uio.base == old(uio.base) + m && uio.len == old(uio.len) - m
        && uio.offset == off + m && uio.resid == old(uio.resid) - m
        && uio.buf[..] == if m == 0 then old(uio.buf[..])
                          else Splice(old(uio.buf[..]), old(uio.base), old(Files())[f].bytes[off..off + m])
      ensures ReadAs(e, old(Files())[f], old(uio.offset), old(uio.resid), uio.offset, old(uio.base),
                     old(uio.buf[..]), uio.buf[..])
    {
      hide Valid, Bits, FileOf, Files, Splice, ReadAs;
      InMemory(f);
      var size := cache[f].inode.size;
      var extraresid := 0;
      var endpos := uio.offset + uio.resid;
      if uio.offset >= size {
        ReadMeans(OK, Files()[f], uio.offset, uio.resid, uio.base, uio.buf[..], uio.buf[..]);
        return OK;
      }
      if endpos > size {
        extraresid := endpos - size;
        uio.resid := uio.resid - extraresid;
      }
      e := ReadBlocks(f, uio);
      uio.resid := uio.resid + extraresid;
      ReadMeans(e, old(Files())[f], old(uio.offset), old(uio.resid), old(uio.base), old(uio.buf[..]), uio.buf[..]);
    }

    method ReadBlocks(f: nat, uio: Uio) returns (e: Errno)
      requires Valid() && f in cache && uio.Valid() && uio.buf != freemap.v && uio.rw == Read
      modifies this`disk, this`cache, this`owner, this`mapDirty, freemap.v, uio, uio.buf
      ensures Valid() && uio.Valid() && V() == old(V()) && f in files
      ensures var off, want := old(uio.offset), old(uio.resid);
        var m := Reachable(off, want);
        && (e == OK ==> m == want)
        && (e != OK ==> e == EINVAL && CAPACITY <= off + m && (m < want || want == 0))
        && uio.base == old(uio.base) + m && uio.len == old(uio.len) - m
        && uio.offset == off + m && uio.resid == old(uio.resid) - m
        && uio.buf[..] == if m == 0 then old(uio.buf[..])
                          else Splice(old(uio.buf[..]), old(uio.base), old(Files())[f].bytes[off..off + m])
    {
      hide Valid, FileOf, Bits, Full, Target, DataRef, Files, IoResult, Progress;
      InMemory(f);
      e := IoBlocks(f, uio);
      ReadKeeps(e, f, old(uio.offset), old(uio.resid), uio.offset, old(V()), V());
      ReadOutcome(e, f, old(uio.offset), old(uio.resid), uio.offset, old(uio.base), old(Files()), Files(),
                  old(uio.buf[..]), uio.buf[..], old(V()), V());
    }

    /** sfs_io, writing: exactly the bytes counted by the advance of uio_offset are written,
        and no other file changes. */
    method WriteIo(f: nat, uio: Uio) returns (e: Errno)
      requires Valid() && f in cache && uio.Valid() && uio.buf != freemap.v && uio.rw == Write
      requires uio.offset + uio.resid < WORD
      modifies this`disk, this`cache, this`owner, this`mapDirty, freemap.v, uio, uio.buf
      ensures Valid() && uio.Valid() && OnlyVnode(old(cache), cache, f) && f in files
      ensures IoResult(e, Write, f, old(uio.offset), old(uio.resid), uio.offset, old(V()), V())
      ensures OnlyFilled(old(V()), V(), files, f, old(uio.offset), old(uio.resid))
      ensures old(uio.offset) < uio.offset ==> uio.offset <= CAPACITY
      ensures var m := uio.offset - old(uio.offset);
        && uio.base == old(uio.base) + m && uio.len == old(uio.len) - m && uio.resid == old(uio.resid) - m
        && uio.buf[..] == old(uio.buf[..])
        && Files() == AfterWrite(old(Files()), f, old(uio.offset), old(uio.buf[uio.base..uio.base + m]))
      ensures WroteAs(old(Files())[f], Files()[f], old(uio.offset), uio.offset, old(uio.base), old(uio.buf[..]))
    {
      hide Valid, FileOf, Bits, Full, Target, DataRef, Files, Progress, AfterWrite, Grown, WroteAs, OnlyFilled, Splice;
      hide OnlyVnode;
      InMemory(f);
      ghost var c := cache;
      e := IoBlocks(f, uio);
      OnlyVnodeIn(c, cache, f);
      ghost var c1, fs1, u := cache, Files(), V();
      GrowTo(f, uio.offset);
      OnlyVnodeTwice(c, c1, cache, f);
      OnlyFilledThen(old(V()), u, V(), files, f, old(uio.offset), old(uio.resid));
      IoResultThen(e, f, old(uio.offset), old(uio.resid), uio.offset, old(V()), u, V(), files);
      GrownWrite(f, old(uio.offset), uio.offset, old(uio.base), old(Files()), fs1, old(uio.buf[..]), uio.buf[..]);
      WriteMeans(old(Files()), f, old(uio.offset), uio.offset, old(uio.base), old(uio.buf[..]));
    }

    method GrowTo(f: nat, end: Word)
      requires Valid() && f in cache && f in files
      modifies this`cache
      ensures Valid() && OnlyVnode(old(cache), cache, f) && V().used == old(V().used)
      ensures forall r: Ref :: r.ino in files ==> Target(V(), r) == old(Target(V(), r))
      ensures Files() == old(Files())[f := Grown(old(Files())[f], end)]
    {
      hide MetaStored, Inv, Bits, Target, DataRef, Lists;
      var i := cache[f].inode;
      if i.size < end {
        ghost var v := V();
        var i' := Inode(end, i.typ, i.links, i.direct, i.indirect);
        TouchedInv(v, files, owner, f, i');
        assert FileOf(v, f).size == i.size && FileOf(v, f).typ == i.typ && FileOf(v, f).links == i.links;
        cache := cache[f := Vnode(i', true, cache[f].refs)];
        assert V() == WithInode(v, f, i') && cache.Keys == old(cache.Keys);
      }
    }

    /** Store a link count and mark the inode dirty. */
    method SetLinks(f: nat, n: Half)
      requires Valid() && f in cache
      modifies this`cache
      ensures Valid() && OnlyVnode(old(cache), cache, f) && f in files && cache[f].inode.links == n
      ensures var g := old(Files())[f]; Files() == old(Files())[f := File(g.bytes, g.size, g.typ, n)]
    {
      hide MetaStored, Inv, Bits, Target, DataRef, Lists, FileOf;
      InMemory(f);
      var i := cache[f].inode;
      ghost var v := V();
      var i' := Inode(i.size, i.typ, n, i.direct, i.indirect);
      TouchedInv(v, files, owner, f, i');
      cache := cache[f := Vnode(i', true, cache[f].refs)];
      assert V() == WithInode(v, f, i') && cache.Keys == old(cache.Keys);
    }

    // -------------------------------------------------------------- truncation

    /** sfs_bfree and the clearing of the direct or indirect pointer that held the block. */
    method Release(r: Ref, b: nat)
      requires Valid() && Filled(V(), r, b) && (r.DirectRef? || (r.IndirectRef? && NoEntries(V(), r.ino)))
      modifies this`cache, this`owner, this`mapDirty, freemap.v
      ensures Valid() && OnlyVnode(old(cache), cache, r.ino)
      ensures Unlinkable(old(V()), r, b) && V() == Unlinked(old(V()), r, b)
    {
      hide MetaStored, Inv, Target, FileOf, Bits, NoEntries, Lists;
      ghost var v := V();
      FilledInRange(v, files, owner, r, b);
      RefInUse(v, files, owner, r);
      UnlinkedInv(v, files, owner, r, b);
      Bfree(b);
      owner := owner - {b};
      var i := cache[r.ino].inode;
      match r {
        case DirectRef(f, k) => cache := cache[f := Vnode(SetDirect(i, k, 0), true, cache[f].refs)];
        case IndirectRef(f) => cache := cache[f := Vnode(SetIndirect(i, 0), true, cache[f].refs)];
      }
      assert V() == Unlinked(v, r, b) && cache.Keys == old(cache.Keys);
    }

    method CutDirect(f: nat, blocklen: nat)
      requires Valid() && f in cache
      modifies this`cache, this`owner, this`mapDirty, freemap.v
      ensures Valid() && OnlyVnode(old(cache), cache, f) && f in files
      ensures CutTo(old(V()), V(), files, f, blocklen, NDIRECT)
      ensures cache[f].inode.indirect == old(cache[f].inode.indirect)
    {
      hide Valid, Target, FileOf, Bits, CutTo;
      InMemory(f);
      CutToNone(V(), files, f, blocklen);
      for i := 0 to NDIRECT
        invariant Valid() && OnlyVnode(old(cache), cache, f)
        invariant CutTo(old(V()), V(), files, f, blocklen, i)
        invariant cache[f].inode.indirect == old(cache[f].inode.indirect)
      {
        var block := cache[f].inode.direct[i];
        ghost var v := V();
        DirectTarget(v, f, i);
        if i >= blocklen && block != 0 {
          InvOf();
          CutToStep(old(V()), v, files, owner, f, blocklen, i, block);
          Release(DirectRef(f, i), block);
        } else {
          CutToSkip(old(V()), v, files, f, blocklen, i);
        }
      }
    }

    /** The loop of sfs_truncate over the entries of the indirect block, in a buffer; the
        free map is updated at once, the block itself later. */
    method CutEntries(f: nat, blocklen: nat, idblock: nat, ghost v0: Vol)
      returns (idbuf: Block, hasnonzero: bool, iddirty: bool)
      requires Valid() && f in cache && idblock == cache[f].inode.indirect != 0
      requires CutTo(v0, V(), files, f, blocklen, NDIRECT)
      modifies this`owner, this`mapDirty, freemap.v
      ensures freemap.Valid() && Stored() && Pending(idblock, idbuf)
      ensures CutTo(v0, WithBlock(V(), idblock, idbuf), files, f, blocklen, MAXBLOCKS)
      ensures !hasnonzero ==> forall j: nat :: j < DBPERIDB ==> WordAt(idbuf, j) == 0
      ensures hasnonzero ==> exists j: nat :: j < DBPERIDB && WordAt(idbuf, j) != 0
      ensures !iddirty ==> idbuf == disk[idblock]
    {
      hide MetaStored, Inv, Target, FileOf, Bits, CutTo, Lists;
      InMemory(f);
      RefInUse(V(), files, owner, IndirectRef(f));
      IndirectTarget(V(), f);
      idbuf, hasnonzero, iddirty := disk[idblock], false, false;
      SameBlock(V(), idblock);
      for j := 0 to DBPERIDB
        invariant freemap.Valid() && Stored() && Pending(idblock, idbuf)
        invariant CutTo(v0, WithBlock(V(), idblock, idbuf), files, f, blocklen, NDIRECT + j)
        invariant !hasnonzero ==> forall k: nat :: k < j ==> WordAt(idbuf, k) == 0
        invariant hasnonzero ==> exists k: nat :: k < j && WordAt(idbuf, k) != 0
        invariant !iddirty ==> idbuf == disk[idblock]
      {
        var block := WordAt(idbuf, j);
        ghost var u := WithBlock(V(), idblock, idbuf);
        ghost var r := EntryRef(f, j);
        EntryTarget(u, f, j, idblock);
        if blocklen < NDIRECT + j && block != 0 {
          CutToStep(v0, u, files, owner, f, blocklen, NDIRECT + j, block);
          FilledInRange(u, files, owner, r, block);
          RefInUse(u, files, owner, r);
          UnlinkedInv(u, files, owner, r, block);
          Bfree(block);
          owner := owner - {block};
          idbuf := SetWord(idbuf, j, 0);
          iddirty := true;
          assert WithBlock(V(), idblock, idbuf) == Unlinked(u, r, block);
        } else {
          CutToSkip(v0, u, files, f, blocklen, NDIRECT + j);
        }
        if WordAt(idbuf, j) != 0 { hasnonzero := true; }
      }
    }

    /** sfs_truncate on the indirect block: cut its entries, then free it, write it back or
        leave it alone. */
    method CutIndirect(f: nat, blocklen: nat, ghost v0: Vol)
      requires Valid() && f in cache && f in files
      requires CutTo(v0, V(), files, f, blocklen, NDIRECT)
      modifies this`disk, this`cache, this`owner, this`mapDirty, freemap.v
      ensures Valid() && OnlyVnode(old(cache), cache, f)
      ensures CutTo(v0, V(), files, f, blocklen, MAXBLOCKS)
      ensures blocklen < MAXBLOCKS - 1 && NoEntries(V(), f) ==> cache[f].inode.indirect == 0
    {
      hide MetaStored, Inv, Target, FileOf, Bits, CutTo, Lists;
      var idblock := cache[f].inode.indirect;
      if blocklen < MAXBLOCKS - 1 && idblock != 0 {
        var idbuf, hasnonzero, iddirty := CutEntries(f, blocklen, idblock, v0);
        if !hasnonzero {
          DropIndirectBlock(f, blocklen, idblock, idbuf, v0);
        } else {
          ghost var j: nat :| j < DBPERIDB && WordAt(idbuf, j) != 0;
          if iddirty {
            IndirectOwned(WithBlock(V(), idblock, idbuf), files, owner, f);
            MetaKept(disk, super, nblocks, mapDirty, freemap.v[..], idblock, idbuf);
            disk := disk[idblock := idbuf];
          } else {
            SameBlock(V(), idblock);
          }
          assert V() == WithBlock(V(), idblock, idbuf);
          DiskSize(V(), files, owner);
          EntryTarget(V(), f, j, idblock);
        }
      } else {
        forall k: nat | NDIRECT <= k < MAXBLOCKS && Released(blocklen, k)
          ensures Target(V(), DataRef(f, k)) == 0
        {
          NoIndirect(V(), f, k);
        }
        CutToRest(v0, V(), files, f, blocklen, NDIRECT, MAXBLOCKS);
      }
    }

    method DropIndirectBlock(f: nat, blocklen: nat, idblock: nat, idbuf: Block, ghost v0: Vol)
      requires freemap.Valid() && nblocks <= freemap.nbits && Lists(table, cache.Keys) && Stored() && f in cache
      requires idblock == cache[f].inode.indirect != 0 && Pending(idblock, idbuf)
      requires CutTo(v0, WithBlock(V(), idblock, idbuf), files, f, blocklen, MAXBLOCKS)
      requires forall j: nat :: j < DBPERIDB ==> WordAt(idbuf, j) == 0
      modifies this`cache, this`owner, this`mapDirty, freemap.v
      ensures Valid() && OnlyVnode(old(cache), cache, f) && cache[f].inode.indirect == 0
      ensures CutTo(v0, V(), files, f, blocklen, MAXBLOCKS)
    {
      hide MetaStored, Inv, Target, FileOf, Bits, CutTo, Lists;
      ghost var u := WithBlock(V(), idblock, idbuf);
      ghost var r := IndirectRef(f);
      AllZero(V(), f, idblock, idbuf);
      DropIndirect(u, files, owner, f, idblock);
      RefInUse(u, files, owner, r);
      UnlinkedInv(u, files, owner, r, idblock);
      Bfree(idblock);
      owner := owner - {idblock};
      var i := cache[f].inode;
      cache := cache[f := Vnode(SetIndirect(i, 0), true, cache[f].refs)];
      ghost var w := Unlinked(u, r, idblock);
      DiskSize(w, files, owner);
      WriteFreeBlock(w, files, owner, idblock, disk[idblock]);
      WriteBlockTargets(w, files, owner, idblock, disk[idblock]);
      Overwritten(old(V()), V(), f, idblock, idbuf);
      CutToSame(v0, u, V(), files, f, blocklen, MAXBLOCKS);
      assert cache.Keys == old(cache.Keys);
    }

    /** sfs_truncate. It does not check that `len` is within reach of the block map. */
    method Truncate(f: nat, len: Word)
      requires Valid() && f in cache
      modifies this`disk, this`cache, this`owner, this`mapDirty, freemap.v
      ensures Valid() && OnlyVnode(old(cache), cache, f) && f in files
      ensures var bl := (len + BLOCKSIZE - 1) / BLOCKSIZE;
        && CutPlaces(old(V()), V(), files, f, bl, MAXBLOCKS)
        && Files() == old(Files())[f := Resized(old(Files())[f], bl, len)]
      ensures var g, h := old(Files())[f], Files()[f];
        && h.size == len && h.typ == g.typ && h.links == g.links
        && forall p: nat :: p < CAPACITY && p < len ==> h.bytes[p] == g.bytes[p]
      ensures forall k: nat :: k * BLOCKSIZE < len ==> Target(V(), DataRef(f, k)) == old(Target(V(), DataRef(f, k)))
      ensures len == 0 ==> NoBlocks(V(), f)
    {
      hide MetaStored, Inv, Target, FileOf, Bits, CutPlaces, Lists, NoBlocks, NoEntries;
      ghost var v := V();
      InMemory(f);
      var blocklen := (len + BLOCKSIZE - 1) / BLOCKSIZE;
      CutDirect(f, blocklen);
      CutIndirect(f, blocklen, v);
      ghost var u := V();
      var i := cache[f].inode;
      var i' := Inode(len, i.typ, i.links, i.direct, i.indirect);
      InMemory(f);
      TouchedInv(u, files, owner, f, i');
      cache := cache[f := Vnode(i', true, cache[f].refs)];
      assert V() == WithInode(u, f, i') && cache.Keys == old(cache.Keys);
      ResizedPlaces(v, u, files, f, blocklen, i');
      KeptPlaces(v, V(), files, f, len);
      KeptBytes(old(Files())[f], len);
      IndirectTarget(V(), f);
      if len == 0 {
        SameEntries(u, f, i');
        CutAll(v, V(), files, f);
      }
    }

    // -------------------------------------------------------------- vnodes in memory

    /** The search of sfs_loadvnode and sfs_reclaim through the table. The check that every
        inode found there lies in an allocated block never fails. */
    method Search(ino: nat) returns (ix: int)
      requires Valid()
      ensures if ino in cache then 0 <= ix < |table| && table[ix] == ino else ix == -1
    {
      hide MetaStored, Inv, FileOf, Bits, Target;
      var i := 0;
      while i < |table|
        invariant i <= |table| && ino !in table[..i]
      {
        InodeInUse(V(), files, owner, table[i]);
        assert V().used[table[i]];
        if table[i] == ino {
          return i;
        }
        i := i + 1;
      }
      return -1;
    }

    /** sfs_loadvnode of an existing file: found in the table or read from its block; `mem` says
        whether there is memory for a new vnode. The checks that every inode lies in an
        allocated block never fail; the type found on disk has to be that of a file or a
        directory. */
    method LoadVnode(ino: nat, mem: bool) returns (e: Errno)
      requires Valid() && ino in files && (ino in cache || KnownType(Files()[ino].typ))
      modifies this`cache, this`table
      ensures e == if mem || ino in old(cache) then OK else ENOMEM
      ensures Valid() && Files() == old(Files()) && V().disk == old(V().disk) && V().used == old(V().used)
      ensures e != OK ==> cache == old(cache) && table == old(table)
      ensures e == OK ==>
        && cache.Keys == old(cache.Keys) + {ino} && KeepsOthers(old(cache), cache, ino)
        && cache[ino].refs == (if ino in old(cache) then old(cache[ino].refs) else 0) + 1
        && forall r: Ref :: Target(V(), r) == old(Target(V(), r))
    {
      hide MetaStored, Inv, FileOf, Bits, Target, InodeOfBlock, Lists;
      AddListed(table, cache.Keys, ino);
      var ix := Search(ino);
      ghost var v := V();
      if ix >= 0 {
        WithRefsInv(v, files, owner, ino, cache[ino].refs + 1);
        cache := cache[ino := Vnode(cache[ino].inode, cache[ino].dirty, cache[ino].refs + 1)];
        assert V() == WithRefs(v, ino, v.cache[ino].refs + 1) && cache.Keys == old(cache.Keys);
        SameInodes(v, V());
        return OK;
      }
      if !mem { return ENOMEM; }
      InodeInUse(v, files, owner, ino);
      LoadedInv(v, files, owner, ino);
      var i := InodeOfBlock(disk[ino]);
      TypeOnDisk(v, ino);
      assert KnownType(i.typ);
      cache := cache[ino := Vnode(i, false, 1)];
      table := table + [ino];
      assert V() == Loaded(v, ino) && cache.Keys == old(cache.Keys) + {ino};
      SameInodes(v, V());
      e := OK;
    }

    /** sfs_makeobj: a block for the inode, then a vnode of the given type for it; `mem` says
        whether there is memory for the vnode. Without it the block is not given back. */
    method MakeObj(t: Half, mem: bool) returns (e: Errno, ino: nat)
      requires Valid() && KnownType(t)
      modifies this`disk, this`cache, this`table, this`files, this`owner, this`mapDirty, freemap.v
      ensures e != ENOMEM ==> Valid()
      ensures e == OK || e == ENOMEM ||
        (e == ENOSPC && V() == old(V()) && Full(V()) && files == old(files) && table == old(table))
      ensures if mem then e != ENOMEM else e != OK
      ensures e == ENOMEM ==>
        files == old(files) && cache == old(cache) && table == old(table) && Files() == old(Files())
      ensures e == ENOMEM && DirInv(old(Files()), cache.Keys) ==>
        forall gs, own :: !(Inv(V(), gs, own) && DirInv(FilesOf(V(), gs), cache.Keys))
      ensures e == OK ==>
        && ino !in old(files) && ino != 0 && files == old(files) + {ino}
        && Files() == old(Files())[ino := File(seq(CAPACITY, _ => 0), 0, t, 0)]
        && cache == old(cache)[ino := Vnode(NewInode(t), true, 1)]
        && FreeBlocks(V()) == FreeBlocks(old(V())) - {ino}
    {
      hide MetaStored, Inv, FileOf, Bits, Target, Full;
      ghost var v := V();
      e, ino := Balloc();
      if e != OK { return; }
      if !mem {
        AllocatedSame(v, files, owner, ino);
        forall gs, own | DirInv(FilesOf(v, files), v.cache.Keys)
          ensures !(Inv(V(), gs, own) && DirInv(FilesOf(V(), gs), cache.Keys))
        {
          Leaked(v, files, owner, ino, gs, own);
        }
        return ENOMEM, 0;
      }
      NewVnode(ino, t, v);
    }

    /** sfs_loadvnode of a block that has just been cleared for a new object. */
    method NewVnode(ino: nat, t: Half, ghost v: Vol)
      requires freemap.Valid() && nblocks <= freemap.nbits && Lists(table, cache.Keys) && Stored() && KnownType(t)
      requires Inv(v, files, owner) && ino < |v.used| && !v.used[ino] && ino < |v.disk| && V() == Allocated(v, ino)
      modifies this`cache, this`table, this`files, this`owner
      ensures Valid() && ino !in old(files) && ino != 0 && files == old(files) + {ino}
      ensures Files() == FilesOf(v, old(files))[ino := File(seq(CAPACITY, _ => 0), 0, t, 0)]
      ensures cache == old(cache)[ino := Vnode(NewInode(t), true, 1)] && V().used == old(V().used)
    {
      hide MetaStored, Inv, FileOf, Bits, Target, Full, InodeOfBlock;
      CreatedInv(v, files, owner, ino, t);
      CreatedFiles(v, files, owner, ino, t);
      NotCached(v, files, owner, ino);
      ZeroInode();
      var i := InodeOfBlock(disk[ino]);
      assert i.typ == TYPE_INVAL;
      cache := cache[ino := Vnode(Inode(i.size, t, i.links, i.direct, i.indirect), true, 1)];
      table := table + [ino];
      files, owner := files + {ino}, owner[ino := InodeRef(ino)];
      assert V() == Created(v, ino, t);
    }

    /** VOP_DECREF: drop a reference, reclaiming the vnode with the last one. */
    method Decref(f: nat)
      requires Valid() && f in cache && cache[f].refs > 0
      modifies this`disk, this`cache, this`table, this`files, this`owner, this`mapDirty, freemap.v
      ensures Valid() && KeepsOthers(old(cache), cache, f)
      ensures old(cache[f].refs) > 1 ==>
        f in cache && cache[f].refs == old(cache[f].refs) - 1 && files == old(files) && Files() == old(Files())
      ensures old(cache[f].refs) == 1 ==>
        && f !in cache
        && (old(cache[f].inode.links) > 0 ==> files == old(files) && Files() == old(Files()))
        && (old(cache[f].inode.links) == 0 ==> files == old(files) - {f} && Files() == old(Files()) - {f})
    {
      hide MetaStored, Inv, FileOf, Bits, Target;
      if cache[f].refs > 1 {
        ghost var v := V();
        WithRefsInv(v, files, owner, f, cache[f].refs - 1);
        cache := cache[f := Vnode(cache[f].inode, cache[f].dirty, cache[f].refs - 1)];
        assert V() == WithRefs(v, f, v.cache[f].refs - 1) && cache.Keys == old(cache.Keys);
      } else {
        Reclaim(f);
      }
    }

    /** sfs_sync_inode */
    method SyncInode(f: nat)
      requires Valid() && f in cache
      modifies this`disk, this`cache
      ensures Valid() && KeepsOthers(old(cache), cache, f) && f in cache && Files() == old(Files())
      ensures cache[f] == Vnode(old(cache[f].inode), false, old(cache[f].refs))
      ensures V().used == old(V().used) && forall r: Ref :: r.ino in files ==> Target(V(), r) == old(Target(V(), r))
    {
      hide MetaStored, Inv, FileOf, Bits, Target;
      InMemory(f);
      if cache[f].dirty {
        ghost var v := V();
        SyncedInv(v, files, owner, f);
        SyncedTargets(v, files, owner, f);
        InodeOwned(v, files, owner, f);
        MetaKept(disk, super, nblocks, mapDirty, freemap.v[..], f, BlockOfInode(cache[f].inode));
        disk := disk[f := BlockOfInode(cache[f].inode)];
        cache := cache[f := Vnode(cache[f].inode, false, cache[f].refs)];
        assert V() == Synced(v, f) && cache.Keys == old(cache.Keys);
      }
    }

    /** sfs_reclaim: a file without links gives back every block it owns. */
    method Reclaim(f: nat)
      requires Valid() && f in cache
      modifies this`disk, this`cache, this`table, this`files, this`owner, this`mapDirty, freemap.v
      ensures Valid() && f !in cache && KeepsOthers(old(cache), cache, f)
      ensures old(cache[f].inode.links) > 0 ==>
        files == old(files) && Files() == old(Files()) && V().used == old(V().used)
      ensures old(cache[f].inode.links) == 0 ==>
        && files == old(files) - {f} && Files() == old(Files()) - {f}
        && |V().used| == |old(V().used)|
        && forall b: nat :: b < |V().used| ==>
             (V().used[b] <==> old(V().used[b]) && !(b in old(owner) && old(owner)[b].ino == f))
    {
      hide Valid, Files, V;
      if cache[f].inode.links == 0 {
        Discard(f);
      } else {
        SyncInode(f);
        Forget(f);
      }
    }

    method Discard(f: nat)
      requires Valid() && f in cache && cache[f].inode.links == 0
      modifies this`disk, this`cache, this`table, this`files, this`owner, this`mapDirty, freemap.v
      ensures Valid() && f !in cache && KeepsOthers(old(cache), cache, f)
      ensures files == old(files) - {f} && Files() == old(Files()) - {f}
      ensures |V().used| == |old(V().used)|
      ensures forall b: nat :: b < |V().used| ==>
        (V().used[b] <==> old(V().used[b]) && !(b in old(owner) && old(owner)[b].ino == f))
    {
      hide Valid, Files, Bits, Target, NoBlocks, CutPlaces, OthersKept, Inv;
      ghost var v, files0, owner0 := V(), files, owner;
      InvOf();
      ClearAndSync(f);
      ghost var u := V();
      Erase(f);
      InvOf();
      KeptTwice(v, u, V(), files0, f);
      AllReturned(v, V(), files0, owner0, owner, f);
    }

    method ClearAndSync(f: nat)
      requires Valid() && f in cache && cache[f].inode.links == 0
      modifies this`disk, this`cache, this`owner, this`mapDirty, freemap.v
      ensures Valid() && f in cache && f in files && KeepsOthers(old(cache), cache, f)
      ensures NoBlocks(V(), f) && Files() - {f} == old(Files()) - {f}
      ensures OthersKept(old(V()), V(), files, f) && |V().used| == |old(V().used)|
    {
      hide Valid, FileOf, FilesOf, Bits, Target, CutPlaces, OthersKept, NoBlocks;
      ghost var v := V();
      Truncate(f, 0);
      CutKeepsOthers(v, V(), files, f, 0);
      ghost var u := V();
      SyncInode(f);
      SyncedKeeps(v, u, V(), files, f);
    }

    /** The tail of sfs_reclaim for a file without links. */
    method Erase(f: nat)
      requires Valid() && f in cache && NoBlocks(V(), f)
      modifies this`cache, this`table, this`files, this`owner, this`mapDirty, freemap.v
      ensures Valid() && cache == old(cache) - {f} && files == old(files) - {f}
      ensures Files() == old(Files()) - {f}
      ensures OthersKept(old(V()), V(), old(files), f) && |V().used| == |old(V().used)|
    {
      hide MetaStored, Inv, FileOf, Bits, Target, NoBlocks;
      ghost var v := V();
      InodeInUse(v, files, owner, f);
      ErasedInv(v, files, owner, f);
      ErasedFiles(v, f);
      ErasedTargets(v, f);
      Bfree(f);
      RemoveVnode(f);
      files, owner := files - {f}, owner - {f};
      assert V() == Erased(v, f);
    }

    /** The tail of sfs_reclaim for a file that keeps a link. */
    method Forget(f: nat)
      requires Valid() && f in cache && !cache[f].dirty
      modifies this`cache, this`table
      ensures Valid() && cache == old(cache) - {f} && Files() == old(Files()) && V().used == old(V().used)
    {
      hide MetaStored, Inv, FileOf, Bits, Target;
      ghost var v := V();
      DroppedInv(v, files, owner, f);
      RemoveVnode(f);
      assert V() == Dropped(v, f);
    }

    /** Take the vnode out of the table; the check that it is there never fails. */
    method RemoveVnode(f: nat)
      requires Lists(table, cache.Keys) && f in cache
      modifies this`cache, this`table
      ensures Lists(table, cache.Keys) && cache == old(cache) - {f}
    {
      var ix := 0;
      while table[ix] != f
        invariant 0 <= ix < |table| && f in table[ix..]
        decreases |table| - ix
      {
        ix := ix + 1;
      }
      table := table[..ix] + table[ix + 1..];
      cache := cache - {f};
    }

    // -------------------------------------------------------------- synchronization

    /** The volume that a later mount would find on the device, with all the files that there
        are. */
    ghost predicate Settled()
      reads this, freemap.v
    {
      && MAPSTART + BitBlocks(|disk|) <= |disk| == nblocks && disk[0] == super
      && Inv(Image(disk), files, owner) && FilesOf(Image(disk), files) == Files()
    }

    /** The loop of sfs_sync over the vnodes in memory. */
    method SyncVnodes()
      requires Valid()
      modifies this`disk, this`cache
      ensures Valid() && Files() == old(Files()) && V().used == old(V().used)
      ensures cache.Keys == old(cache.Keys)
      ensures forall f :: f in cache ==> cache[f] == Vnode(old(cache[f].inode), false, old(cache[f].refs))
    {
      hide Valid, Bits, Target, Files, FileOf;
      var i := 0;
      TableOf();
      while i < |table|
        invariant i <= |table| && Valid() && Files() == old(Files()) && V().used == old(V().used)
        invariant cache.Keys == old(cache.Keys)
        invariant forall f :: f in cache ==>
          cache[f].inode == old(cache[f].inode) && cache[f].refs == old(cache[f].refs)
        invariant forall k: nat :: k < i ==> table[k] in cache && !cache[table[k]].dirty
      {
        assert table[i] in table;
        TableOf();
        SyncInode(table[i]);
        assert cache.Keys == old(cache.Keys);
        i := i + 1;
      }
      TableOf();
      forall f | f in cache
        ensures !cache[f].dirty
      {
        assert f in table;
        var k: nat :| k < |table| && table[k] == f;
      }
    }

    lemma TableOf()
      requires Valid()
      ensures forall f :: f in table <==> f in cache
    {
      hide Inv;
    }

    /** sfs_mapio, writing. */
    method StoreMap()
      requires Valid()
      modifies this`disk, this`mapDirty
      ensures Valid() && !mapDirty && Files() == old(Files()) && V().used == old(V().used)
    {
      hide Inv, Bits, Target, FileOf;
      var mapsize := BitBlocks(nblocks);
      DiskSize(V(), files, owner);
      var j := 0;
      while j < mapsize
        invariant j <= mapsize && |disk| == nblocks && Inv(V(), files, owner) && Files() == old(Files())
        invariant disk[0] == super && MapBytes(disk, j) == freemap.v[..j * BLOCKSIZE]
        modifies this`disk
      {
        ghost var was := disk;
        var blk: Block := freemap.v[j * BLOCKSIZE..(j + 1) * BLOCKSIZE];
        WriteMeta(V(), files, owner, MAPSTART + j, blk);
        disk := disk[MAPSTART + j := blk];
        assert V() == WithBlock(Vol(nblocks, was, Bits(freemap.v[..]), cache), MAPSTART + j, blk);
        SamePrefix(was, disk, j);
        assert freemap.v[..(j + 1) * BLOCKSIZE] == freemap.v[..j * BLOCKSIZE] + blk;
        j := j + 1;
      }
      assert freemap.v[..] == freemap.v[..mapsize * BLOCKSIZE];
      mapDirty := false;
    }

    /** sfs_sync: the device then holds the whole volume, whatever is in memory. */
    method Sync()
      requires Valid()
      modifies this`disk, this`cache, this`mapDirty
      ensures Valid() && !mapDirty && Settled() && Files() == old(Files()) && V().used == old(V().used)
      ensures cache.Keys == old(cache.Keys)
      ensures forall f :: f in cache ==> cache[f] == Vnode(old(cache[f].inode), false, old(cache[f].refs))
    {
      hide Valid, Bits, Target, Files, FileOf;
      SyncVnodes();
      if mapDirty {
        StoreMap();
      }
      assert Settled() by { AllWritten(); }
    }

    lemma AllWritten()
      requires Valid() && !mapDirty && forall f :: f in cache ==> !cache[f].dirty
      ensures Settled()
    {
      hide Inv, Bits, Target, FileOf;
      DiskSize(V(), files, owner);
      UnloadedInv(V(), files, owner);
      assert Image(disk) == Unloaded(V());
    }

    /** vfs_unmount: sfs_sync and then sfs_unmount, whose assertions about the dirty flags never
        fail. */
    method Unmount() returns (e: Errno)
      requires Valid()
      modifies this`disk, this`cache, this`mapDirty
      ensures Valid() && Settled() && Files() == old(Files()) && cache.Keys == old(cache.Keys)
      ensures e == if old(cache) == map[] then OK else EBUSY
    {
      hide Valid, Bits, Target, Files, FileOf, Settled;
      Sync();
      TableOf();
      if |table| > 0 {
        assert table[0] in cache;
        return EBUSY;
      }
      assert !mapDirty;
      assert cache.Keys == {};
      e := OK;
    }

    /** The invariant holds of the volume as it will be once `idbuf` has been written. */
    ghost predicate Pending(idblock: nat, idbuf: Block)
      reads this, freemap.v
    {
      idblock < |disk| && Inv(WithBlock(V(), idblock, idbuf), files, owner)
    }

    lemma InvOf()
      requires Valid()
      ensures Inv(V(), files, owner)
    {
    }
  }

  /** A file after a truncation to `len` bytes, `bl` blocks. */
  function Resized(g: File, bl: nat, len: Word): File {
    File(Cut(g.bytes, bl, MAXBLOCKS), len, g.typ, g.links)
  }

  /** What lies before the new end of a truncated file keeps its blocks ... */
  lemma KeptPlaces(v: Vol, w: Vol, files: set<nat>, f: nat, len: nat)
    requires CutPlaces(v, w, files, f, (len + BLOCKSIZE - 1) / BLOCKSIZE, MAXBLOCKS) && f in files
    ensures forall k: nat :: k * BLOCKSIZE < len ==> Target(w, DataRef(f, k)) == Target(v, DataRef(f, k))
  {
    hide Target;
    forall k: nat | k * BLOCKSIZE < len
      ensures Target(w, DataRef(f, k)) == Target(v, DataRef(f, k))
    {
      assert BlockIndex(DataRef(f, k)) == k;
    }
  }

  /** ... and its bytes. */
  lemma KeptBytes(g: File, len: Word)
    ensures var h := Resized(g, (len + BLOCKSIZE - 1) / BLOCKSIZE, len);
      && |h.bytes| == |g.bytes| && forall p: nat :: p < |g.bytes| && p < len ==> h.bytes[p] == g.bytes[p]
  {
  }

  lemma ResizedPlaces(v: Vol, u: Vol, files: set<nat>, f: nat, bl: nat, i: Inode)
    requires CutPlaces(v, u, files, f, bl, MAXBLOCKS) && f in u.cache
    requires i.direct == u.cache[f].inode.direct && i.indirect == u.cache[f].inode.indirect
    ensures CutPlaces(v, WithInode(u, f, i), files, f, bl, MAXBLOCKS)
  {
    assert forall r: Ref :: Target(WithInode(u, f, i), r) == Target(u, r);
  }

  lemma SameEntries(u: Vol, f: nat, i: Inode)
    requires f in u.cache && i.indirect == u.cache[f].inode.indirect
    ensures NoEntries(WithInode(u, f, i), f) <==> NoEntries(u, f)
  {
    assert forall j: nat :: Target(WithInode(u, f, i), EntryRef(f, j)) == Target(u, EntryRef(f, j));
  }

  lemma InodeInUse(v: Vol, files: set<nat>, owner: map<nat, Ref>, f: nat)
    requires Inv(v, files, owner) && (f in files || f in v.cache)
    ensures f in files && 0 < f < v.nblocks == |v.disk| && v.nblocks <= |v.used| && v.used[f]
  {
    assert Target(v, InodeRef(f)) == f;
  }

  lemma NotCached(v: Vol, files: set<nat>, owner: map<nat, Ref>, f: nat)
    requires Inv(v, files, owner) && f !in files
    ensures f !in v.cache
  {
  }

  lemma KeptTwice(v: Vol, u: Vol, w: Vol, files: set<nat>, f: nat)
    requires OthersKept(v, u, files, f) && OthersKept(u, w, files, f)
    ensures OthersKept(v, w, files, f)
  {
  }

  lemma SyncedKeeps(v: Vol, u: Vol, w: Vol, files: set<nat>, f: nat)
    requires OthersKept(v, u, files, f) && NoBlocks(u, f) && f in files
    requires forall r: Ref :: r.ino in files ==> Target(w, r) == Target(u, r)
    ensures OthersKept(v, w, files, f) && NoBlocks(w, f)
  {
    hide Target;
  }

  lemma CutKeepsOthers(v: Vol, w: Vol, files: set<nat>, f: nat, bl: nat)
    requires CutPlaces(v, w, files, f, bl, MAXBLOCKS)
    ensures OthersKept(v, w, files, f)
  {
  }

  lemma IndirectTarget(v: Vol, f: nat)
    requires f in v.cache
    ensures Target(v, IndirectRef(f)) == v.cache[f].inode.indirect
  {
  }

  lemma SameBlock(v: Vol, b: nat)
    requires b < |v.disk|
    ensures WithBlock(v, b, v.disk[b]) == v
  {
  }

  lemma EntryTarget(v: Vol, f: nat, j: nat, id: nat)
    requires j < DBPERIDB && f in v.cache && v.cache[f].inode.indirect == id && 0 < id < |v.disk|
    ensures DataRef(f, NDIRECT + j) == EntryRef(f, j) && Target(v, EntryRef(f, j)) == WordAt(v.disk[id], j)
  {
  }

  lemma NoIndirect(v: Vol, f: nat, k: nat)
    requires f in v.cache && NDIRECT <= k && v.cache[f].inode.indirect == 0
    ensures Target(v, DataRef(f, k)) == 0
  {
  }

  lemma AllZero(v: Vol, f: nat, id: nat, idbuf: Block)
    requires f in v.cache && v.cache[f].inode.indirect == id && 0 < id < |v.disk|
    requires forall j: nat :: j < DBPERIDB ==> WordAt(idbuf, j) == 0
    ensures var u := WithBlock(v, id, idbuf); NoEntries(u, f) && Filled(u, IndirectRef(f), id)
  {
  }

  /** The buffered indirect block never reached the disk. */
  lemma Overwritten(v: Vol, w: Vol, f: nat, id: nat, idbuf: Block)
    requires id < |v.disk| && id < |v.used| && f in v.cache
    requires w == WithInode(Freed(v, id), f, SetIndirect(v.cache[f].inode, 0))
    ensures var u := WithBlock(v, id, idbuf);
      Unlinkable(u, IndirectRef(f), id) && w == WithBlock(Unlinked(u, IndirectRef(f), id), id, v.disk[id])
  {
    assert v.disk[id := idbuf][id := v.disk[id]] == v.disk;
  }

  lemma CutToSame(v: Vol, u: Vol, w: Vol, files: set<nat>, f: nat, bl: nat, n: nat)
    requires CutTo(v, u, files, f, bl, n)
    requires forall r: Ref :: r.ino in files && r != IndirectRef(f) ==> Target(w, r) == Target(u, r)
    requires forall g: nat :: g in files ==> FileOf(w, g) == FileOf(u, g)
    ensures CutTo(v, w, files, f, bl, n)
  {
    hide Target, FileOf;
  }

  lemma DirectTarget(v: Vol, f: nat, i: nat)
    requires i < NDIRECT && f in v.cache
    ensures DataRef(f, i) == DirectRef(f, i) && Target(v, DirectRef(f, i)) == v.cache[f].inode.direct[i]
  {
  }

  // ---------------------------------------------------------------- mounting

  const MAGIC: Word := 0xabad_f001

  /** sfs_domount: a superblock with the wrong magic number is refused; otherwise as many blocks
      as it says are mounted. */
  method DoMount(dev: seq<Block>, ghost fs: set<nat>, ghost own: map<nat, Ref>) returns (e: Errno, s: Mount?)
    requires dev != []
    requires WordAt(dev[0], 0) == MAGIC ==> var n := WordAt(dev[0], 1); MAPSTART + BitBlocks(n) <= n <= |dev|
    ensures e == if WordAt(dev[0], 0) == MAGIC then OK else EINVAL
    ensures s != null <==> e == OK
    ensures s != null ==>
      && fresh(s) && fresh(s.freemap) && fresh(s.freemap.v) && s.files == fs && s.owner == own && s.table == []
      && s.super == dev[0]
      && s.V() == Image(dev[..WordAt(dev[0], 1)])
      && (Inv(s.V(), fs, own) ==> s.Valid())
  {
    hide Inv, Bits, WordAt;
    if WordAt(dev[0], 0) != MAGIC {
      return EINVAL, null;
    }
    s := new Mount(dev[..WordAt(dev[0], 1)], fs, own);
    e := OK;
  }
}
