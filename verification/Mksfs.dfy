/** Making a file system: src/sbin/mksfs/mksfs.c. The result is a consistent volume
    with an empty root directory, whatever was on the device before. */
module Mksfs {
  import opened Basics
  import opened Codec
  import opened Volume
  import opened Bitmap
  import opened Sfs
  import opened Directory

  const MAXBITBLOCKS: nat := 32

  /** doallocbit, whose assertion demands that the bit is clear. */
  method DoAllocBit(bitbuf: array<Byte>, bit: nat)
    requires bit < 8 * bitbuf.Length && !Bits(bitbuf[..])[bit]
    modifies bitbuf
    ensures Bits(bitbuf[..]) == old(Bits(bitbuf[..]))[bit := true]
  {
    var byte := bit / 8;
    BitsSet(bitbuf[..], byte, bit % 8);
    ghost var was := bitbuf[..];
    bitbuf[byte] := SetBit(bitbuf[byte], bit % 8);
    assert bitbuf[..] == was[byte := SetBit(was[byte], bit % 8)];
  }

  /** The bits mksfs sets on a device of `n` blocks: the superblock, the root inode, the
      free map itself and everything past the end. */
  predicate Reserved(n: nat, b: nat) {
    b == 0 || b == ROOT || MAPSTART <= b < MAPSTART + BitBlocks(n) || n <= b
  }

  /** writebitmap up to the point where the buffer is written out. */
  method FillBitmap(bitbuf: array<Byte>, fsblocks: nat)
    requires bitbuf.Length == MAXBITBLOCKS * BLOCKSIZE && BitBlocks(fsblocks) <= MAXBITBLOCKS
    requires MAPSTART + BitBlocks(fsblocks) <= fsblocks
    requires forall b: nat :: b < 8 * bitbuf.Length ==> !Bits(bitbuf[..])[b]
    modifies bitbuf
    ensures forall b: nat :: b < BitBlocks(fsblocks) * BLOCKBITS ==> (Bits(bitbuf[..])[b] <==> Reserved(fsblocks, b))
  {
    hide Bits;
    var nbits, nblocks := BitBlocks(fsblocks) * BLOCKBITS, BitBlocks(fsblocks);
    DoAllocBit(bitbuf, 0);
    DoAllocBit(bitbuf, ROOT);
    for i := 0 to nblocks
      invariant forall b: nat :: b < 8 * bitbuf.Length ==>
        (Bits(bitbuf[..])[b] <==> b == 0 || b == ROOT || MAPSTART <= b < MAPSTART + i)
    {
      DoAllocBit(bitbuf, MAPSTART + i);
    }
    for i := fsblocks to nbits
      invariant forall b: nat :: b < 8 * bitbuf.Length ==>
        (Bits(bitbuf[..])[b] <==> b == 0 || b == ROOT || MAPSTART <= b < MAPSTART + nblocks || fsblocks <= b < i)
    {
      DoAllocBit(bitbuf, i);
    }
  }

  /** The inode writerootdir stores. */
  function RootInode(): Inode {
    Inode(0, TYPE_DIR, 1, seq(15, _ => 0), 0)
  }

  /** The end of writebitmap: the buffer goes to the blocks of the free map. */
  method WriteMap(dev: seq<Block>, bitbuf: array<Byte>, nblocks: nat) returns (img: seq<Block>)
    requires bitbuf.Length == MAXBITBLOCKS * BLOCKSIZE && nblocks <= MAXBITBLOCKS && MAPSTART + nblocks <= |dev|
    ensures |img| == |dev| && MapBytes(img, nblocks) == bitbuf[..nblocks * BLOCKSIZE]
    ensures forall b: nat :: b < |img| && !(MAPSTART <= b < MAPSTART + nblocks) ==> img[b] == dev[b]
  {
    img := dev;
    for i := 0 to nblocks
      invariant |img| == |dev|
      invariant MapBytes(img, i) == bitbuf[..i * BLOCKSIZE]
      invariant forall b: nat :: b < |img| && !(MAPSTART <= b < MAPSTART + i) ==> img[b] == dev[b]
    {
      ghost var was := img;
      img := img[MAPSTART + i := bitbuf[i * BLOCKSIZE..(i + 1) * BLOCKSIZE]];
      SamePrefix(was, img, i);
      assert bitbuf[..(i + 1) * BLOCKSIZE] == bitbuf[..i * BLOCKSIZE] + bitbuf[i * BLOCKSIZE..(i + 1) * BLOCKSIZE];
    }
  }

  const VOLNAMESIZE: nat := 32

  /** The block writesuper stores. */
  function SuperBlock(name: Name, n: Word): (b: Block)
    requires |name| < VOLNAMESIZE
    ensures WordAt(b, 0) == MAGIC && WordAt(b, 1) == n
  {
    SetWord(SetWord(NameBlock(name), 0, MAGIC), 1, n)
  }

  function NameBlock(name: Name): Block
    requires |name| < VOLNAMESIZE
  {
    Zeros(8) + name + Zeros(BLOCKSIZE - 8 - |name|)
  }

  /** The volume name that sfs_getvolname finds in a superblock. */
  function VolName(b: Block): Name {
    CStr(b[8..8 + VOLNAMESIZE])
  }

  lemma NameRoundTrip(name: Name, n: Word)
    requires |name| < VOLNAMESIZE
    ensures VolName(SuperBlock(name, n)) == name
    ensures var b := SuperBlock(name, n); b[8..8 + |name|] == name && b[8 + |name|] == 0
  {
    var s := NameBlock(name);
    var t := SetWord(s, 0, MAGIC);
    assert t[8..] == s[8..];
    var b := SetWord(t, 1, n);
    assert b[8..] == t[8..];
    assert b[8..8 + VOLNAMESIZE] == b[8..][..VOLNAMESIZE];
    assert s[8..][..VOLNAMESIZE] == name + Zeros(VOLNAMESIZE - |name|);
    assert b[8..8 + |name|] == b[8..8 + VOLNAMESIZE][..|name|];
    assert b[8 + |name|] == b[8..8 + VOLNAMESIZE][|name|];
    CStrPadded(name, VOLNAMESIZE - |name|);
  }

  /** mksfs on a device that is large enough: it gives up when the volume name is too long or
      the free map does not fit the buffer. */
  method Format(dev: seq<Block>, name: Name) returns (ok: bool, img: seq<Block>)
    requires MAPSTART + BitBlocks(|dev|) <= |dev| < WORD
    ensures ok <==> |name| < VOLNAMESIZE && BitBlocks(|dev|) <= MAXBITBLOCKS
    ensures |img| == |dev| && forall b: nat :: b < |img| && !Reserved(|dev|, b) ==> img[b] == dev[b]
    ensures ok ==>
      && WordAt(img[0], 0) == MAGIC && WordAt(img[0], 1) == |dev| && VolName(img[0]) == name
      && Inv(Image(img), {ROOT}, map[ROOT := InodeRef(ROOT)])
      && DirInv(FilesOf(Image(img), {ROOT}), {})
      && NamesOf(FilesOf(Image(img), {ROOT})) == map[]
      && |FreeBlocks(Image(img))| == |dev| - MAPSTART - BitBlocks(|dev|)
  {
    hide Inv, DirInv, NamesOf, FilesOf, BlockOfInode, InodeOfBlock, SuperBlock, VolName, WordAt, FreeBlocks;
    img := dev;
    if |name| >= VOLNAMESIZE { return false, img; }
    NameRoundTrip(name, |dev|);
    var sfi := RootInode();
    InodeRoundTrip(sfi);
    img := dev[0 := SuperBlock(name, |dev|)][ROOT := BlockOfInode(sfi)];
    if BitBlocks(|dev|) > MAXBITBLOCKS { return false, img; }
    var bitbuf := new Byte[MAXBITBLOCKS * BLOCKSIZE](_ => 0);
    NoBits(bitbuf[..]);
    hide Bits;
    FillBitmap(bitbuf, |dev|);
    img := WriteMap(img, bitbuf, BitBlocks(|dev|));
    SomeBits(bitbuf[..], BitBlocks(|dev|) * BLOCKSIZE);
    ghost var v := Image(img);
    assert |v.used| == BitBlocks(|dev|) * BLOCKBITS;
    FreshVolume(v);
    FreshDirectory(v);
    FreshRoom(v);
    ok := true;
  }

  lemma NoBits(v: seq<Byte>)
    requires forall i: nat :: i < |v| ==> v[i] == 0
    ensures forall b: nat :: b < 8 * |v| ==> !Bits(v)[b]
  {
    forall k: nat | k < 8 { ZeroBits(k); }
  }

  lemma SomeBits(v: seq<Byte>, n: nat)
    requires n <= |v|
    ensures forall b: nat :: b < 8 * n ==> Bits(v[..n])[b] == Bits(v)[b]
  {
  }

  lemma FreshRoot(v: Vol)
    requires ROOT < |v.disk| && v.cache == map[] && InodeOfBlock(v.disk[ROOT]) == RootInode()
    ensures CurInode(v, ROOT) == RootInode()
    ensures forall r: Ref :: r.ino == ROOT ==> Target(v, r) == if r.InodeRef? then ROOT else 0
  {
    hide InodeOfBlock;
  }

  /** With only the reserved bits set, the root inode is the one owner. */
  lemma FreshVolume(v: Vol)
    requires Shape(v) && v.cache == map[] && InodeOfBlock(v.disk[ROOT]) == RootInode()
    requires forall b: nat :: b < |v.used| ==> (v.used[b] <==> Reserved(v.nblocks, b))
    ensures Inv(v, {ROOT}, map[ROOT := InodeRef(ROOT)])
  {
    FreshRoot(v);
    hide Target, InodeOfBlock;
  }

  /** Everything behind the free map is free. */
  lemma FreshRoom(v: Vol)
    requires v.nblocks <= |v.used| && MAPSTART + BitBlocks(v.nblocks) <= v.nblocks
    requires forall b: nat :: b < |v.used| ==> (v.used[b] <==> Reserved(v.nblocks, b))
    ensures |FreeBlocks(v)| == v.nblocks - MAPSTART - BitBlocks(v.nblocks)
  {
    var lo := MAPSTART + BitBlocks(v.nblocks);
    assert FreeBlocks(v) == Between(lo, v.nblocks);
  }

  function Between(lo: nat, hi: nat): (s: set<nat>)
    requires lo <= hi
    ensures |s| == hi - lo && forall b: nat :: b in s <==> lo <= b < hi
  {
    if lo == hi then {} else Between(lo, hi - 1) + {hi - 1}
  }

  lemma FreshDirectory(v: Vol)
    requires ROOT < |v.disk| && v.cache == map[] && InodeOfBlock(v.disk[ROOT]) == RootInode()
    ensures DirInv(FilesOf(v, {ROOT}), {})
    ensures NamesOf(FilesOf(v, {ROOT})) == map[]
  {
    FreshRoot(v);
    hide Target, InodeOfBlock, FileBytes, CurInode;
    var fs := FilesOf(v, {ROOT});
    assert fs[ROOT] == FileOf(v, ROOT);
    hide FilesOf, FileOf;
    assert SlotsOf(fs) == [];
  }
}
