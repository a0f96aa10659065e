/** A truncation by src/kern/fs/sfs/sfs_vnode.c that does not release every block past the new
    end, on a consistent volume and through the operations on it. */
module TruncateRun {
  import opened Basics
  import opened Codec
  import opened Volume
  import opened Bitmap
  import opened Sfs
  import opened Directory
  import opened SfsDir
  import opened Mksfs
  import opened Sessions

  /** The root directory, with block 6 as its only block. */
  function RootOfOne(): Inode {
    Inode(64, TYPE_DIR, 1, [6, 0, 0, 0, 0, 0, 0, 0, 0, 0, 0, 0, 0, 0, 0], 0)
  }

  /** An inode whose only block is block 15, through indirect block 4. */
  function SixteenBlocks(): Inode {
    Inode(8192, TYPE_FILE, 1, [0, 0, 0, 0, 0, 0, 0, 0, 0, 0, 0, 0, 0, 0, 0], 4)
  }

  /** The entry that names the file. */
  function Entry(): Slot { Slot(3, [97]) }

  /** Superblock, root inode, free map, the inode of a file of sixteen blocks, its indirect block
      and its last block, all the others being holes, and the block of the root directory. */
  ghost predicate HoldsSixteen(v: Vol) {
    && v.nblocks == 7 && |v.disk| == 7 && v.cache == map[] && |v.used| == BLOCKBITS
    && (forall b: nat :: b < |v.used| ==> v.used[b])
    && InodeOfBlock(v.disk[ROOT]) == RootOfOne() && InodeOfBlock(v.disk[3]) == SixteenBlocks()
    && (forall j: nat :: j < DBPERIDB ==> WordAt(v.disk[4], j) == if j == 0 then 5 else 0)
    && DecodeSlot(v.disk[6][..DIRSIZE]) == Entry()
  }

  function Owners(): map<nat, Ref> {
    map[ROOT := InodeRef(ROOT), 3 := InodeRef(3), 4 := IndirectRef(3), 5 := EntryRef(3, 0), 6 := DirectRef(ROOT, 0)]
  }

  lemma SixteenPlaces(v: Vol)
    requires HoldsSixteen(v)
    ensures CurInode(v, ROOT) == RootOfOne() && CurInode(v, 3) == SixteenBlocks()
    ensures Placed(v)
  {
    hide InodeOfBlock;
    assert forall j: nat :: IndirectEntry(v, 4, j) == if j == 0 then 5 else 0;
    assert forall j: nat :: IndirectEntry(v, 0, j) == 0;
  }

  /** Which place holds which block. */
  ghost predicate Placed(v: Vol) {
    && (forall r: Ref :: r.ino == ROOT ==>
          Target(v, r) == if r == InodeRef(ROOT) then ROOT else if r == DirectRef(ROOT, 0) then 6 else 0)
    && (forall r: Ref :: r.ino == 3 ==>
          Target(v, r) == if r == InodeRef(3) then 3 else if r == IndirectRef(3) then 4
                          else if r == EntryRef(3, 0) then 5 else 0)
  }

  lemma SixteenOwned(v: Vol, files: set<nat>, own: map<nat, Ref>)
    requires Placed(v) && v.nblocks == 7 && files == {ROOT, 3} && own == Owners()
    ensures Owned(v, files, own) && Sound(v, files, own)
  {
    hide Target;
  }

  lemma SixteenMarked(v: Vol, own: map<nat, Ref>)
    requires v.nblocks == 7 && own == Owners() && forall b: nat :: b < |v.used| ==> v.used[b]
    ensures Exact(v, own)
  {
  }

  lemma SixteenInv(v: Vol, files: set<nat>, own: map<nat, Ref>)
    requires HoldsSixteen(v) && files == {ROOT, 3} && own == Owners()
    ensures Inv(v, files, own) && Target(v, DataRef(3, 15)) == 5
  {
    hide Target, InodeOfBlock, Owned, Sound, Exact, Owners;
    SixteenPlaces(v);
    SixteenOwned(v, files, own);
    SixteenMarked(v, own);
  }

  /** The directory names the file, and it is the only one. */
  lemma SixteenNamed(v: Vol)
    requires HoldsSixteen(v)
    ensures var m := FilesOf(v, {ROOT, 3});
      DirInv(m, {}) && NamesOf(m) == map[[97] := 3] && m[3].size == 16 * BLOCKSIZE
  {
    SixteenPlaces(v);
    var m := FilesOf(v, {ROOT, 3});
    var g := m[ROOT];
    SlotAt(g, 0);
    ReadSlice(v, ROOT, 0, 0, DIRSIZE);
    assert g.bytes[0..DIRSIZE] == v.disk[6][..DIRSIZE];
    assert Slots(g) == [Entry()];
    hide Target, InodeOfBlock, DecodeSlot, FileBytes, Slots;
    var none: seq<Slot> := [];
    assert [Entry()][..0] == none;
    assert Count([Entry()], 3) == 1 + Count(none, 3);
    assert NameMap([Entry()]) == NameMap(none)[[97] := 3];
  }

  method SixteenImage() returns (dev: seq<Block>)
    ensures |dev| == 7 && Labelled(dev[0], 7) && HoldsSixteen(Image(dev))
  {
    hide Bits, HoldsSixteen, BlockOfInode, InodeOfBlock, SetWord, SuperBlock, EncodeSlot, DecodeSlot;
    var ones: Block := seq(512, _ => 255);
    var root, sixteen, d := RootOfOne(), SixteenBlocks(), Entry();
    var entry: Block := EncodeSlot(d) + Zeros(BLOCKSIZE - DIRSIZE);
    dev := [SuperBlock([], 7), BlockOfInode(root), ones, BlockOfInode(sixteen), SetWord(ZeroBlock(), 0, 5),
            ones, entry];
    InodeRoundTrip(root);
    InodeRoundTrip(sixteen);
    SlotRoundTrip(d);
    assert entry[..DIRSIZE] == EncodeSlot(d);
    SixteenDevice(dev);
  }

  lemma SixteenDevice(dev: seq<Block>)
    requires |dev| == 7 && InodeOfBlock(dev[ROOT]) == RootOfOne() && InodeOfBlock(dev[3]) == SixteenBlocks()
    requires dev[4] == SetWord(ZeroBlock(), 0, 5) && DecodeSlot(dev[6][..DIRSIZE]) == Entry()
    requires forall i: nat :: i < BLOCKSIZE ==> dev[MAPSTART][i] == 255
    ensures HoldsSixteen(Image(dev))
  {
    hide InodeOfBlock, SetWord, DecodeSlot;
    forall j: nat | j < DBPERIDB
      ensures WordAt(dev[4], j) == if j == 0 then 5 else 0
    {
      if j > 0 { ZeroWord(j); }
    }
    var bytes := MapBytes(dev, 1);
    assert MapBytes(dev, 0) == [];
    assert bytes == dev[MAPSTART];
    forall b: nat | b < BLOCKBITS
      ensures Bits(bytes)[b]
    {
      BitsFull(bytes, b / 8);
    }
  }

  /** sfs_truncate does not release the block at the new end when it is an indirect one: the
      volume is mounted, the file of sixteen blocks looked up and cut to fifteen, and its last
      block stays mapped. */
  method TruncateKeeps() returns (s: Mount)
    ensures fresh(s) && fresh(s.freemap) && fresh(s.freemap.v) && Ready(s)
    ensures NamesOf(s.Files()) == map[[97] := 3] && 3 in s.files && s.Files()[3].size == 15 * BLOCKSIZE
    ensures Target(s.V(), DataRef(3, 15)) == 5
  {
    hide Inv, Bits, FileOf, Image, Target, FilesOf, HoldsSixteen, DirInv, NameMap, SlotsOf, Mount.Valid, Cut, Ready;
    var dev := SixteenImage();
    ghost var v := Image(dev);
    ghost var files: set<nat>, own := {ROOT, 3}, Owners();
    SixteenInv(v, files, own);
    SixteenNamed(v);
    s := MountAgain(dev, files, own, FilesOf(v, files));
    GetRoot(s);
    var e, f, slot := LookOnce(s, [97], true);
    ghost var fs := s.Files();
    assert Target(s.V(), DataRef(3, 15)) == 5 && s.Files()[3].size == 16 * BLOCKSIZE;
    TruncateFile(s, f, 15 * BLOCKSIZE);
    assert !CutOff(DataRef(3, 15), 3, 15, MAXBLOCKS);
    SameDirectory(fs, s.Files());
  }
}
