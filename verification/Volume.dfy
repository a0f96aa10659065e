/** The state of a mounted SFS volume as a value, the invariant that every
    block in use has exactly one owner, and what each elementary change does to
    that invariant and to the bytes of the files. */
module Volume {
  import opened Basics
  import opened Codec

  const NDIRECT: nat := 15
  const DBPERIDB: nat := 128
  const MAXBLOCKS: nat := 143
  const CAPACITY: nat := 73216
  const ROOT: nat := 1
  const MAPSTART: nat := 2
  const BLOCKBITS: nat := 4096

  const TYPE_INVAL: nat := 0
  const TYPE_FILE: nat := 1
  const TYPE_DIR: nat := 2

  type Half = h: int | 0 <= h < 0x1_0000

  datatype RawInode = Inode(size: Word, typ: Half, links: Half, direct: seq<Word>, indirect: Word)

  type Inode = i: RawInode | |i.direct| == 15
    witness Inode(0, 0, 0, seq(15, _ => 0), 0)

  function NoInode(): Inode { Inode(0, 0, 0, seq(15, _ => 0), 0) }

  datatype Vnode = Vnode(inode: Inode, dirty: bool, refs: nat)

  /** `used` is the free-block bitmap, `cache` the vnodes in memory by inode number. */
  datatype Vol = Vol(nblocks: nat, disk: seq<Block>, used: seq<bool>, cache: map<nat, Vnode>)

  // ---------------------------------------------------------------- inode codec

  function PutWords(s: seq<Byte>, j: nat, ws: seq<Word>): (t: seq<Byte>)
    requires 4 * (j + |ws|) <= |s|
    ensures |t| == |s|
    ensures forall k: nat :: j <= k < j + |ws| ==> WordAt(t, k) == ws[k - j]
    ensures forall k: nat :: 4 * k + 4 <= |s| && (k < j || j + |ws| <= k) ==> WordAt(t, k) == WordAt(s, k)
    decreases |ws|
  {
    if ws == [] then s else PutWords(SetWord(s, j, ws[0]), j + 1, ws[1..])
  }

  function InodeOfWords(ws: seq<Word>): Inode
    requires |ws| == 18
  {
    Inode(ws[0], ws[1] / 0x1_0000, ws[1] % 0x1_0000, ws[2..17], ws[17])
  }

  /** The inode stored in a disk block. */
  function InodeOfBlock(b: Block): Inode {
    InodeOfWords(FirstWords(b, 18))
  }

  function InodeWords(i: Inode): (ws: seq<Word>)
    ensures |ws| == 18
  {
    [i.size, i.typ * 0x1_0000 + i.links] + i.direct + [i.indirect]
  }

  /** The disk block an inode is written as. */
  function BlockOfInode(i: Inode): (b: Block)
    ensures forall k: nat :: k < 18 ==> WordAt(b, k) == InodeWords(i)[k]
  {
    PutWords(ZeroBlock(), 0, InodeWords(i))
  }

  lemma InodeWordsRoundTrip(i: Inode)
    ensures InodeOfWords(InodeWords(i)) == i
  {
    assert InodeWords(i)[2..17] == i.direct;
  }

  lemma InodeRoundTrip(i: Inode)
    ensures InodeOfBlock(BlockOfInode(i)) == i
  {
    assert FirstWords(BlockOfInode(i), 18) == InodeWords(i);
    InodeWordsRoundTrip(i);
  }

  /** Where the fields of an inode are in its block: size, type and link count, the direct blocks
      and the indirect block, as big-endian words. */
  lemma InodeLayout(i: Inode)
    ensures var b := BlockOfInode(i);
      && WordAt(b, 0) == i.size && WordAt(b, 1) == i.typ * 0x1_0000 + i.links
      && (forall k: nat :: k < 15 ==> WordAt(b, 2 + k) == i.direct[k]) && WordAt(b, 17) == i.indirect
  {
    hide PutWords, WordAt;
    var b, ws := BlockOfInode(i), InodeWords(i);
    assert forall k: nat :: k < 15 ==> ws[2 + k] == i.direct[k];
    hide BlockOfInode;
  }

  lemma NoInodeWords()
    ensures InodeOfWords(seq(18, _ => 0)) == NoInode()
  {
    var ws: seq<Word> := seq(18, _ => 0);
    assert ws[2..17] == NoInode().direct;
  }

  lemma ZeroInode()
    ensures InodeOfBlock(ZeroBlock()) == NoInode()
  {
    ZeroWords(18);
    NoInodeWords();
  }

  // ---------------------------------------------------------------- the block map

  /** The inode of file `f`: the copy in memory if it is loaded, else the one on disk. */
  function CurInode(v: Vol, f: nat): Inode {
    if f in v.cache then v.cache[f].inode
    else if f < |v.disk| then InodeOfBlock(v.disk[f])
    else NoInode()
  }

  /** Entry `j` of the indirect block with number `id`; block 0 reads as all zeros. */
  function IndirectEntry(v: Vol, id: nat, j: nat): Word {
    if id == 0 || |v.disk| <= id || DBPERIDB <= j then 0 else WordAt(v.disk[id], j)
  }

  function DiskByte(v: Vol, b: nat, o: nat): Byte {
    if b == 0 || |v.disk| <= b || BLOCKSIZE <= o then 0 else v.disk[b][o]
  }

  // ---------------------------------------------------------------- ownership

  /** A place that can hold a block number. */
  datatype Ref =
    | InodeRef(ino: nat)
    | DirectRef(ino: nat, i: nat)
    | IndirectRef(ino: nat)
    | EntryRef(ino: nat, j: nat)

  /** The block number held in a place, 0 for none. */
  function Target(v: Vol, r: Ref): nat {
    match r
    case InodeRef(f) => f
    case DirectRef(f, i) => if i < NDIRECT then CurInode(v, f).direct[i] else 0
    case IndirectRef(f) => CurInode(v, f).indirect
    case EntryRef(f, j) => IndirectEntry(v, CurInode(v, f).indirect, j)
  }

  /** The place that holds the number of block `fb` of file `f`. */
  function DataRef(f: nat, fb: nat): (r: Ref)
    ensures r.ino == f && HoldsData(r)
  {
    if fb < NDIRECT then DirectRef(f, fb) else EntryRef(f, fb - NDIRECT)
  }

  function FileByte(v: Vol, f: nat, p: nat): Byte {
    DiskByte(v, Target(v, DataRef(f, p / BLOCKSIZE)), p % BLOCKSIZE)
  }

  function FileBytes(v: Vol, f: nat): (s: seq<Byte>)
    ensures |s| == CAPACITY
    ensures forall p: nat :: p < CAPACITY ==> s[p] == FileByte(v, f, p)
  {
    seq(CAPACITY, p requires 0 <= p => FileByte(v, f, p))
  }

  /** A file as its users see it: the bytes over the whole capacity of the block
      map, with a hole reading as zero, and the fields of the inode that users see. */
  datatype File = File(bytes: seq<Byte>, size: Word, typ: Half, links: Half)

  function FileOf(v: Vol, f: nat): (r: File)
    ensures |r.bytes| == CAPACITY
  {
    File(FileBytes(v, f), CurInode(v, f).size, CurInode(v, f).typ, CurInode(v, f).links)
  }

  /** Where byte `p` of a file is: in the direct block `p / 512` for the first fifteen blocks, and
      through the indirect block for the others; 0 when no block is there. */
  lemma ByteAt(v: Vol, f: nat, p: nat)
    requires p < CAPACITY
    ensures var i := CurInode(v, f);
      var id := i.indirect;
      var b := if p < 15 * 512 then i.direct[p / 512]
               else if 0 < id < |v.disk| then WordAt(v.disk[id], p / 512 - 15) else 0;
      FileBytes(v, f)[p] == if 0 < b < |v.disk| then v.disk[b][p % 512] else 0
  {
  }

  /** The free map has a bit for every block and less than a block to spare. */
  lemma MapSize(n: nat)
    ensures n <= 4096 * BitBlocks(n) < n + 4096
  {
  }

  function BitBlocks(nblocks: nat): nat { (nblocks + BLOCKBITS - 1) / BLOCKBITS }

  /** The superblock and the blocks of the free map. */
  predicate Meta(v: Vol, b: nat) {
    b == 0 || MAPSTART <= b < MAPSTART + BitBlocks(v.nblocks)
  }

  ghost predicate Shape(v: Vol) {
    && |v.disk| == v.nblocks <= |v.used|
    && v.nblocks <= WORD
    && MAPSTART + BitBlocks(v.nblocks) <= v.nblocks
  }

  /** Every nonzero place of a file is recorded as the owner of its block. */
  ghost predicate Owned(v: Vol, files: set<nat>, owner: map<nat, Ref>) {
    forall r: Ref :: r.ino in files && Target(v, r) != 0 ==>
      Target(v, r) in owner && owner[Target(v, r)] == r
  }

  /** Every recorded owner really holds its block, which is an ordinary block of the volume. */
  ghost predicate Sound(v: Vol, files: set<nat>, owner: map<nat, Ref>) {
    forall b: nat :: b in owner ==>
      && owner[b].ino in files && Target(v, owner[b]) == b
      && b < v.nblocks && !Meta(v, b)
  }

  /** The set bits are the owned blocks, the metadata and the bits past the end of the volume. */
  ghost predicate Exact(v: Vol, owner: map<nat, Ref>) {
    forall b: nat :: b < |v.used| ==>
      (v.used[b] <==> b in owner || Meta(v, b) || v.nblocks <= b)
  }

  /** The vnodes in memory are of known files, and a clean one agrees with the disk. */
  ghost predicate Coherent(v: Vol, files: set<nat>) {
    forall f: nat :: f in v.cache ==>
      f in files && (!v.cache[f].dirty ==> f < |v.disk| && InodeOfBlock(v.disk[f]) == v.cache[f].inode)
  }

  ghost predicate Inv(v: Vol, files: set<nat>, owner: map<nat, Ref>) {
    && Shape(v) && Owned(v, files, owner) && Sound(v, files, owner)
    && Exact(v, owner) && Coherent(v, files)
    && 0 !in files
  }

  // ---------------------------------------------------------------- elementary changes

  /** sfs_balloc once the bitmap has yielded `b`: mark it and clear it. */
  function Allocated(v: Vol, b: nat): Vol
    requires b < |v.disk| && b < |v.used|
  {
    Vol(v.nblocks, v.disk[b := ZeroBlock()], v.used[b := true], v.cache)
  }

  function Freed(v: Vol, b: nat): Vol
    requires b < |v.used|
  {
    Vol(v.nblocks, v.disk, v.used[b := false], v.cache)
  }

  function WithInode(v: Vol, f: nat, i: Inode): Vol
    requires f in v.cache
  {
    Vol(v.nblocks, v.disk, v.used, v.cache[f := Vnode(i, true, v.cache[f].refs)])
  }

  function WithBlock(v: Vol, b: nat, blk: Block): Vol
    requires b < |v.disk|
  {
    Vol(v.nblocks, v.disk[b := blk], v.used, v.cache)
  }

  /** A free bit names an ordinary block of the volume that nobody owns. */
  lemma FreeBit(v: Vol, files: set<nat>, owner: map<nat, Ref>, b: nat)
    requires Inv(v, files, owner) && b < |v.used| && !v.used[b]
    ensures 0 < b < v.nblocks && !Meta(v, b) && b !in owner && b !in files
  {
    assert Target(v, InodeRef(b)) == b;
  }

  /** Taking a free block without recording it anywhere changes no place and no file. */
  lemma AllocatedSame(v: Vol, files: set<nat>, owner: map<nat, Ref>, b: nat)
    requires Inv(v, files, owner) && b < |v.used| && !v.used[b]
    ensures b < |v.disk|
    ensures var w := Allocated(v, b);
      && (forall r: Ref :: r.ino in files ==> Target(w, r) == Target(v, r))
      && (forall g: nat :: g in files ==> FileOf(w, g) == FileOf(v, g))
  {
    hide Target, InodeOfBlock, FileBytes;
    FreeBit(v, files, owner, b);
    WriteBlockTargets(v, files, owner, b, ZeroBlock());
    var u, w := WithBlock(v, b, ZeroBlock()), Allocated(v, b);
    forall r: Ref
      ensures Target(w, r) == Target(u, r)
    {
      SameDisk(u, w, r);
    }
    SameFiles(v, w, files, owner);
    assert forall g: nat :: CurInode(w, g) == CurInode(u, g);
  }

  /** Where a place points does not depend on the free map. */
  lemma SameDisk(v: Vol, w: Vol, r: Ref)
    requires w.disk == v.disk && w.cache == v.cache
    ensures Target(w, r) == Target(v, r)
  {
  }

  /** Every place of a file holds 0 or a block in use inside the volume. */
  lemma RefInUse(v: Vol, files: set<nat>, owner: map<nat, Ref>, r: Ref)
    requires Inv(v, files, owner) && r.ino in files
    ensures Target(v, r) == 0 || (Target(v, r) < v.nblocks && v.used[Target(v, r)])
  {
  }

  /** What the invariant says about the free map: a block is marked exactly when it is
      metadata or some place of a file holds it, and then only one place does. */
  lemma FreeMapExact(v: Vol, files: set<nat>, owner: map<nat, Ref>, b: nat)
    requires Inv(v, files, owner) && 0 < b < v.nblocks
    ensures v.used[b] <==> Meta(v, b) || exists r: Ref :: r.ino in files && Target(v, r) == b
    ensures forall r: Ref, q: Ref :: r.ino in files && q.ino in files && Target(v, r) == b && Target(v, q) == b ==>
      r == q
    ensures Meta(v, b) ==> forall r: Ref :: r.ino in files ==> Target(v, r) != b
  {
    hide Target;
    if b in owner {
      assert Target(v, owner[b]) == b;
    }
  }

  lemma CacheKnown(v: Vol, files: set<nat>, owner: map<nat, Ref>, f: nat)
    requires Inv(v, files, owner) && f in v.cache
    ensures f in files && f < v.nblocks == |v.disk| && v.nblocks <= WORD
  {
    assert Target(v, InodeRef(f)) == f;
  }

  lemma DiskSize(v: Vol, files: set<nat>, owner: map<nat, Ref>)
    requires Inv(v, files, owner)
    ensures |v.disk| == v.nblocks <= |v.used|
  {
  }

  lemma SameTargets(v: Vol, w: Vol, g: nat)
    requires CurInode(w, g) == CurInode(v, g)
    requires forall j: nat ::
      IndirectEntry(w, CurInode(v, g).indirect, j) == IndirectEntry(v, CurInode(v, g).indirect, j)
    ensures forall r: Ref :: r.ino == g ==> Target(w, r) == Target(v, r)
  {
  }

  lemma SameFile(v: Vol, w: Vol, g: nat)
    requires CurInode(w, g).size == CurInode(v, g).size
    requires CurInode(w, g).typ == CurInode(v, g).typ
    requires CurInode(w, g).links == CurInode(v, g).links
    requires forall p: nat :: p < CAPACITY ==> FileByte(w, g, p) == FileByte(v, g, p)
    ensures FileOf(w, g) == FileOf(v, g)
  {
    assert FileBytes(w, g) == FileBytes(v, g);
  }

  predicate HoldsData(r: Ref) { r.DirectRef? || r.EntryRef? }

  /** Overwriting a block that holds neither an inode nor block numbers moves no block number. */
  lemma WriteBlockTargets(v: Vol, files: set<nat>, owner: map<nat, Ref>, b: nat, blk: Block)
    requires Inv(v, files, owner)
    requires b < v.nblocks && (b in owner ==> HoldsData(owner[b]))
    ensures var w := WithBlock(v, b, blk);
      && (forall r: Ref :: r.ino in files ==> Target(w, r) == Target(v, r))
      && (forall g: nat :: g in files ==> CurInode(w, g) == CurInode(v, g))
  {
    var w := WithBlock(v, b, blk);
    forall g: nat | g in files
      ensures CurInode(w, g) == CurInode(v, g)
      ensures forall r: Ref :: r.ino == g ==> Target(w, r) == Target(v, r)
    {
      assert Target(v, InodeRef(g)) == g;
      assert Target(v, IndirectRef(g)) == CurInode(v, g).indirect;
      SameTargets(v, w, g);
    }
  }

  /** Writing a data block changes that block of the file that owns it and nothing else. */
  lemma WriteDataInv(v: Vol, files: set<nat>, owner: map<nat, Ref>, b: nat, blk: Block)
    requires Inv(v, files, owner) && b in owner && HoldsData(owner[b])
    ensures b < v.nblocks
    ensures Inv(WithBlock(v, b, blk), files, owner)
    ensures forall g: nat :: g in files ==> CurInode(WithBlock(v, b, blk), g) == CurInode(v, g)
  {
    WriteBlockTargets(v, files, owner, b, blk);
    assert Target(v, owner[b]) == b;
    var w := WithBlock(v, b, blk);
    assert Coherent(w, files) by {
      forall f: nat | f in w.cache
        ensures f in files && (!w.cache[f].dirty ==> f < |w.disk| && InodeOfBlock(w.disk[f]) == w.cache[f].inode)
      {
        assert Target(v, InodeRef(f)) == f;
      }
    }
  }

  lemma WriteData(v: Vol, files: set<nat>, owner: map<nat, Ref>, b: nat, blk: Block, g: nat, p: nat)
    requires Inv(v, files, owner) && b in owner && HoldsData(owner[b])
    requires g in files
    ensures b < v.nblocks
    ensures FileByte(WithBlock(v, b, blk), g, p) ==
        if DataRef(g, p / BLOCKSIZE) == owner[b] then blk[p % BLOCKSIZE] else FileByte(v, g, p)
  {
    WriteBlockTargets(v, files, owner, b, blk);
    assert Target(v, owner[b]) == b;
  }

  // ---------------------------------------------------------------- taking a block

  function SetDirect(i: Inode, k: nat, b: Word): Inode
    requires k < NDIRECT
  {
    Inode(i.size, i.typ, i.links, i.direct[k := b], i.indirect)
  }

  function SetIndirect(i: Inode, b: Word): Inode {
    Inode(i.size, i.typ, i.links, i.direct, b)
  }

  /** The volume after block `b` has been allocated and recorded in place `r`. */
  function Linked(v: Vol, r: Ref, b: nat): Vol
    requires b < |v.disk| && b < |v.used| && b < WORD
    requires r.ino in v.cache && !r.InodeRef?
    requires r.DirectRef? ==> r.i < NDIRECT
    requires r.EntryRef? ==> r.j < DBPERIDB && v.cache[r.ino].inode.indirect < |v.disk|
  {
    var i := v.cache[r.ino].inode;
    match r
    case DirectRef(f, k) => WithInode(Allocated(v, b), f, SetDirect(i, k, b))
    case IndirectRef(f) => WithInode(Allocated(v, b), f, SetIndirect(i, b))
    case EntryRef(f, j) => WithBlock(Allocated(v, b), i.indirect, SetWord(v.disk[i.indirect], j, b))
  }

  /** A place of a loaded file that is empty and can be filled. */
  ghost predicate Vacant(v: Vol, r: Ref) {
    && r.ino in v.cache && !r.InodeRef? && Target(v, r) == 0
    && (r.DirectRef? ==> r.i < NDIRECT)
    && (r.EntryRef? ==> r.j < DBPERIDB && 0 < v.cache[r.ino].inode.indirect < |v.disk|)
  }

  lemma LinkedInodes(v: Vol, files: set<nat>, owner: map<nat, Ref>, r: Ref, b: nat)
    requires Inv(v, files, owner) && Vacant(v, r)
    requires b < |v.used| && !v.used[b]
    ensures b < |v.disk|
    ensures forall g: nat :: g in files ==>
      CurInode(Linked(v, r, b), g) ==
        if g == r.ino && r.DirectRef? then SetDirect(CurInode(v, g), r.i, b)
        else if g == r.ino && r.IndirectRef? then SetIndirect(CurInode(v, g), b)
        else CurInode(v, g)
  {
    FreeBit(v, files, owner, b);
    forall g: nat | g in files
      ensures g != b && (r.EntryRef? ==> g != v.cache[r.ino].inode.indirect)
    {
      assert Target(v, InodeRef(g)) == g;
      assert Target(v, IndirectRef(r.ino)) == v.cache[r.ino].inode.indirect;
    }
    hide Inv, Target, InodeOfBlock, SetDirect, SetIndirect, SetWord, WordAt;
  }

  lemma LinkedEntry(v: Vol, files: set<nat>, owner: map<nat, Ref>, r: Ref, b: nat, g: nat, j: nat)
    requires Inv(v, files, owner) && Vacant(v, r)
    requires b < |v.used| && !v.used[b] && g in files
    ensures b < |v.disk|
    ensures IndirectEntry(Linked(v, r, b), CurInode(v, g).indirect, j) ==
            if r == EntryRef(g, j) then b else IndirectEntry(v, CurInode(v, g).indirect, j)
  {
    FreeBit(v, files, owner, b);
    assert Target(v, IndirectRef(g)) == CurInode(v, g).indirect;
    assert Target(v, IndirectRef(r.ino)) == v.cache[r.ino].inode.indirect;
  }

  lemma LinkedTarget(v: Vol, files: set<nat>, owner: map<nat, Ref>, r: Ref, b: nat, q: Ref)
    requires Inv(v, files, owner) && Vacant(v, r)
    requires b < |v.used| && !v.used[b] && q.ino in files
    ensures b < |v.disk|
    ensures Target(Linked(v, r, b), q) == if q == r then b else Target(v, q)
  {
    FreeBit(v, files, owner, b);
    LinkedInodes(v, files, owner, r, b);
    if q.EntryRef? {
      if r == IndirectRef(q.ino) {
        if q.j < DBPERIDB { ZeroWord(q.j); }
      } else {
        LinkedEntry(v, files, owner, r, b, q.ino, q.j);
      }
    }
  }

  lemma LinkedCoherent(v: Vol, files: set<nat>, owner: map<nat, Ref>, r: Ref, b: nat)
    requires Inv(v, files, owner) && Vacant(v, r)
    requires b < |v.used| && !v.used[b]
    ensures b < |v.disk|
    ensures Coherent(Linked(v, r, b), files)
  {
    FreeBit(v, files, owner, b);
    assert Target(v, IndirectRef(r.ino)) == v.cache[r.ino].inode.indirect;
    forall f: nat | f in v.cache
      ensures f in files && f != b && (r.EntryRef? ==> f != v.cache[r.ino].inode.indirect)
      ensures !v.cache[f].dirty ==> f < |v.disk| && InodeOfBlock(v.disk[f]) == v.cache[f].inode
    {
      assert Target(v, InodeRef(f)) == f;
    }
    hide Inv, Target, InodeOfBlock, SetDirect, SetIndirect, SetWord, WordAt;
  }

  lemma LinkedOwned(v: Vol, files: set<nat>, owner: map<nat, Ref>, r: Ref, b: nat)
    requires Inv(v, files, owner) && Vacant(v, r)
    requires b < |v.used| && !v.used[b]
    ensures b < |v.disk|
    ensures Owned(Linked(v, r, b), files, owner[b := r])
  {
    FreeBit(v, files, owner, b);
    var w, owner' := Linked(v, r, b), owner[b := r];
    forall q: Ref | q.ino in files && Target(w, q) != 0
      ensures Target(w, q) in owner' && owner'[Target(w, q)] == q
    {
      LinkedTarget(v, files, owner, r, b, q);
    }
  }

  lemma LinkedSound(v: Vol, files: set<nat>, owner: map<nat, Ref>, r: Ref, b: nat)
    requires Inv(v, files, owner) && Vacant(v, r)
    requires b < |v.used| && !v.used[b]
    ensures b < |v.disk|
    ensures Sound(Linked(v, r, b), files, owner[b := r])
  {
    FreeBit(v, files, owner, b);
    var w, owner' := Linked(v, r, b), owner[b := r];
    forall c: nat | c in owner'
      ensures owner'[c].ino in files && Target(w, owner'[c]) == c && c < w.nblocks && !Meta(w, c)
    {
      LinkedTarget(v, files, owner, r, b, owner'[c]);
    }
  }

  /** Taking a free block for an empty place keeps the invariant, the place becoming its owner. */
  lemma LinkedInv(v: Vol, files: set<nat>, owner: map<nat, Ref>, r: Ref, b: nat)
    requires Inv(v, files, owner) && Vacant(v, r)
    requires b < |v.used| && !v.used[b]
    ensures b < |v.disk|
    ensures Inv(Linked(v, r, b), files, owner[b := r])
  {
    hide Owned, Sound, Coherent;
    FreeBit(v, files, owner, b);
    LinkedCoherent(v, files, owner, r, b);
    LinkedOwned(v, files, owner, r, b);
    LinkedSound(v, files, owner, r, b);
  }

  /** Filling a place writes the new block and, for an entry, the indirect block. */
  lemma LinkedDisk(v: Vol, r: Ref, b: nat, c: nat, o: nat)
    requires Vacant(v, r) && b < |v.disk| && b < |v.used| && b < WORD
    requires r.EntryRef? ==> c != v.cache[r.ino].inode.indirect
    ensures DiskByte(Linked(v, r, b), c, o) == if c == b then 0 else DiskByte(v, c, o)
  {
    hide Target, SetWord, WordAt, SetDirect, SetIndirect;
  }

  /** ... and changes no byte of any file: a fresh block is all zero, as the hole was. */
  lemma LinkedByte(v: Vol, files: set<nat>, owner: map<nat, Ref>, r: Ref, b: nat, g: nat, p: nat)
    requires Inv(v, files, owner) && Vacant(v, r)
    requires b < |v.used| && !v.used[b] && g in files
    ensures b < |v.disk|
    ensures FileByte(Linked(v, r, b), g, p) == FileByte(v, g, p)
  {
    FreeBit(v, files, owner, b);
    var q := DataRef(g, p / BLOCKSIZE);
    LinkedTarget(v, files, owner, r, b, q);
    var c := Target(Linked(v, r, b), q);
    assert Target(v, IndirectRef(r.ino)) == v.cache[r.ino].inode.indirect;
    assert Target(v, q) != 0 ==> owner[Target(v, q)] == q && Target(v, q) != b;
    assert r.EntryRef? ==> c != v.cache[r.ino].inode.indirect;
    hide Inv, Target, Linked, DataRef;
    LinkedDisk(v, r, b, c, p % BLOCKSIZE);
  }

  lemma LinkedFiles(v: Vol, files: set<nat>, owner: map<nat, Ref>, r: Ref, b: nat)
    requires Inv(v, files, owner) && Vacant(v, r)
    requires b < |v.used| && !v.used[b]
    ensures b < |v.disk|
    ensures forall g: nat :: g in files ==> FileOf(Linked(v, r, b), g) == FileOf(v, g)
  {
    FreeBit(v, files, owner, b);
    LinkedInodes(v, files, owner, r, b);
    forall g: nat | g in files
      ensures FileOf(Linked(v, r, b), g) == FileOf(v, g)
    {
      forall p: nat | p < CAPACITY
        ensures FileByte(Linked(v, r, b), g, p) == FileByte(v, g, p)
      {
        LinkedByte(v, files, owner, r, b, g, p);
      }
      SameFile(v, Linked(v, r, b), g);
    }
  }

  // ---------------------------------------------------------------- giving a block back

  predicate Unlinkable(v: Vol, r: Ref, b: nat) {
    && r.ino in v.cache && !r.InodeRef? && b < |v.used|
    && (r.DirectRef? ==> r.i < NDIRECT)
    && (r.EntryRef? ==> r.j < DBPERIDB && v.cache[r.ino].inode.indirect < |v.disk|)
  }

  /** The volume after block `b` in place `r` has been freed and the place cleared. */
  function Unlinked(v: Vol, r: Ref, b: nat): Vol
    requires Unlinkable(v, r, b)
  {
    var i := v.cache[r.ino].inode;
    match r
    case DirectRef(f, k) => WithInode(Freed(v, b), f, SetDirect(i, k, 0))
    case IndirectRef(f) => WithInode(Freed(v, b), f, SetIndirect(i, 0))
    case EntryRef(f, j) => WithBlock(Freed(v, b), i.indirect, SetWord(v.disk[i.indirect], j, 0))
  }

  /** A place of a loaded file that holds a block. */
  ghost predicate Filled(v: Vol, r: Ref, b: nat) {
    r.ino in v.cache && !r.InodeRef? && Target(v, r) == b != 0
  }

  /** No entry of the indirect block of `f` is in use. */
  ghost predicate NoEntries(v: Vol, f: nat) {
    forall j: nat :: Target(v, EntryRef(f, j)) == 0
  }

  lemma FilledInRange(v: Vol, files: set<nat>, owner: map<nat, Ref>, r: Ref, b: nat)
    requires Inv(v, files, owner) && Filled(v, r, b)
    ensures r.ino in files && b in owner && owner[b] == r
    ensures b < v.nblocks <= |v.used| && !Meta(v, b)
    ensures r.DirectRef? ==> r.i < NDIRECT
    ensures r.EntryRef? ==> r.j < DBPERIDB && 0 < v.cache[r.ino].inode.indirect < |v.disk|
    ensures forall g: nat :: g in files ==> g != v.cache[r.ino].inode.indirect
  {
    assert Target(v, IndirectRef(r.ino)) == v.cache[r.ino].inode.indirect;
    forall g: nat | g in files
      ensures g != v.cache[r.ino].inode.indirect
    {
      assert Target(v, InodeRef(g)) == g;
    }
  }

  lemma UnlinkedInode(v: Vol, files: set<nat>, owner: map<nat, Ref>, r: Ref, b: nat, g: nat)
    requires Inv(v, files, owner) && Filled(v, r, b) && g in files
    ensures Unlinkable(v, r, b)
    ensures CurInode(Unlinked(v, r, b), g) ==
        if g == r.ino && r.DirectRef? then SetDirect(CurInode(v, g), r.i, 0)
        else if g == r.ino && r.IndirectRef? then SetIndirect(CurInode(v, g), 0)
        else CurInode(v, g)
  {
    FilledInRange(v, files, owner, r, b);
  }

  lemma UnlinkedEntry(v: Vol, files: set<nat>, owner: map<nat, Ref>, r: Ref, b: nat, g: nat, j: nat)
    requires Inv(v, files, owner) && Filled(v, r, b) && g in files
    ensures Unlinkable(v, r, b)
    ensures IndirectEntry(Unlinked(v, r, b), CurInode(v, g).indirect, j) ==
            if r == EntryRef(g, j) then 0 else IndirectEntry(v, CurInode(v, g).indirect, j)
  {
    FilledInRange(v, files, owner, r, b);
    assert Target(v, IndirectRef(g)) == CurInode(v, g).indirect;
    assert Target(v, IndirectRef(r.ino)) == v.cache[r.ino].inode.indirect;
  }

  lemma UnlinkedTarget(v: Vol, files: set<nat>, owner: map<nat, Ref>, r: Ref, b: nat, q: Ref)
    requires Inv(v, files, owner) && Filled(v, r, b) && q.ino in files
    requires r.IndirectRef? ==> NoEntries(v, r.ino)
    ensures Unlinkable(v, r, b)
    ensures Target(Unlinked(v, r, b), q) == if q == r then 0 else Target(v, q)
  {
    FilledInRange(v, files, owner, r, b);
    UnlinkedInode(v, files, owner, r, b, q.ino);
    if q.EntryRef? {
      if r == IndirectRef(q.ino) {
        assert Target(v, q) == 0;
      } else {
        UnlinkedEntry(v, files, owner, r, b, q.ino, q.j);
      }
    }
  }

  lemma UnlinkedOwned(v: Vol, files: set<nat>, owner: map<nat, Ref>, r: Ref, b: nat)
    requires Inv(v, files, owner) && Filled(v, r, b)
    requires r.IndirectRef? ==> NoEntries(v, r.ino)
    ensures Unlinkable(v, r, b)
    ensures Owned(Unlinked(v, r, b), files, owner - {b})
  {
    FilledInRange(v, files, owner, r, b);
    var w, owner' := Unlinked(v, r, b), owner - {b};
    forall q: Ref | q.ino in files && Target(w, q) != 0
      ensures Target(w, q) in owner' && owner'[Target(w, q)] == q
    {
      UnlinkedTarget(v, files, owner, r, b, q);
    }
  }

  lemma UnlinkedSound(v: Vol, files: set<nat>, owner: map<nat, Ref>, r: Ref, b: nat)
    requires Inv(v, files, owner) && Filled(v, r, b)
    requires r.IndirectRef? ==> NoEntries(v, r.ino)
    ensures Unlinkable(v, r, b)
    ensures Sound(Unlinked(v, r, b), files, owner - {b})
  {
    FilledInRange(v, files, owner, r, b);
    var w, owner' := Unlinked(v, r, b), owner - {b};
    forall c: nat | c in owner'
      ensures owner'[c].ino in files && Target(w, owner'[c]) == c && c < w.nblocks && !Meta(w, c)
    {
      UnlinkedTarget(v, files, owner, r, b, owner'[c]);
    }
  }

  lemma UnlinkedCoherent(v: Vol, files: set<nat>, owner: map<nat, Ref>, r: Ref, b: nat)
    requires Inv(v, files, owner) && Filled(v, r, b)
    ensures Unlinkable(v, r, b)
    ensures Coherent(Unlinked(v, r, b), files)
  {
    FilledInRange(v, files, owner, r, b);
  }

  /** Freeing the block of a place keeps the invariant, the block losing its owner. */
  lemma UnlinkedInv(v: Vol, files: set<nat>, owner: map<nat, Ref>, r: Ref, b: nat)
    requires Inv(v, files, owner) && Filled(v, r, b)
    requires r.IndirectRef? ==> NoEntries(v, r.ino)
    ensures Unlinkable(v, r, b)
    ensures Inv(Unlinked(v, r, b), files, owner - {b})
  {
    hide Owned, Sound, Coherent, Target;
    FilledInRange(v, files, owner, r, b);
    UnlinkedOwned(v, files, owner, r, b);
    UnlinkedSound(v, files, owner, r, b);
    UnlinkedCoherent(v, files, owner, r, b);
  }

  /** ... and turns that block of the file into a hole. */
  lemma UnlinkedByte(v: Vol, files: set<nat>, owner: map<nat, Ref>, r: Ref, b: nat, g: nat, p: nat)
    requires Inv(v, files, owner) && Filled(v, r, b) && g in files
    requires r.IndirectRef? ==> NoEntries(v, r.ino)
    ensures Unlinkable(v, r, b)
    ensures FileByte(Unlinked(v, r, b), g, p) ==
            if DataRef(g, p / BLOCKSIZE) == r then 0 else FileByte(v, g, p)
  {
    FilledInRange(v, files, owner, r, b);
    var q := DataRef(g, p / BLOCKSIZE);
    UnlinkedTarget(v, files, owner, r, b, q);
    var c := Target(v, q);
    assert Target(v, IndirectRef(r.ino)) == v.cache[r.ino].inode.indirect;
    assert r.EntryRef? && c != 0 ==> c != v.cache[r.ino].inode.indirect;
    hide Inv, Target, Unlinked, DataRef;
    if c != 0 { UnlinkedDisk(v, r, b, c, p % BLOCKSIZE); }
  }

  /** Clearing an entry writes the indirect block, and clearing a pointer writes nothing. */
  lemma UnlinkedDisk(v: Vol, r: Ref, b: nat, c: nat, o: nat)
    requires Unlinkable(v, r, b) && (r.EntryRef? ==> c != v.cache[r.ino].inode.indirect)
    ensures DiskByte(Unlinked(v, r, b), c, o) == DiskByte(v, c, o)
  {
    hide SetWord, WordAt, SetDirect, SetIndirect;
  }

  // ---------------------------------------------------------------- changes that move no block

  lemma SameInv(v: Vol, w: Vol, files: set<nat>, owner: map<nat, Ref>)
    requires Inv(v, files, owner)
    requires w.nblocks == v.nblocks && w.used == v.used && |w.disk| == |v.disk|
    requires forall r: Ref :: r.ino in files ==> Target(w, r) == Target(v, r)
    requires Coherent(w, files)
    ensures Inv(w, files, owner)
  {
  }

  lemma SameFiles(v: Vol, w: Vol, files: set<nat>, owner: map<nat, Ref>)
    requires Inv(v, files, owner)
    requires |w.disk| == |v.disk|
    requires forall r: Ref :: r.ino in files ==> Target(w, r) == Target(v, r)
    requires forall b: nat :: b in owner && HoldsData(owner[b]) ==> w.disk[b] == v.disk[b]
    ensures forall g: nat :: g in files ==> FileBytes(w, g) == FileBytes(v, g)
  {
    forall g: nat | g in files
      ensures FileBytes(w, g) == FileBytes(v, g)
    {
      forall p: nat | p < CAPACITY
        ensures FileByte(w, g, p) == FileByte(v, g, p)
      {
        var q := DataRef(g, p / BLOCKSIZE);
        assert Target(v, q) != 0 ==> owner[Target(v, q)] == q;
      }
    }
  }

  /** What a block nobody owns contains does not matter. */
  lemma WriteFreeBlock(v: Vol, files: set<nat>, owner: map<nat, Ref>, b: nat, blk: Block)
    requires Inv(v, files, owner) && b < v.nblocks && b !in owner
    ensures Inv(WithBlock(v, b, blk), files, owner)
    ensures forall g: nat :: g in files ==> FileOf(WithBlock(v, b, blk), g) == FileOf(v, g)
  {
    var w := WithBlock(v, b, blk);
    WriteBlockTargets(v, files, owner, b, blk);
    forall f: nat | f in w.cache
      ensures f in files && (!w.cache[f].dirty ==> f < |w.disk| && InodeOfBlock(w.disk[f]) == w.cache[f].inode)
    {
      assert Target(v, InodeRef(f)) == f;
    }
    SameInv(v, w, files, owner);
    SameFiles(v, w, files, owner);
  }

  /** Changing the size, type or link count of a loaded inode. */
  lemma TouchedInv(v: Vol, files: set<nat>, owner: map<nat, Ref>, f: nat, i: Inode)
    requires Inv(v, files, owner) && f in v.cache
    requires i.direct == v.cache[f].inode.direct && i.indirect == v.cache[f].inode.indirect
    ensures Inv(WithInode(v, f, i), files, owner)
    ensures forall r: Ref :: Target(WithInode(v, f, i), r) == Target(v, r)
    ensures forall g: nat :: g in files ==>
      FileOf(WithInode(v, f, i), g) ==
        if g == f then File(FileOf(v, f).bytes, i.size, i.typ, i.links) else FileOf(v, g)
  {
    var w := WithInode(v, f, i);
    assert forall r: Ref :: Target(w, r) == Target(v, r);
    assert Coherent(w, files);
    hide Inv, Target, Coherent;
    SameInv(v, w, files, owner);
    SameFiles(v, w, files, owner);
  }

  function WithRefs(v: Vol, f: nat, n: nat): Vol
    requires f in v.cache
  {
    Vol(v.nblocks, v.disk, v.used, v.cache[f := Vnode(v.cache[f].inode, v.cache[f].dirty, n)])
  }

  lemma WithRefsInv(v: Vol, files: set<nat>, owner: map<nat, Ref>, f: nat, n: nat)
    requires Inv(v, files, owner) && f in v.cache
    ensures Inv(WithRefs(v, f, n), files, owner)
    ensures forall g: nat :: g in files ==> FileOf(WithRefs(v, f, n), g) == FileOf(v, g)
  {
    hide InodeOfBlock, FileBytes;
    var w := WithRefs(v, f, n);
    assert forall r: Ref :: Target(w, r) == Target(v, r);
    assert Coherent(w, files);
    hide Inv, Target, Coherent;
    SameInv(v, w, files, owner);
    SameFiles(v, w, files, owner);
  }

  /** sfs_sync_inode on a dirty vnode. */
  function Synced(v: Vol, f: nat): Vol
    requires f in v.cache && f < |v.disk|
  {
    Vol(v.nblocks, v.disk[f := BlockOfInode(v.cache[f].inode)], v.used,
        v.cache[f := Vnode(v.cache[f].inode, false, v.cache[f].refs)])
  }

  lemma SyncedTargets(v: Vol, files: set<nat>, owner: map<nat, Ref>, f: nat)
    requires Inv(v, files, owner) && f in v.cache
    ensures f < |v.disk| && f in owner && owner[f] == InodeRef(f)
    ensures forall g: nat :: g in files ==> CurInode(Synced(v, f), g) == CurInode(v, g)
    ensures forall r: Ref :: r.ino in files ==> Target(Synced(v, f), r) == Target(v, r)
  {
    assert Target(v, InodeRef(f)) == f;
    var w := Synced(v, f);
    forall g: nat | g in files
      ensures CurInode(w, g) == CurInode(v, g)
      ensures forall r: Ref :: r.ino == g ==> Target(w, r) == Target(v, r)
    {
      assert Target(v, IndirectRef(g)) == CurInode(v, g).indirect;
      SameTargets(v, w, g);
    }
  }

  /** Writing an inode out keeps the invariant and every file. */
  lemma SyncedInv(v: Vol, files: set<nat>, owner: map<nat, Ref>, f: nat)
    requires Inv(v, files, owner) && f in v.cache
    ensures f < |v.disk|
    ensures Inv(Synced(v, f), files, owner)
    ensures forall g: nat :: g in files ==> FileOf(Synced(v, f), g) == FileOf(v, g)
  {
    hide Target, FileBytes, InodeOfBlock, BlockOfInode;
    SyncedTargets(v, files, owner, f);
    var w := Synced(v, f);
    assert Coherent(w, files) by {
      InodeRoundTrip(v.cache[f].inode);
    }
    hide Inv, Target, Coherent, FileBytes;
    SameInv(v, w, files, owner);
    SameFiles(v, w, files, owner);
  }

  /** sfs_loadvnode of an inode that is not in memory. */
  function Loaded(v: Vol, f: nat): Vol
    requires f < |v.disk|
  {
    Vol(v.nblocks, v.disk, v.used, v.cache[f := Vnode(InodeOfBlock(v.disk[f]), false, 1)])
  }

  lemma LoadedInv(v: Vol, files: set<nat>, owner: map<nat, Ref>, f: nat)
    requires Inv(v, files, owner) && f in files && f !in v.cache
    ensures f < |v.disk|
    ensures Inv(Loaded(v, f), files, owner)
    ensures forall g: nat :: g in files ==> FileOf(Loaded(v, f), g) == FileOf(v, g)
  {
    assert Target(v, InodeRef(f)) == f;
    var w := Loaded(v, f);
    assert forall g: nat :: CurInode(w, g) == CurInode(v, g);
    SameInv(v, w, files, owner);
    SameFiles(v, w, files, owner);
  }

  /** The superblock and the free map hold no byte of a file. */
  lemma WriteMeta(v: Vol, files: set<nat>, owner: map<nat, Ref>, b: nat, blk: Block)
    requires Inv(v, files, owner) && b < v.nblocks && Meta(v, b)
    ensures Inv(WithBlock(v, b, blk), files, owner)
    ensures forall g: nat :: g in files ==> FileOf(WithBlock(v, b, blk), g) == FileOf(v, g)
  {
    hide Target, InodeOfBlock, FileBytes, Coherent;
    WriteFreeBlock(v, files, owner, b, blk);
    WriteBlockTargets(v, files, owner, b, blk);
    SameFiles(v, WithBlock(v, b, blk), files, owner);
  }

  /** The volume as a later mount finds it. */
  function Unloaded(v: Vol): Vol {
    Vol(v.nblocks, v.disk, v.used, map[])
  }

  /** When every vnode in memory has been written out, the disk has everything. */
  lemma UnloadedInv(v: Vol, files: set<nat>, owner: map<nat, Ref>)
    requires Inv(v, files, owner) && forall f: nat :: f in v.cache ==> !v.cache[f].dirty
    ensures Inv(Unloaded(v), files, owner)
    ensures forall g: nat :: g in files ==> FileOf(Unloaded(v), g) == FileOf(v, g)
  {
    hide InodeOfBlock;
    var w := Unloaded(v);
    assert forall g: nat :: CurInode(w, g) == CurInode(v, g);
    SameInv(v, w, files, owner);
    SameFiles(v, w, files, owner);
  }

  /** Forgetting a vnode. */
  function Dropped(v: Vol, f: nat): Vol {
    Vol(v.nblocks, v.disk, v.used, v.cache - {f})
  }

  /** Forgetting a clean vnode loses nothing: the disk has the same inode. */
  lemma DroppedInv(v: Vol, files: set<nat>, owner: map<nat, Ref>, f: nat)
    requires Inv(v, files, owner) && f in v.cache && !v.cache[f].dirty
    ensures Inv(Dropped(v, f), files, owner)
    ensures forall g: nat :: g in files ==> FileOf(Dropped(v, f), g) == FileOf(v, g)
  {
    var w := Dropped(v, f);
    assert forall g: nat :: CurInode(w, g) == CurInode(v, g);
    SameInv(v, w, files, owner);
    SameFiles(v, w, files, owner);
  }

  function NewInode(t: Half): Inode {
    Inode(0, t, 0, seq(15, _ => 0), 0)
  }

  /** sfs_makeobj once a block for the inode has been found. */
  function Created(v: Vol, b: nat, t: Half): Vol
    requires b < |v.disk| && b < |v.used|
  {
    Vol(v.nblocks, v.disk[b := ZeroBlock()], v.used[b := true], v.cache[b := Vnode(NewInode(t), true, 1)])
  }

  lemma CreatedTarget(v: Vol, files: set<nat>, owner: map<nat, Ref>, b: nat, t: Half, q: Ref)
    requires Inv(v, files, owner) && b < |v.used| && !v.used[b]
    requires q.ino in files + {b}
    ensures b < |v.disk|
    ensures Target(Created(v, b, t), q) ==
            if q.ino != b then Target(v, q) else if q.InodeRef? then b else 0
    ensures q.ino in files ==> CurInode(Created(v, b, t), q.ino) == CurInode(v, q.ino)
  {
    FreeBit(v, files, owner, b);
    var w := Created(v, b, t);
    if q.ino != b {
      assert Target(v, IndirectRef(q.ino)) == CurInode(v, q.ino).indirect;
      SameTargets(v, w, q.ino);
    }
  }

  /** A new file takes one block, for its inode, and is empty; no other file changes. */
  lemma CreatedInv(v: Vol, files: set<nat>, owner: map<nat, Ref>, b: nat, t: Half)
    requires Inv(v, files, owner) && b < |v.used| && !v.used[b]
    ensures 0 < b < |v.disk| && b !in files
    ensures Inv(Created(v, b, t), files + {b}, owner[b := InodeRef(b)])
  {
    hide Target, InodeOfBlock;
    FreeBit(v, files, owner, b);
    var w, owner' := Created(v, b, t), owner[b := InodeRef(b)];
    assert Owned(w, files + {b}, owner') by {
      forall q: Ref | q.ino in files + {b} && Target(w, q) != 0
        ensures Target(w, q) in owner' && owner'[Target(w, q)] == q
      {
        CreatedTarget(v, files, owner, b, t, q);
      }
    }
    assert Sound(w, files + {b}, owner') by {
      forall c: nat | c in owner'
        ensures owner'[c].ino in files + {b} && Target(w, owner'[c]) == c && c < w.nblocks && !Meta(w, c)
      {
        CreatedTarget(v, files, owner, b, t, owner'[c]);
      }
    }
  }

  lemma CreatedFiles(v: Vol, files: set<nat>, owner: map<nat, Ref>, b: nat, t: Half)
    requires Inv(v, files, owner) && b < |v.used| && !v.used[b]
    ensures b < |v.disk|
    ensures FileOf(Created(v, b, t), b) == File(seq(CAPACITY, _ => 0), 0, t, 0)
    ensures forall g: nat :: g in files ==> FileOf(Created(v, b, t), g) == FileOf(v, g)
  {
    FreeBit(v, files, owner, b);
    var w := Created(v, b, t);
    assert FileBytes(w, b) == seq(CAPACITY, _ => 0) by {
      forall p: nat | p < CAPACITY
        ensures FileByte(w, b, p) == 0
      {
        CreatedTarget(v, files, owner, b, t, DataRef(b, p / BLOCKSIZE));
      }
    }
    forall g: nat | g in files
      ensures FileOf(w, g) == FileOf(v, g)
    {
      CreatedTarget(v, files, owner, b, t, InodeRef(g));
      forall p: nat | p < CAPACITY
        ensures FileByte(w, g, p) == FileByte(v, g, p)
      {
        var q := DataRef(g, p / BLOCKSIZE);
        CreatedTarget(v, files, owner, b, t, q);
        assert Target(v, q) != 0 ==> owner[Target(v, q)] == q;
      }
      SameFile(v, w, g);
    }
  }

  /** The end of sfs_reclaim on a file without links: free the inode's block and forget the vnode. */
  function Erased(v: Vol, f: nat): Vol
    requires f < |v.used|
  {
    Vol(v.nblocks, v.disk, v.used[f := false], v.cache - {f})
  }

  /** No place of file `f` holds a block. */
  ghost predicate NoBlocks(v: Vol, f: nat) {
    forall r: Ref :: r.ino == f && !r.InodeRef? ==> Target(v, r) == 0
  }

  lemma ErasedTargets(v: Vol, f: nat)
    requires f < |v.used|
    ensures forall r: Ref :: r.ino != f ==> Target(Erased(v, f), r) == Target(v, r)
  {
  }

  /** Erasing a file that holds no block returns its inode's block ... */
  lemma ErasedInv(v: Vol, files: set<nat>, owner: map<nat, Ref>, f: nat)
    requires Inv(v, files, owner) && f in v.cache && NoBlocks(v, f)
    ensures f < |v.used|
    ensures Inv(Erased(v, f), files - {f}, owner - {f})
  {
    hide Target, InodeOfBlock;
    assert Target(v, InodeRef(f)) == f by { InodeTarget(v, f); }
    ErasedTargets(v, f);
    forall c: nat | c in owner && c != f
      ensures owner[c].ino != f
    {
      assert Target(v, owner[c]) == c;
    }
    var w, files', owner' := Erased(v, f), files - {f}, owner - {f};
    assert Owned(w, files', owner') && Sound(w, files', owner');
    assert Exact(w, owner') && Coherent(w, files');
  }

  lemma InodeTarget(v: Vol, f: nat)
    ensures Target(v, InodeRef(f)) == f
  {
  }

  /** ... and touches no other file. */
  lemma ErasedFiles(v: Vol, f: nat)
    requires f < |v.used|
    ensures forall g: nat :: g != f ==> FileOf(Erased(v, f), g) == FileOf(v, g)
  {
    var w := Erased(v, f);
    assert forall r: Ref :: r.ino != f ==> Target(w, r) == Target(v, r);
    forall g: nat | g != f
      ensures FileOf(w, g) == FileOf(v, g)
    {
      assert FileBytes(w, g) == FileBytes(v, g);
    }
  }

  /** The files of a volume as their users see them. */
  ghost function FilesOf(v: Vol, files: set<nat>): (m: map<nat, File>)
    ensures m.Keys == files && forall f :: f in m ==> |m[f].bytes| == CAPACITY
  {
    map f | f in files :: FileOf(v, f)
  }

  // ---------------------------------------------------------------- cutting a file

  /** The block index a place stands for, if it holds a data block. */
  function BlockIndex(r: Ref): nat
    requires HoldsData(r)
  {
    match r
    case DirectRef(_, i) => i
    case EntryRef(_, j) => NDIRECT + j
  }

  /** Which blocks sfs_truncate to `bl` blocks releases: among the direct blocks those from
      `bl` on, among the indirect ones only those strictly after `bl`. */
  predicate Released(bl: nat, fb: nat) {
    if fb < NDIRECT then bl <= fb else bl < fb
  }

  /** Place `r` is among the first `n` places of file `f` and is released. */
  predicate CutOff(r: Ref, f: nat, bl: nat, n: nat) {
    HoldsData(r) && r == DataRef(f, BlockIndex(r)) && BlockIndex(r) < n && Released(bl, BlockIndex(r))
  }

  /** The bytes of a file with the released blocks among the first `n` turned into holes. */
  function Cut(bytes: seq<Byte>, bl: nat, n: nat): (c: seq<Byte>)
    ensures |c| == |bytes|
    ensures forall p: nat :: p < |bytes| ==>
      c[p] == if p / BLOCKSIZE < n && Released(bl, p / BLOCKSIZE) then 0 else bytes[p]
  {
    seq(|bytes|, p requires 0 <= p < |bytes| =>
      if p / BLOCKSIZE < n && Released(bl, p / BLOCKSIZE) then 0 else bytes[p])
  }

  /** Exactly the released places among the first `n` of file `f` have been emptied. */
  ghost predicate CutPlaces(v: Vol, w: Vol, files: set<nat>, f: nat, bl: nat, n: nat) {
    forall r: Ref :: r.ino in files && r != IndirectRef(f) ==>
      Target(w, r) == if CutOff(r, f, bl, n) then 0 else Target(v, r)
  }

  /** `w` is `v` with the released blocks among the first `n` of file `f` given back. */
  ghost predicate CutTo(v: Vol, w: Vol, files: set<nat>, f: nat, bl: nat, n: nat) {
    && CutPlaces(v, w, files, f, bl, n)
    && (forall g: nat :: g in files ==>
         FileOf(w, g) == if g != f then FileOf(v, g)
                         else File(Cut(FileOf(v, f).bytes, bl, n), FileOf(v, f).size, FileOf(v, f).typ,
                           FileOf(v, f).links))
  }

  lemma CutNone(bytes: seq<Byte>, bl: nat)
    ensures Cut(bytes, bl, 0) == bytes
  {
  }

  lemma CutToNone(v: Vol, files: set<nat>, f: nat, bl: nat)
    ensures CutTo(v, v, files, f, bl, 0)
  {
    hide FileOf, Target;
    CutNone(FileOf(v, f).bytes, bl);
    FileEta(FileOf(v, f));
  }

  lemma FileEta(g: File)
    ensures File(g.bytes, g.size, g.typ, g.links) == g
  {
  }

  /** Nothing to release in block `n`: it is kept, or it is a hole already. */
  lemma CutToSkip(v: Vol, w: Vol, files: set<nat>, f: nat, bl: nat, n: nat)
    requires CutTo(v, w, files, f, bl, n) && f in files
    requires Released(bl, n) ==> Target(w, DataRef(f, n)) == 0
    ensures CutTo(v, w, files, f, bl, n + 1)
  {
    var r := DataRef(f, n);
    hide Target;
    forall q: Ref | q.ino in files && q != IndirectRef(f)
      ensures Target(w, q) == if CutOff(q, f, bl, n + 1) then 0 else Target(v, q)
    {
      if CutOff(q, f, bl, n + 1) && !CutOff(q, f, bl, n) { assert q == r; }
    }
    var b := FileOf(v, f).bytes;
    forall p: nat | p < CAPACITY
      ensures Cut(b, bl, n + 1)[p] == Cut(b, bl, n)[p]
    {
      if p / BLOCKSIZE == n && Released(bl, n) {
        assert FileBytes(w, f)[p] == FileByte(w, f, p) == 0;
      }
    }
    assert Cut(b, bl, n + 1) == Cut(b, bl, n);
  }

  lemma CutOffNext(q: Ref, f: nat, bl: nat, n: nat)
    ensures CutOff(q, f, bl, n + 1) <==> CutOff(q, f, bl, n) || (q == DataRef(f, n) && Released(bl, n))
  {
  }

  /** Releasing block `n`. */
  lemma CutToStep(v: Vol, w: Vol, files: set<nat>, owner: map<nat, Ref>, f: nat, bl: nat, n: nat, b: nat)
    requires CutTo(v, w, files, f, bl, n) && f in files && Inv(w, files, owner)
    requires Released(bl, n) && Filled(w, DataRef(f, n), b)
    ensures Unlinkable(w, DataRef(f, n), b)
    ensures CutTo(v, Unlinked(w, DataRef(f, n), b), files, f, bl, n + 1)
  {
    hide Inv, Target, FileOf, DataRef, Unlinked;
    var r := DataRef(f, n);
    FilledInRange(w, files, owner, r, b);
    var u := Unlinked(w, r, b);
    forall q: Ref | q.ino in files && q != IndirectRef(f)
      ensures Target(u, q) == if CutOff(q, f, bl, n + 1) then 0 else Target(v, q)
    {
      UnlinkedTarget(w, files, owner, r, b, q);
      CutOffNext(q, f, bl, n);
    }
    forall g: nat | g in files
      ensures FileOf(u, g) == if g != f then FileOf(v, g)
                              else File(Cut(FileOf(v, f).bytes, bl, n + 1), FileOf(v, f).size, FileOf(v, f).typ,
                                FileOf(v, f).links)
    {
      CutToStepFile(v, w, files, owner, f, bl, n, b, g);
    }
  }

  lemma CutToStepFile(v: Vol, w: Vol, files: set<nat>, owner: map<nat, Ref>, f: nat, bl: nat, n: nat, b: nat, g: nat)
    requires CutTo(v, w, files, f, bl, n) && f in files && Inv(w, files, owner) && g in files
    requires Released(bl, n) && Filled(w, DataRef(f, n), b)
    ensures Unlinkable(w, DataRef(f, n), b)
    ensures FileOf(Unlinked(w, DataRef(f, n), b), g) ==
      if g != f then FileOf(v, g)
      else File(Cut(FileOf(v, f).bytes, bl, n + 1), FileOf(v, f).size, FileOf(v, f).typ, FileOf(v, f).links)
  {
    hide Inv, Target, FileByte, DataRef, Unlinked;
    var r := DataRef(f, n);
    FilledInRange(w, files, owner, r, b);
    UnlinkedInode(w, files, owner, r, b, g);
    var u := Unlinked(w, r, b);
    var was := FileOf(v, g).bytes;
    forall p: nat | p < CAPACITY
      ensures FileByte(u, g, p) == if g != f then was[p] else Cut(was, bl, n + 1)[p]
    {
      UnlinkedByte(w, files, owner, r, b, g, p);
      CutBlock(g, p / BLOCKSIZE, f, n);
      assert FileOf(w, g).bytes[p] == FileByte(w, g, p);
    }
    assert FileBytes(u, g) == if g != f then was else Cut(was, bl, n + 1);
  }

  lemma CutBlock(g: nat, k: nat, f: nat, n: nat)
    ensures DataRef(g, k) == DataRef(f, n) <==> g == f && k == n
  {
  }

  /** The blocks from `n` on need no releasing. */
  lemma {:induction false} CutToRest(v: Vol, w: Vol, files: set<nat>, f: nat, bl: nat, n: nat, m: nat)
    requires CutTo(v, w, files, f, bl, n) && f in files && n <= m
    requires forall k: nat :: n <= k < m && Released(bl, k) ==> Target(w, DataRef(f, k)) == 0
    ensures CutTo(v, w, files, f, bl, m)
    decreases m - n
  {
    hide Target, FileOf, CutTo, DataRef, Released;
    if n < m {
      CutToSkip(v, w, files, f, bl, n);
      CutToRest(v, w, files, f, bl, n + 1, m);
    }
  }

  /** Giving back an indirect block without entries changes no byte. */
  lemma DropIndirect(v: Vol, files: set<nat>, owner: map<nat, Ref>, f: nat, id: nat)
    requires Inv(v, files, owner) && Filled(v, IndirectRef(f), id) && NoEntries(v, f)
    ensures Unlinkable(v, IndirectRef(f), id) && f in files && id in owner && owner[id] == IndirectRef(f)
    ensures var w := Unlinked(v, IndirectRef(f), id);
      && (forall r: Ref :: r.ino in files ==> Target(w, r) == if r == IndirectRef(f) then 0 else Target(v, r))
      && (forall g: nat :: g in files ==> FileOf(w, g) == FileOf(v, g))
  {
    hide Inv, Target, FileByte, Unlinked, NoEntries;
    var q := IndirectRef(f);
    FilledInRange(v, files, owner, q, id);
    var w := Unlinked(v, q, id);
    forall r: Ref | r.ino in files
      ensures Target(w, r) == if r == q then 0 else Target(v, r)
    {
      UnlinkedTarget(v, files, owner, q, id, r);
    }
    forall g: nat | g in files
      ensures FileOf(w, g) == FileOf(v, g)
    {
      UnlinkedInode(v, files, owner, q, id, g);
      forall p: nat | p < CAPACITY
        ensures FileByte(w, g, p) == FileByte(v, g, p)
      {
        UnlinkedByte(v, files, owner, q, id, g, p);
      }
      SameFile(v, w, g);
    }
  }

  /** No place of a file other than `f` has changed. */
  ghost predicate OthersKept(v: Vol, w: Vol, files: set<nat>, f: nat) {
    forall r: Ref :: r.ino in files && r.ino != f ==> Target(w, r) == Target(v, r)
  }

  /** sfs_truncate releases every block at or past the new end exactly when the block just
      past the end is not a mapped indirect one. */
  lemma ReleasesAllIff(v: Vol, w: Vol, files: set<nat>, f: nat, bl: nat)
    requires CutPlaces(v, w, files, f, bl, MAXBLOCKS) && f in files
    ensures (forall k: nat :: bl <= k < MAXBLOCKS ==> Target(w, DataRef(f, k)) == 0)
            <==> !(NDIRECT <= bl < MAXBLOCKS && Target(v, DataRef(f, bl)) != 0)
  {
    hide Target, FileOf;
    forall k: nat | bl <= k < MAXBLOCKS
      ensures Target(w, DataRef(f, k)) == if Released(bl, k) then 0 else Target(v, DataRef(f, k))
    {
      assert CutOff(DataRef(f, k), f, bl, MAXBLOCKS) <==> Released(bl, k);
    }
  }

  /** Cutting to nothing leaves no place of the file filled. */
  lemma CutAll(v: Vol, w: Vol, files: set<nat>, f: nat)
    requires CutPlaces(v, w, files, f, 0, MAXBLOCKS) && f in files
    requires NoEntries(w, f) ==> Target(w, IndirectRef(f)) == 0
    ensures NoBlocks(w, f)
  {
    hide FileOf;
    forall j: nat
      ensures Target(w, EntryRef(f, j)) == 0
    {
      assert j < DBPERIDB ==> CutOff(EntryRef(f, j), f, 0, MAXBLOCKS);
    }
    forall i: nat
      ensures Target(w, DirectRef(f, i)) == 0
    {
      assert i < NDIRECT ==> CutOff(DirectRef(f, i), f, 0, MAXBLOCKS);
    }
  }

  /** Once file `f` is gone, the blocks in use are those in use before that it did not own. */
  lemma AllReturned(v: Vol, w: Vol, files: set<nat>, owner: map<nat, Ref>, owner': map<nat, Ref>, f: nat)
    requires Inv(v, files, owner) && Inv(w, files - {f}, owner')
    requires w.nblocks == v.nblocks && |w.used| == |v.used| && OthersKept(v, w, files, f)
    ensures forall b: nat :: b < |w.used| ==>
      (w.used[b] <==> v.used[b] && !(b in owner && owner[b].ino == f))
  {
    hide Target;
    forall b: nat | b < |w.used|
      ensures w.used[b] <==> v.used[b] && !(b in owner && owner[b].ino == f)
    {
      if b in owner && owner[b].ino != f {
        assert Target(w, owner[b]) == b;
      }
      if b in owner' {
        assert Target(v, owner'[b]) == b;
      }
    }
  }
}
