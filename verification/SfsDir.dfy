/** Directory operations of SFS over its file I/O: src/kern/fs/sfs/sfs_vnode.c. */
module SfsDir {
  import opened Basics
  import opened Codec
  import opened Volume
  import opened UserIo
  import opened Sfs
  import opened Directory

  /** Between operations: the volume is sound, the root vnode is loaded, the directory
      agrees with the link counts and every vnode in memory is referenced. */
  ghost predicate Ready(s: Mount)
    reads s, s.freemap, s.freemap.v
  {
    && s.Valid() && ROOT in s.cache && DirInv(s.Files(), s.cache.Keys)
    && forall f :: f in s.cache ==> s.cache[f].refs > 0
  }

  ghost function Root(s: Mount): (g: File)
    requires ROOT in s.files
    reads s, s.freemap.v
    ensures |g.bytes| == CAPACITY
  {
    s.Files()[ROOT]
  }

  /** The directory can be read: all that the slot functions need. */
  ghost predicate DirReadable(s: Mount)
    reads s, s.freemap, s.freemap.v
  {
    s.Valid() && ROOT in s.cache && ROOT in s.files && RootInv(Root(s))
  }

  /** sfs_readdir; the check for a short entry never fails. */
  method ReadDir(s: Mount, slot: nat) returns (e: seq<Byte>)
    requires DirReadable(s) && slot < |Slots(Root(s))|
    modifies s`disk, s`cache, s`owner, s`mapDirty, s.freemap.v
    ensures DirReadable(s) && s.V() == old(s.V())
    ensures |e| == DIRSIZE && DecodeSlot(e) == Slots(Root(s))[slot]
  {
    hide Slots, FilesOf, DecodeSlot, Splice;
    ghost var g := Root(s);
    SlotAt(g, slot);
    var buf := new Byte[DIRSIZE](_ => 0);
    ghost var blank := buf[..];
    var ku := new Uio(buf, DIRSIZE, slot * DIRSIZE, Read);
    var r := s.ReadIo(ROOT, ku);
    assert r == OK && ku.resid == 0;
    e := buf[..];
    SpliceAll(blank, g.bytes[DIRSIZE * slot..DIRSIZE * slot + DIRSIZE]);
  }

  lemma ZeroSlice(o: nat)
    requires o + DIRSIZE <= BLOCKSIZE
    ensures ZeroBlock()[o..o + DIRSIZE][..4] == [0, 0, 0, 0]
  {
    var z, b := ZeroBlock()[o..o + DIRSIZE], ZeroBlock();
    assert z[0] == b[o] && z[1] == b[o + 1] && z[2] == b[o + 2] && z[3] == b[o + 3];
  }

  /** A slot in a hole of the directory is free. */
  lemma LiveMapped(v: Vol, slot: nat)
    requires FileOf(v, ROOT).size <= CAPACITY && slot < |Slots(FileOf(v, ROOT))|
    ensures Target(v, DataRef(ROOT, slot * DIRSIZE / BLOCKSIZE)) == 0 ==> !Live(Slots(FileOf(v, ROOT))[slot])
  {
    hide Target, DataRef, FileOf;
    var g, at := FileOf(v, ROOT), DIRSIZE * slot;
    SlotAt(g, slot);
    ReadSlice(v, ROOT, at / BLOCKSIZE, at % BLOCKSIZE, DIRSIZE);
    ValueOfFour(0, 0, 0, 0);
    ZeroSlice(at % BLOCKSIZE);
  }

  /** A write that starts and fails inside a slot has written nothing. */
  lemma NothingWritten(g: File, off: nat)
    requires |g.bytes| == CAPACITY && g.size <= CAPACITY && off <= g.size
    ensures File(Splice(g.bytes, off, []), if g.size < off then off else g.size, g.typ, g.links) == g
  {
    SpliceNone(g.bytes, off);
  }

  /** No slot is free and the block map has no room for another. */
  predicate NoSlot(t: seq<Slot>) {
    |t| == CAPACITY / DIRSIZE && forall k: nat :: k < |t| ==> Live(t[k])
  }

  /** The volume is full, and before the call it had room for an indirect block at most. */
  twostate predicate RanOut(s: Mount)
    reads s, s.freemap.v
  {
    Full(s.V()) && |FreeBlocks(old(s.V()))| <= 1
  }

  /** sfs_writedir: the slot is written or nothing changes; overwriting a live slot cannot
      fail, and there are no partial entries. It fails only when the volume is full or the slot is
      past the end of the block map. */
  method WriteDir(s: Mount, d: Slot, slot: nat) returns (e: Errno)
    requires DirReadable(s) && slot <= |Slots(Root(s))| && |d.name| < NAMELEN
    modifies s`disk, s`cache, s`owner, s`mapDirty, s.freemap.v
    ensures s.Valid() && OnlyVnode(old(s.cache), s.cache, ROOT) && ROOT in s.files
    ensures e == OK ==> SlotWritten(old(Root(s)), Root(s), slot, d)
    ensures e == OK ==> s.Files() == old(s.Files())[ROOT := Root(s)]
    ensures e != OK ==> s.Files() == old(s.Files()) && (e == ENOSPC || e == EINVAL)
    ensures e == ENOSPC ==> RanOut(s)
    ensures e == EINVAL ==> slot == CAPACITY / DIRSIZE
    ensures slot < |old(Slots(Root(s)))| && Live(old(Slots(Root(s)))[slot]) ==> e == OK
  {
    hide Slots, FilesOf, EncodeSlot, Full, FileOf, Target, DataRef, AfterWrite, SlotWritten, Mount.Valid;
    hide IoResult, OnlyFilled, FreeBlocks, Mount.V;
    ghost var v := s.V();
    s.InvOf();
    s.Sizes();
    s.InMemory(ROOT);
    RootIs(s);
    if slot < |Slots(Root(s))| { LiveMapped(v, slot); }
    ghost var end;
    e, end := WriteEntry(s, EncodeSlot(d), slot * DIRSIZE);
    s.InMemory(ROOT);
    if e == ENOSPC { SlotNoSpace(s, v, old(s.owner), slot, end); }
    WriteOutcome(e, v, s.V(), old(s.Files()), s.Files(), slot, end, d);
  }

  method WriteEntry(s: Mount, sd: seq<Byte>, off: nat) returns (e: Errno, ghost end: nat)
    requires s.Valid() && ROOT in s.cache && ROOT in s.files && |sd| == DIRSIZE && off <= CAPACITY
    modifies s`disk, s`cache, s`owner, s`mapDirty, s.freemap.v
    ensures s.Valid() && OnlyVnode(old(s.cache), s.cache, ROOT)
    ensures IoResult(e, Write, ROOT, off, DIRSIZE, end, old(s.V()), s.V()) && (off < end ==> end <= CAPACITY)
    ensures OnlyFilled(old(s.V()), s.V(), s.files, ROOT, off, DIRSIZE)
    ensures s.Files() == AfterWrite(old(s.Files()), ROOT, off, sd[..end - off])
  {
    hide FilesOf, Full, FileOf, Target, DataRef, AfterWrite, Mount.Valid, Mount.V;
    var buf := new Byte[DIRSIZE](i requires 0 <= i < DIRSIZE => sd[i]);
    assert buf[..] == sd;
    var ku := new Uio(buf, DIRSIZE, off, Write);
    e := s.WriteIo(ROOT, ku);
    end := ku.offset;
    assert sd[0..end - off] == sd[..end - off];
  }

  lemma SlotNoSpace(s: Mount, v: Vol, owner: map<nat, Ref>, slot: nat, end: nat)
    requires s.Valid() && Inv(v, s.files, owner) && v.nblocks == s.nblocks && |v.used| == 8 * s.freemap.v.Length
    requires IoResult(ENOSPC, Write, ROOT, slot * DIRSIZE, DIRSIZE, end, v, s.V())
    requires OnlyFilled(v, s.V(), s.files, ROOT, slot * DIRSIZE, DIRSIZE)
    ensures Full(s.V()) && |FreeBlocks(v)| <= 1
  {
    hide Inv, OnlyFilled, Full, Target, DataRef;
    s.InvOf();
    s.Sizes();
    NoSpace(v, s.V(), s.files, owner, s.owner, ROOT, slot * DIRSIZE, DIRSIZE);
  }

  lemma WriteOutcome(e: Errno, v: Vol, w: Vol, fs: map<nat, File>, fs': map<nat, File>, slot: nat, end: nat, d: Slot)
    requires IoResult(e, Write, ROOT, slot * DIRSIZE, DIRSIZE, end, v, w) && |d.name| < NAMELEN
    requires ROOT in fs && RootInv(fs[ROOT]) && slot <= |Slots(fs[ROOT])|
    requires fs' == AfterWrite(fs, ROOT, slot * DIRSIZE, EncodeSlot(d)[..end - slot * DIRSIZE])
    requires |fs'[ROOT].bytes| == CAPACITY && (slot * DIRSIZE < end ==> end <= CAPACITY)
    ensures e == OK ==> SlotWritten(fs[ROOT], fs'[ROOT], slot, d) && fs' == fs[ROOT := fs'[ROOT]]
    ensures e != OK ==> fs' == fs && (e == ENOSPC || e == EINVAL)
    ensures e == EINVAL ==> slot == CAPACITY / DIRSIZE
    ensures Target(v, DataRef(ROOT, slot * DIRSIZE / BLOCKSIZE)) != 0 ==> e == OK
  {
    hide Slots, DecodeSlot, EncodeSlot, Splice, Full, Target, DataRef, UniqueNames;
    var sd, off := EncodeSlot(d), slot * DIRSIZE;
    if e == OK {
      assert sd[..DIRSIZE] == sd;
      SlotRoundTrip(d);
      WriteSlot(fs[ROOT], fs'[ROOT], slot, sd);
    } else {
      assert end == off && sd[..0] == [];
      NothingWritten(fs[ROOT], off);
      assert fs[ROOT := fs[ROOT]] == fs;
    }
  }

  lemma RootIs(s: Mount)
    requires ROOT in s.files
    ensures Root(s) == FileOf(s.V(), ROOT)
  {
  }

  /** sfs_dir_findname: the slot of a name, and the last free slot. The check that a name
      occurs only once never fails. */
  method FindName(s: Mount, name: Name) returns (slot: int, ino: nat, emptyslot: int)
    requires DirReadable(s)
    modifies s`disk, s`cache, s`owner, s`mapDirty, s.freemap.v
    ensures DirReadable(s) && s.V() == old(s.V())
    ensures -1 <= slot < |Slots(Root(s))| && -1 <= emptyslot < |Slots(Root(s))|
    ensures slot >= 0 ==> var d := Slots(Root(s))[slot]; Live(d) && d.name == name && d.ino == ino
    ensures slot < 0 ==> FreshName(Slots(Root(s)), name)
    ensures emptyslot >= 0 ==> !Live(Slots(Root(s))[emptyslot])
    ensures emptyslot < 0 ==> forall k: nat :: k < |Slots(Root(s))| ==> Live(Slots(Root(s))[k])
  {
    hide Slots, FilesOf, FileOf, Mount.Valid;
    slot, ino, emptyslot := -1, 0, -1;
    var nentries := NEntries(s);
    ghost var t := Slots(Root(s));
    var i := 0;
    while i < nentries
      invariant i <= nentries == |t| && DirReadable(s) && s.V() == old(s.V()) && Slots(Root(s)) == t
      invariant -1 <= slot < i && -1 <= emptyslot < i
      invariant slot >= 0 ==> Live(t[slot]) && t[slot].name == name && t[slot].ino == ino
      invariant slot < 0 ==> forall k: nat :: k < i && Live(t[k]) ==> t[k].name != name
      invariant emptyslot >= 0 ==> !Live(t[emptyslot])
      invariant emptyslot < 0 ==> forall k: nat :: k < i ==> Live(t[k])
    {
      var e := ReadDir(s, i);
      var tsd := DecodeSlot(e);
      if tsd.ino == 0 {
        emptyslot := i;
      } else if tsd.name == name {
        assert slot < 0;
        slot, ino := i, tsd.ino;
      }
      i := i + 1;
    }
  }

  lemma SlotsBounded(g: File)
    requires RootInv(g)
    ensures |Slots(g)| <= CAPACITY / DIRSIZE
  {
  }

  /** sfs_dir_nentries; the checks on the directory's type and size never fail. */
  method NEntries(s: Mount) returns (n: nat)
    requires DirReadable(s)
    ensures n == |Slots(Root(s))|
  {
    hide Slots, FilesOf;
    s.InMemory(ROOT);
    var size := s.cache[ROOT].inode.size;
    assert s.cache[ROOT].inode.typ == TYPE_DIR && size % DIRSIZE == 0;
    n := size / DIRSIZE;
  }

  /** sfs_dir_link: add an entry for `ino` under a name that must be new. */
  method DirLink(s: Mount, name: Name, ino: Word) returns (e: Errno, slot: nat)
    requires DirReadable(s) && ino != 0
    modifies s`disk, s`cache, s`owner, s`mapDirty, s.freemap.v
    ensures s.Valid() && OnlyVnode(old(s.cache), s.cache, ROOT) && ROOT in s.files
    ensures e == OK ==>
      && SlotWritten(old(Root(s)), Root(s), slot, Slot(ino, name))
      && s.Files() == old(s.Files())[ROOT := Root(s)]
      && FreshName(old(Slots(Root(s))), name)
      && (slot < |old(Slots(Root(s)))| ==> !Live(old(Slots(Root(s)))[slot]))
    ensures e != OK ==> s.Files() == old(s.Files())
    ensures !FreshName(old(Slots(Root(s))), name) ==> e == EEXIST
    ensures FreshName(old(Slots(Root(s))), name) ==>
      && (e == ENAMETOOLONG <==> |name| + 1 > NAMELEN)
      && (e == OK || e == ENAMETOOLONG || (e == ENOSPC && RanOut(s)) || (e == EINVAL && NoSlot(old(Slots(Root(s))))))
  {
    hide Slots, FilesOf, FileOf, Mount.Valid, RootInv, SlotWritten, FreeBlocks;
    SlotsBounded(Root(s));
    var found, other, emptyslot := FindName(s, name);
    slot := 0;
    if found >= 0 {
      return EEXIST, 0;
    }
    if |name| + 1 > NAMELEN {
      return ENAMETOOLONG, 0;
    }
    if emptyslot < 0 {
      emptyslot := NEntries(s);
    }
    slot := emptyslot;
    e := WriteDir(s, Slot(ino, name), slot);
  }

  /** sfs_dir_unlink of a live slot cannot fail. */
  method DirUnlink(s: Mount, slot: nat)
    requires DirReadable(s) && slot < |Slots(Root(s))| && Live(Slots(Root(s))[slot])
    modifies s`disk, s`cache, s`owner, s`mapDirty, s.freemap.v
    ensures s.Valid() && OnlyVnode(old(s.cache), s.cache, ROOT) && ROOT in s.files
    ensures SlotWritten(old(Root(s)), Root(s), slot, Slot(0, []))
    ensures s.Files() == old(s.Files())[ROOT := Root(s)]
  {
    hide Slots, FilesOf, FileOf, Mount.Valid, RootInv, SlotWritten;
    var e := WriteDir(s, Slot(0, []), slot);
  }

  /** The count of links in memory is the one users see. */
  ghost predicate Loaded(s: Mount, f: nat)
    reads s, s.freemap.v
  {
    f in s.cache && f in s.files && s.cache[f].inode.links == s.Files()[f].links && s.cache[f].refs > 0
  }

  lemma RootReady(s: Mount)
    requires Ready(s)
    ensures DirReadable(s) && UniqueNames(Slots(Root(s))) && SlotsOf(s.Files()) == Slots(Root(s))
  {
    hide FilesOf;
  }

  /** One more entry and one more link for the loaded file `f`. */
  method AddLink(s: Mount, name: Name, f: Word) returns (e: Errno, slot: nat)
    requires Ready(s) && Loaded(s, f) && f != ROOT && f != 0
    modifies s`disk, s`cache, s`owner, s`mapDirty, s.freemap.v
    ensures Ready(s) && SameRefs(old(s.cache), s.cache)
    ensures e == OK ==> EntryAdded(old(s.Files()), s.Files(), Slot(f, name), slot)
    ensures Loaded(s, f) && (e == OK ==> s.cache[f].inode.links > 0)
    ensures e != OK ==> s.Files() == old(s.Files())
    ensures name in old(NamesOf(s.Files())) ==> e == EEXIST
    ensures name !in old(NamesOf(s.Files())) ==>
      && (e == ENAMETOOLONG <==> |name| + 1 > NAMELEN)
      && (e == OK || e == ENAMETOOLONG || (e == ENOSPC && RanOut(s))
          || (e == EINVAL && NoSlot(old(SlotsOf(s.Files())))))
  {
    hide Slots, FilesOf, FileOf, Mount.Valid, NameMap, UniqueNames, SlotWritten, EntryAdded, DirInv, RootInv, SlotsOf;
    RootReady(s);
    ghost var fs, t := s.Files(), SlotsOf(s.Files());
    NamesFresh(t, name);
    LinksBounded(fs, s.cache.Keys, f);
    e, slot := DirLink(s, name, f);
    if e != OK { return; }
    ghost var h := Root(s);
    LinkInv(fs, s.cache.Keys, h, slot, Slot(f, name));
    s.InMemory(f);
    s.SetLinks(f, s.cache[f].inode.links + 1);
  }

  ghost predicate SameRefs(c: map<nat, Vnode>, d: map<nat, Vnode>) {
    d.Keys == c.Keys && forall f :: f in c ==> d[f].refs == c[f].refs
  }

  /** Free a live slot and lower the link count of its loaded file. */
  method DropLink(s: Mount, slot: nat, f: nat)
    requires Ready(s) && Loaded(s, f)
    requires slot < |SlotsOf(s.Files())| && Live(SlotsOf(s.Files())[slot]) && SlotsOf(s.Files())[slot].ino == f
    modifies s`disk, s`cache, s`owner, s`mapDirty, s.freemap.v
    ensures Ready(s) && SameRefs(old(s.cache), s.cache) && Loaded(s, f)
    ensures EntryFreed(old(s.Files()), s.Files(), slot)
    ensures s.cache[f].inode.links == old(s.cache[f].inode.links) - 1
  {
    hide Slots, FilesOf, FileOf, Mount.Valid, NameMap, UniqueNames, SlotWritten, EntryFreed;
    ghost var fs := s.Files();
    NamedFile(fs, s.cache.Keys, slot);
    DirUnlink(s, slot);
    ghost var h := Root(s);
    UnlinkInv(fs, s.cache.Keys, h, slot);
    s.InMemory(f);
    s.SetLinks(f, s.cache[f].inode.links - 1);
  }

  /** sfs_lookonce: find a name and load its file; `mem` says whether there is memory for a new
      vnode. The check that the file has links never fails. */
  method LookOnce(s: Mount, name: Name, mem: bool) returns (e: Errno, f: nat, slot: nat)
    requires Ready(s)
    modifies s`disk, s`cache, s`table, s`owner, s`mapDirty, s.freemap.v
    ensures Ready(s) && s.Files() == old(s.Files())
    ensures e == var names := old(NamesOf(s.Files()));
      if name !in names then ENOENT else if mem || names[name] in old(s.cache) then OK else ENOMEM
    ensures e != OK ==> s.cache == old(s.cache)
    ensures forall r: Ref :: Target(s.V(), r) == old(Target(s.V(), r))
    ensures s.V().used == old(s.V().used)
    ensures e == OK ==>
      && f == old(NamesOf(s.Files()))[name] && f != ROOT && 0 < f < WORD && Loaded(s, f) && s.cache[f].inode.links > 0
      && slot < |SlotsOf(s.Files())| && SlotsOf(s.Files())[slot] == Slot(f, name)
      && s.cache.Keys == old(s.cache.Keys) + {f} && KeepsOthers(old(s.cache), s.cache, f)
      && s.cache[f].refs == (if f in old(s.cache) then old(s.cache[f].refs) else 0) + 1
  {
    hide Slots, FilesOf, FileOf, Mount.Valid, NameMap;
    ghost var fs := s.Files();
    var found, ino, empty := FindName(s, name);
    f, slot := ino, 0;
    NamesFresh(SlotsOf(fs), name);
    if found < 0 {
      return ENOENT, 0, 0;
    }
    slot := found;
    NameMapAt(SlotsOf(fs), slot);
    NamedFile(fs, s.cache.Keys, slot);
    hide UniqueNames;
    e := s.LoadVnode(ino, mem);
    if e != OK { return; }
    LoadInv(fs, old(s.cache.Keys), s.cache.Keys);
    s.InMemory(ino);
    assert s.cache[ino].inode.links != 0;
  }

  // ---------------------------------------------------------------- vnode operations

  /** Giving up a reference to a file keeps the directory invariant. */
  method Release(s: Mount, f: nat)
    requires Ready(s) && Loaded(s, f) && f != ROOT
    modifies s`disk, s`cache, s`table, s`files, s`owner, s`mapDirty, s.freemap.v
    ensures Ready(s) && KeepsOthers(old(s.cache), s.cache, f)
    ensures if old(s.cache[f].refs) == 1 && old(s.Files()[f].links) == 0 then s.Files() == old(s.Files()) - {f}
            else s.Files() == old(s.Files())
    ensures if old(s.cache[f].refs) == 1 then f !in s.cache
            else f in s.cache && s.cache[f].refs == old(s.cache[f].refs) - 1
  {
    hide Slots, FilesOf, FileOf, Mount.Valid, NameMap, UniqueNames, RootInv;
    ghost var fs, loaded := s.Files(), s.cache.Keys;
    assert fs[f].links == 0 ==> f in fs;
    s.Decref(f);
    if old(s.cache[f].refs) == 1 {
      assert s.cache.Keys == loaded - {f};
      if fs[f].links == 0 {
        EraseInv(fs, loaded, f);
      } else {
        UnloadInv(fs, loaded, f);
      }
    } else {
      assert s.cache.Keys == loaded;
    }
  }

  /** sfs_creat; `mem` says whether there is memory for a new vnode. A failed creation leaves
      every file as it was: the inode block taken for the new file has been given back, except
      when there was no memory, and then it is lost. */
  method Creat(s: Mount, name: Name, excl: bool, mem: bool) returns (e: Errno, f: nat)
    requires Ready(s)
    modifies s`disk, s`cache, s`table, s`files, s`owner, s`mapDirty, s.freemap.v
    ensures mem || name in old(NamesOf(s.Files())) || e == ENOSPC ==> Ready(s)
    ensures name in old(NamesOf(s.Files())) ==>
      && s.Files() == old(s.Files())
      && var g := old(NamesOf(s.Files()))[name];
      && e == (if excl then EEXIST else if mem || g in old(s.cache) then OK else ENOMEM)
      && (e == OK ==> f == g && f in s.cache)
    ensures name !in old(NamesOf(s.Files())) && !mem ==> e == ENOSPC || (e == ENOMEM && BlockLost(s))
    ensures name !in old(NamesOf(s.Files())) && mem ==>
      && (e == ENAMETOOLONG ==> |name| + 1 > NAMELEN) && (e == OK ==> |name| + 1 <= NAMELEN)
      && (e == OK || e == ENAMETOOLONG || (e == ENOSPC && |FreeBlocks(old(s.V()))| <= 2)
          || (e == EINVAL && NoSlot(old(SlotsOf(s.Files())))))
    ensures name !in old(NamesOf(s.Files())) && e == OK ==>
      && f !in old(s.files) && f in s.cache
      && NamesOf(s.Files()) == old(NamesOf(s.Files()))[name := f]
      && s.Files() == old(s.Files())[ROOT := RootOf(s.Files())][f := File(seq(CAPACITY, _ => 0), 0, TYPE_FILE, 1)]
    ensures e != OK ==> s.Files() == old(s.Files())
  {
    hide Slots, FilesOf, FileOf, Mount.Valid, NameMap, UniqueNames, RootInv;
    ghost var fs := s.Files();
    RootReady(s);
    var found, ino, empty := FindName(s, name);
    f := ino;
    NamesFresh(SlotsOf(fs), name);
    if found >= 0 {
      NameMapAt(SlotsOf(fs), found);
      if excl {
        return EEXIST, 0;
      }
      NamedFile(fs, s.cache.Keys, found);
      e := s.LoadVnode(ino, mem);
      LoadInv(fs, old(s.cache.Keys), s.cache.Keys);
      return e, ino;
    }
    e, f := NewFile(s, name, mem);
  }

  function RootOf(fs: map<nat, File>): File {
    if ROOT in fs then fs[ROOT] else File([], 0, 0, 0)
  }

  /** Whatever files there are taken to be and whoever is taken to own the blocks, the free map
      and the directory are not both right. */
  ghost predicate BlockLost(s: Mount)
    reads s, s.freemap.v
  {
    forall gs, own :: !(Inv(s.V(), gs, own) && DirInv(FilesOf(s.V(), gs), s.cache.Keys))
  }

  /** The part of sfs_creat for a name that is not there. */
  method NewFile(s: Mount, name: Name, mem: bool) returns (e: Errno, f: nat)
    requires Ready(s) && name !in NamesOf(s.Files())
    modifies s`disk, s`cache, s`table, s`files, s`owner, s`mapDirty, s.freemap.v
    ensures mem || e == ENOSPC ==> Ready(s)
    ensures !mem ==> e == ENOSPC || (e == ENOMEM && BlockLost(s))
    ensures mem ==>
      && (e == ENAMETOOLONG ==> |name| + 1 > NAMELEN) && (e == OK ==> |name| + 1 <= NAMELEN)
      && (e == OK || e == ENAMETOOLONG || (e == ENOSPC && |FreeBlocks(old(s.V()))| <= 2)
          || (e == EINVAL && NoSlot(old(SlotsOf(s.Files())))))
    ensures e == OK ==>
      && f !in old(s.files) && f in s.cache
      && NamesOf(s.Files()) == old(NamesOf(s.Files()))[name := f]
      && s.Files() == old(s.Files())[ROOT := RootOf(s.Files())][f := File(seq(CAPACITY, _ => 0), 0, TYPE_FILE, 1)]
    ensures e != OK ==> s.Files() == old(s.Files())
  {
    hide Slots, FilesOf, FileOf, Mount.Valid, NameMap, UniqueNames, RootInv, DirInv, FreeBlocks, Full, NoSlot;
    ghost var fs := s.Files();
    e, f := MakeFile(s, mem);
    if e != OK { return; }
    ghost var fs1 := s.Files();
    var slot;
    e, slot := AddLink(s, name, f);
    if e != OK {
      Release(s, f);
      assert fs1 - {f} == fs;
    } else {
      NewFileLinked(fs, fs1, s.Files(), name, f, slot);
    }
  }

  /** A new regular file without a name, which lives as long as its vnode. */
  method MakeFile(s: Mount, mem: bool) returns (e: Errno, f: nat)
    requires Ready(s)
    modifies s`disk, s`cache, s`table, s`files, s`owner, s`mapDirty, s.freemap.v
    ensures e == OK || e == ENOSPC || e == ENOMEM
    ensures if mem then e != ENOMEM else e != OK
    ensures e == ENOMEM ==> BlockLost(s) && s.Files() == old(s.Files())
    ensures e == ENOSPC ==> Ready(s) && s.Files() == old(s.Files()) && |FreeBlocks(old(s.V()))| == 0
    ensures e == OK ==>
      && Ready(s) && Loaded(s, f) && 0 < f < WORD && f != ROOT && f !in old(s.files) && s.cache[f].refs == 1
      && ROOT in old(s.files) && s.Files() == old(s.Files())[f := File(seq(CAPACITY, _ => 0), 0, TYPE_FILE, 0)]
      && SlotsOf(s.Files()) == old(SlotsOf(s.Files())) && NamesOf(s.Files()) == old(NamesOf(s.Files()))
      && |FreeBlocks(old(s.V()))| <= |FreeBlocks(s.V())| + 1
  {
    hide Slots, FilesOf, FileOf, Mount.Valid, NameMap, UniqueNames, RootInv, DirInv, FreeBlocks, Full;
    ghost var fs, loaded, v := s.Files(), s.cache.Keys, s.V();
    RootReady(s);
    e, f := s.MakeObj(TYPE_FILE, mem);
    if e == ENOMEM { return; }
    if e != OK {
      SameKeys(s, old(s.cache));
      FullNone(v);
      return;
    }
    OneFewer(FreeBlocks(v), FreeBlocks(s.V()), f);
    ghost var fs1 := s.Files();
    NewFileInv(fs, loaded, f, fs1[f]);
    assert s.cache.Keys == loaded + {f};
    s.InMemory(f);
    SameDirectory(fs, fs1);
  }

  lemma OneFewer(a: set<nat>, b: set<nat>, x: nat)
    requires b == a - {x}
    ensures |a| <= |b| + 1
  {
    if x in a { assert a == b + {x}; } else { assert a == b; }
  }

  lemma SameKeys(s: Mount, c: map<nat, Vnode>)
    requires s.cache == c
    ensures s.cache.Keys == c.Keys
  {
  }

  lemma SameDirectory(fs: map<nat, File>, fs': map<nat, File>)
    requires ROOT in fs && ROOT in fs' && fs'[ROOT] == fs[ROOT]
    ensures SlotsOf(fs') == SlotsOf(fs) && NamesOf(fs') == NamesOf(fs)
  {
  }

  lemma NewFileLinked(fs: map<nat, File>, fs1: map<nat, File>, fs2: map<nat, File>, name: Name, f: Word, slot: nat)
    requires ROOT in fs && f !in fs && fs1 == fs[f := File(seq(CAPACITY, _ => 0), 0, TYPE_FILE, 0)]
    requires EntryAdded(fs1, fs2, Slot(f, name), slot)
    ensures NamesOf(fs2) == NamesOf(fs)[name := f]
    ensures fs2 == fs[ROOT := RootOf(fs2)][f := File(seq(CAPACITY, _ => 0), 0, TYPE_FILE, 1)]
  {
    hide SlotsOf, NameMap;
    SameDirectory(fs, fs1);
  }

  /** sfs_link: another name for a loaded regular file. */
  method Link(s: Mount, name: Name, f: Word) returns (e: Errno)
    requires Ready(s) && Loaded(s, f) && f != ROOT && f != 0
    modifies s`disk, s`cache, s`owner, s`mapDirty, s.freemap.v
    ensures Ready(s) && SameRefs(old(s.cache), s.cache)
    ensures e == OK ==>
      && NamesOf(s.Files()) == old(NamesOf(s.Files()))[name := f] && name !in old(NamesOf(s.Files()))
      && s.Files() == Relinked(old(s.Files())[ROOT := RootOf(s.Files())], f, 1)
    ensures e != OK ==> s.Files() == old(s.Files())
    ensures name in old(NamesOf(s.Files())) ==> e == EEXIST
    ensures name !in old(NamesOf(s.Files())) ==>
      && (e == ENAMETOOLONG <==> |name| + 1 > NAMELEN)
      && (e == OK || e == ENAMETOOLONG || (e == ENOSPC && RanOut(s))
          || (e == EINVAL && NoSlot(old(SlotsOf(s.Files())))))
  {
    hide SlotsOf, NameMap, Ready, PutSlot;
    var slot;
    e, slot := AddLink(s, name, f);
  }

  /** sfs_remove: the name goes; the file goes with its last name unless it is in use. */
  method Remove(s: Mount, name: Name, mem: bool) returns (e: Errno)
    requires Ready(s)
    modifies s`disk, s`cache, s`table, s`files, s`owner, s`mapDirty, s.freemap.v
    ensures Ready(s)
    ensures e == var names := old(NamesOf(s.Files()));
      if name !in names then ENOENT else if mem || names[name] in old(s.cache) then OK else ENOMEM
    ensures e != OK ==> s.Files() == old(s.Files())
    ensures e == OK ==>
      && NamesOf(s.Files()) == old(NamesOf(s.Files())) - {name}
      && var f := old(NamesOf(s.Files()))[name];
      && var fs' := Relinked(old(s.Files())[ROOT := RootOf(s.Files())], f, -1);
      && f in fs' && s.Files() == if fs'[f].links == 0 && f !in old(s.cache) then fs' - {f} else fs'
  {
    hide Slots, FilesOf, FileOf, Mount.Valid, NameMap, UniqueNames, RootInv, DirInv, SlotsOf;
    ghost var fs := s.Files();
    var victim, slot;
    e, victim, slot := LookOnce(s, name, mem);
    if e != OK { return; }
    DropLink(s, slot, victim);
    ghost var fs1 := s.Files();
    Release(s, victim);
    RemovedNames(fs, fs1, s.Files(), slot, victim);
  }

  lemma RemovedNames(fs: map<nat, File>, fs1: map<nat, File>, fs2: map<nat, File>, slot: nat, f: nat)
    requires EntryFreed(fs, fs1, slot) && SlotsOf(fs)[slot].ino == f
    requires fs2 == fs1 || fs2 == fs1 - {f}
    ensures NamesOf(fs2) == NamesOf(fs) - {SlotsOf(fs)[slot].name}
    ensures f in fs && f in fs1 && fs1 == Relinked(fs[ROOT := RootOf(fs2)], f, -1)
  {
    hide NameMap, PutSlot;
    assert fs2[ROOT] == fs1[ROOT];
    SameDirectory(fs1, fs2);
  }

  /** sfs_rename: the file keeps its link count and only the two names change, or nothing
      changes at all. The error recovery after a failed unlink is never needed. */
  method Rename(s: Mount, n1: Name, n2: Name, mem: bool) returns (e: Errno)
    requires Ready(s)
    modifies s`disk, s`cache, s`table, s`files, s`owner, s`mapDirty, s.freemap.v
    ensures Ready(s)
    ensures e == OK ==>
      && n1 in old(NamesOf(s.Files())) && n2 !in old(NamesOf(s.Files()))
      && NamesOf(s.Files()) == old(NamesOf(s.Files()))[n2 := old(NamesOf(s.Files()))[n1]] - {n1}
      && s.Files() == old(s.Files())[ROOT := RootOf(s.Files())]
    ensures e != OK ==> s.Files() == old(s.Files())
    ensures n1 !in old(NamesOf(s.Files())) ==> e == ENOENT
    ensures n1 in old(NamesOf(s.Files())) ==>
      var there := mem || old(NamesOf(s.Files()))[n1] in old(s.cache);
      && (e == ENOMEM <==> !there)
      && (there && n2 in old(NamesOf(s.Files())) ==> e == EEXIST)
      && (there && n2 !in old(NamesOf(s.Files())) ==>
            && (e == ENAMETOOLONG <==> |n2| + 1 > NAMELEN)
            && (e == OK || e == ENAMETOOLONG || (e == ENOSPC && |FreeBlocks(old(s.V()))| <= 1)
                || (e == EINVAL && NoSlot(old(SlotsOf(s.Files()))))))
  {
    hide Slots, FilesOf, FileOf, Mount.Valid, NameMap, UniqueNames, RootInv, DirInv, SlotsOf;
    ghost var fs := s.Files();
    var g1, slot1;
    e, g1, slot1 := LookOnce(s, n1, mem);
    if e != OK { return; }
    var slot2;
    e, slot2 := AddLink(s, n2, g1);
    if e != OK {
      Release(s, g1);
      return;
    }
    ghost var fs1 := s.Files();
    OldSlotStays(fs, fs1, slot1, slot2, n2, g1);
    DropLink(s, slot1, g1);
    ghost var fs2 := s.Files();
    Release(s, g1);
    RenamedNames(fs, fs1, fs2, slot1, slot2, n1, n2, g1);
  }

  lemma OldSlotStays(fs: map<nat, File>, fs1: map<nat, File>, slot1: nat, slot2: nat, n2: Name, f: Word)
    requires EntryAdded(fs, fs1, Slot(f, n2), slot2) && slot1 < |SlotsOf(fs)| && Live(SlotsOf(fs)[slot1])
    ensures slot1 < |SlotsOf(fs1)| && SlotsOf(fs1)[slot1] == SlotsOf(fs)[slot1]
  {
    hide SlotsOf, NamesOf;
  }

  lemma RenamedNames(fs: map<nat, File>, fs1: map<nat, File>, fs2: map<nat, File>,
                     slot1: nat, slot2: nat, n1: Name, n2: Name, f: Word)
    requires EntryAdded(fs, fs1, Slot(f, n2), slot2) && EntryFreed(fs1, fs2, slot1)
    requires SlotsOf(fs1)[slot1] == Slot(f, n1)
    ensures NamesOf(fs2) == NamesOf(fs)[n2 := f] - {n1}
    ensures fs2 == fs[ROOT := RootOf(fs2)] && f in fs2 && fs2[f].links == fs[f].links
  {
    hide SlotsOf, NamesOf, PutSlot;
    assert fs2[f] == fs[f];
  }

  /** sfs_getroot after mounting. */
  method GetRoot(s: Mount)
    requires s.Valid() && s.cache == map[] && DirInv(s.Files(), {})
    modifies s`cache, s`table
    ensures Ready(s) && s.Files() == old(s.Files()) && s.V().used == old(s.V().used)
    ensures forall r: Ref :: Target(s.V(), r) == old(Target(s.V(), r))
  {
    hide Slots, FilesOf, FileOf, Mount.Valid, NameMap, UniqueNames, RootInv;
    RootType(s.Files(), {});
    var e := s.LoadVnode(ROOT, true);
    LoadInv(s.Files(), {}, s.cache.Keys);
  }

  /** sfs_write on a regular file. */
  method WriteFile(s: Mount, f: nat, uio: Uio) returns (e: Errno)
    requires Ready(s) && f in s.cache && f != ROOT
    requires uio.Valid() && uio.rw == Write && uio.buf != s.freemap.v && uio.offset + uio.resid < WORD
    modifies s`disk, s`cache, s`owner, s`mapDirty, s.freemap.v, uio, uio.buf
    ensures Ready(s) && SameRefs(old(s.cache), s.cache) && f in old(s.files)
    ensures old(uio.offset) <= uio.offset <= old(uio.offset) + old(uio.resid)
    ensures e == OK ==> uio.resid == 0
    ensures e == OK || (e == ENOSPC && Full(s.V())) || (e == EINVAL && CAPACITY <= uio.offset)
    ensures WroteAs(old(s.Files())[f], s.Files()[f], old(uio.offset), uio.offset, old(uio.base), old(uio.buf[..]))
    ensures uio.resid == old(uio.resid) - (uio.offset - old(uio.offset))
    ensures s.Files() == AfterWrite(old(s.Files()), f, old(uio.offset),
                                    old(uio.buf[uio.base..])[..uio.offset - old(uio.offset)])
  {
    hide Slots, FilesOf, FileOf, Mount.Valid, DirInv, Full, Target, DataRef, WroteAs, OnlyFilled;
    ghost var fs := s.Files();
    s.InMemory(f);
    e := s.WriteIo(f, uio);
    ContentsInv(fs, s.cache.Keys, f, s.Files()[f]);
    assert s.Files() == fs[f := s.Files()[f]];
    ghost var m := uio.offset - old(uio.offset);
    assert old(uio.buf[uio.base..])[..m] == old(uio.buf[uio.base..uio.base + m]);
  }

  /** sfs_truncate on a regular file. */
  method TruncateFile(s: Mount, f: nat, len: Word)
    requires Ready(s) && f in s.cache && f != ROOT
    modifies s`disk, s`cache, s`owner, s`mapDirty, s.freemap.v
    ensures Ready(s) && SameRefs(old(s.cache), s.cache) && f in old(s.files)
    ensures s.Files() == old(s.Files())[f := Resized(old(s.Files())[f], (len + BLOCKSIZE - 1) / BLOCKSIZE, len)]
    ensures CutPlaces(old(s.V()), s.V(), s.files, f, (len + BLOCKSIZE - 1) / BLOCKSIZE, MAXBLOCKS)
    ensures s.Files()[f].size == len
    ensures forall p: nat :: p < CAPACITY && p < len ==> s.Files()[f].bytes[p] == old(s.Files())[f].bytes[p]
  {
    hide Slots, FilesOf, FileOf, Mount.Valid, DirInv, Target, CutPlaces;
    ghost var fs := s.Files();
    s.InMemory(f);
    s.Truncate(f, len);
    ContentsInv(fs, s.cache.Keys, f, s.Files()[f]);
  }

  /** sfs_fsync. */
  method SyncFile(s: Mount, f: nat)
    requires Ready(s) && f in s.cache
    modifies s`disk, s`cache
    ensures Ready(s) && s.Files() == old(s.Files()) && SameRefs(old(s.cache), s.cache)
  {
    hide Slots, FilesOf, FileOf, Mount.Valid, DirInv;
    s.SyncInode(f);
    assert s.cache.Keys == old(s.cache.Keys);
  }

  /** sfs_sync. */
  method SyncAll(s: Mount)
    requires Ready(s)
    modifies s`disk, s`cache, s`mapDirty
    ensures Ready(s) && s.Settled() && s.Files() == old(s.Files()) && SameRefs(old(s.cache), s.cache)
  {
    hide Slots, FilesOf, FileOf, Mount.Valid, DirInv, Mount.Settled;
    s.Sync();
  }

  /** The calls that can be made on a mounted volume. */
  datatype Op =
    | OpCreat(name: Name, excl: bool)
    | OpLink(name: Name, f: nat)
    | OpRemove(name: Name, mem: bool)
    | OpRename(n1: Name, n2: Name, mem: bool)
    | OpWrite(f: nat, off: nat, data: seq<Byte>)
    | OpTruncate(f: nat, len: Word)
    | OpClose(f: nat)
    | OpLookup(name: Name, mem: bool)
    | OpSync(f: nat)
    | OpSyncAll

  method Step(s: Mount, op: Op)
    requires Ready(s)
    modifies s`disk, s`cache, s`table, s`files, s`owner, s`mapDirty, s.freemap.v
    ensures Ready(s)
  {
    hide Slots, FilesOf, FileOf, Mount.Valid, DirInv, SlotsOf, NamesOf, AfterWrite, Relinked, Full;
    match op {
      case OpCreat(name, excl) => var e, f := Creat(s, name, excl, true);
      case OpRemove(name, mem) => var e := Remove(s, name, mem);
      case OpRename(n1, n2, mem) => var e := Rename(s, n1, n2, mem);
      case OpLink(name, f) =>
        if f in s.cache && f != ROOT {
          s.InMemory(f);
          NonZero(s, f);
          var e := Link(s, name, f);
        }
      case OpWrite(f, off, data) =>
        if f in s.cache && f != ROOT && off + |data| < WORD {
          var buf := new Byte[|data|](i requires 0 <= i < |data| => data[i]);
          var ku := new Uio(buf, |data|, off, Write);
          var e := WriteFile(s, f, ku);
        }
      case OpTruncate(f, len) =>
        if f in s.cache && f != ROOT { TruncateFile(s, f, len); }
      case OpClose(f) =>
        if f in s.cache && f != ROOT {
          s.InMemory(f);
          Release(s, f);
        }
      case OpLookup(name, mem) => var e, f, slot := LookOnce(s, name, mem);
      case OpSync(f) =>
        if f in s.cache { SyncFile(s, f); }
      case OpSyncAll => SyncAll(s);
    }
  }

  lemma NonZero(s: Mount, f: nat)
    requires s.Valid() && f in s.files
    ensures f != 0
  {
  }

  /** After any run of calls on a volume mksfs made, the invariant holds: every marked block
      has one owner, names are unique and link counts are right. */
  method Run(s: Mount, ops: seq<Op>)
    requires s.Valid() && s.cache == map[] && DirInv(s.Files(), {})
    modifies s`disk, s`cache, s`table, s`files, s`owner, s`mapDirty, s.freemap.v
    ensures Ready(s)
  {
    hide Mount.Valid, DirInv;
    GetRoot(s);
    for i := 0 to |ops|
      invariant Ready(s)
    {
      Step(s, ops[i]);
    }
  }
}
