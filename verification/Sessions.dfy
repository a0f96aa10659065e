/** What outlives a mount: src/kern/fs/sfs/sfs_fs.c over the operations of
    src/kern/fs/sfs/sfs_vnode.c and the image that src/sbin/mksfs/mksfs.c makes. */
module Sessions {
  import opened Basics
  import opened Codec
  import opened Volume
  import opened Bitmap
  import opened Sfs
  import opened Directory
  import opened SfsDir
  import opened Mksfs

  /** The files that have a link or are in memory. */
  function Surviving(fs: map<nat, File>, loaded: set<nat>): map<nat, File> {
    map f | f in fs && (fs[f].links > 0 || f in loaded) :: fs[f]
  }

  lemma AllSurvive(fs: map<nat, File>, loaded: set<nat>)
    requires DirInv(fs, loaded)
    ensures Surviving(fs, loaded) == fs && ROOT in fs && fs[ROOT].links == 1
  {
    hide Slots, UniqueNames;
  }

  /** The root directory, and so the names, do not depend on the files without links. */
  lemma SurvivingNames(fs: map<nat, File>, loaded: set<nat>)
    requires ROOT in fs && fs[ROOT].links > 0
    ensures NamesOf(Surviving(fs, loaded)) == NamesOf(fs)
  {
    SameDirectory(fs, Surviving(fs, loaded));
  }

  lemma OneUnloaded(fs: map<nat, File>, loaded: set<nat>, f: nat, gs: map<nat, File>)
    requires gs == Surviving(fs, loaded) && f in gs
    ensures f in fs && gs[f] == fs[f]
    ensures Surviving(fs, loaded - {f}) == if gs[f].links == 0 then gs - {f} else gs
  {
  }

  /** Every reference to `f` is given up. */
  method Close(s: Mount, f: nat)
    requires Ready(s) && f in s.cache && f != ROOT
    modifies s`disk, s`cache, s`table, s`files, s`owner, s`mapDirty, s.freemap.v
    ensures Ready(s) && s.cache.Keys == old(s.cache.Keys) - {f} && f in old(s.files)
    ensures s.Files() == if old(s.Files())[f].links == 0 then old(s.Files()) - {f} else old(s.Files())
  {
    hide Mount.Valid, DirInv, FilesOf, FileOf;
    s.InMemory(f);
    while f in s.cache
      invariant Ready(s) && KeepsOthers(old(s.cache), s.cache, f)
      invariant f in s.cache ==> s.Files() == old(s.Files())
      invariant f !in s.cache ==>
        s.Files() == if old(s.Files())[f].links == 0 then old(s.Files()) - {f} else old(s.Files())
      decreases if f in s.cache then s.cache[f].refs else 0
    {
      s.InMemory(f);
      Release(s, f);
    }
    assert s.cache.Keys == old(s.cache.Keys) - {f};
  }

  /** Some vnode in memory other than the root's. */
  method Another(s: Mount) returns (found: bool, f: nat)
    requires s.Valid() && ROOT in s.cache
    ensures found ==> f in s.cache && f != ROOT
    ensures !found ==> s.cache.Keys == {ROOT}
  {
    hide Inv, MetaStored;
    found, f := false, 0;
    var i := 0;
    while i < |s.table|
      invariant i <= |s.table| && forall k: nat :: k < i ==> s.table[k] == ROOT
    {
      if s.table[i] != ROOT { return true, s.table[i]; }
      i := i + 1;
    }
  }

  /** Everything is closed, the root directory last: the files with a link stay, and nothing
      else does. */
  method CloseAll(s: Mount)
    requires Ready(s)
    modifies s`disk, s`cache, s`table, s`files, s`owner, s`mapDirty, s.freemap.v
    ensures s.Valid() && s.cache == map[] && DirInv(s.Files(), {})
    ensures s.Files() == Surviving(old(s.Files()), {}) && NamesOf(s.Files()) == old(NamesOf(s.Files()))
  {
    hide Mount.Valid, DirInv, FilesOf, FileOf, Surviving, NamesOf;
    ghost var fs := s.Files();
    AllSurvive(fs, s.cache.Keys);
    var found, f := Another(s);
    while found
      invariant Ready(s) && s.Files() == Surviving(fs, s.cache.Keys)
      invariant found ==> f in s.cache && f != ROOT
      invariant !found ==> s.cache.Keys == {ROOT}
      decreases |s.cache.Keys|, found
    {
      s.InMemory(f);
      OneUnloaded(fs, s.cache.Keys, f, s.Files());
      ghost var before := s.cache.Keys;
      Close(s, f);
      assert |before| == |s.cache.Keys| + 1;
      found, f := Another(s);
    }
    AllSurvive(s.Files(), s.cache.Keys);
    CloseRoot(s);
    assert s.cache.Keys == {};
    RootSurvives(fs);
    SurvivingNames(fs, {});
  }

  lemma RootSurvives(fs: map<nat, File>)
    requires ROOT in fs && fs[ROOT].links > 0
    ensures Surviving(fs, {ROOT}) == Surviving(fs, {})
  {
  }

  method CloseRoot(s: Mount)
    requires Ready(s) && s.cache.Keys == {ROOT}
    modifies s`disk, s`cache, s`table, s`files, s`owner, s`mapDirty, s.freemap.v
    ensures s.Valid() && s.cache == map[] && DirInv(s.Files(), {}) && s.Files() == old(s.Files())
  {
    hide Mount.Valid, DirInv, FilesOf, FileOf;
    ghost var fs := s.Files();
    AllSurvive(fs, s.cache.Keys);
    while ROOT in s.cache
      invariant s.Valid() && s.Files() == fs && s.cache.Keys <= {ROOT}
      invariant ROOT in s.cache ==> s.cache[ROOT].refs > 0
      decreases if ROOT in s.cache then s.cache[ROOT].refs else 0
    {
      s.InMemory(ROOT);
      s.Decref(ROOT);
    }
    UnloadInv(fs, {ROOT}, ROOT);
    assert {ROOT} - {ROOT} == {} && s.cache.Keys == {};
  }

  /** The superblock tells the size of the volume. */
  predicate Labelled(super: Block, n: nat) {
    WordAt(super, 0) == MAGIC && WordAt(super, 1) == n
  }

  /** A device that holds a consistent volume with the files `fs`. */
  ghost predicate Holds(dev: seq<Block>, fs: set<nat>, own: map<nat, Ref>, m: map<nat, File>) {
    && MAPSTART + BitBlocks(|dev|) <= |dev| < WORD && Labelled(dev[0], |dev|)
    && Inv(Image(dev), fs, own) && FilesOf(Image(dev), fs) == m
  }

  lemma SettledHolds(s: Mount)
    requires s.Settled() && Labelled(s.super, s.nblocks)
    ensures |s.disk| == s.nblocks && s.disk[0] == s.super && Holds(s.disk, s.files, s.owner, s.Files())
  {
    hide Inv, FilesOf, Image;
  }

  /** Mounting a device that holds `m` shows `m`. */
  method MountAgain(dev: seq<Block>, ghost fs: set<nat>, ghost own: map<nat, Ref>, ghost m: map<nat, File>)
    returns (s: Mount)
    requires Holds(dev, fs, own, m)
    ensures fresh(s) && fresh(s.freemap) && fresh(s.freemap.v) && s.Valid() && s.cache == map[]
    ensures s.V() == Image(dev) && s.Files() == m
    ensures s.super == dev[0] && s.nblocks == |dev| && Labelled(s.super, s.nblocks)
  {
    hide Inv, FilesOf, Bits, MapBytes, WordAt;
    assert dev[..|dev|] == dev;
    var e, t := DoMount(dev, fs, own);
    s := t;
  }

  /** Closing everything, unmounting and mounting again: exactly the files with a link are there
      as they were, under the same names. */
  method Remount(s: Mount) returns (t: Mount)
    requires Ready(s) && Labelled(s.super, s.nblocks)
    modifies s`disk, s`cache, s`table, s`files, s`owner, s`mapDirty, s.freemap.v
    ensures fresh(t) && fresh(t.freemap) && fresh(t.freemap.v) && Ready(t) && Labelled(t.super, t.nblocks)
    ensures t.Files() == Surviving(old(s.Files()), {}) && NamesOf(t.Files()) == old(NamesOf(s.Files()))
  {
    hide Mount.Valid, DirInv, FilesOf, Holds, NamesOf, Surviving, Mount.Settled;
    CloseAll(s);
    var e := s.Unmount();
    assert e == OK;
    SettledHolds(s);
    t := MountAgain(s.disk, s.files, s.owner, s.Files());
    GetRoot(t);
  }

  /** After sfs_sync the device can be taken away with files still in use: a later mount finds
      every file as it was, and its directory is right just when every file has a link. */
  method TakenAway(s: Mount) returns (t: Mount)
    requires Ready(s) && Labelled(s.super, s.nblocks)
    modifies s`disk, s`cache, s`mapDirty
    ensures fresh(t) && t.Valid() && t.cache == map[] && t.Files() == old(s.Files()) == s.Files()
    ensures DirInv(t.Files(), {}) <==> forall f :: f in t.Files() ==> t.Files()[f].links > 0
  {
    hide Mount.Valid, DirInv, FilesOf, Holds, Mount.Settled;
    SyncAll(s);
    SettledHolds(s);
    t := MountAgain(s.disk, s.files, s.owner, s.Files());
    NoOrphans(s.Files(), s.cache.Keys);
  }

  lemma NoOrphans(fs: map<nat, File>, loaded: set<nat>)
    requires DirInv(fs, loaded)
    ensures DirInv(fs, {}) <==> forall f :: f in fs ==> fs[f].links > 0
  {
    hide Slots, UniqueNames;
  }

  /** On a volume just made, with three blocks to spare, the first file can be created. */
  method FirstFile(dev: seq<Block>, volname: Name, name: Name) returns (s: Mount, f: nat)
    requires MAPSTART + BitBlocks(|dev|) + 3 <= |dev| < WORD
    requires |volname| < VOLNAMESIZE && BitBlocks(|dev|) <= MAXBITBLOCKS && |name| < NAMELEN
    ensures fresh(s) && fresh(s.freemap) && fresh(s.freemap.v) && Ready(s)
    ensures NamesOf(s.Files()) == map[name := f] && f in s.files && s.Files()[f].size == 0
  {
    hide Inv, DirInv, FilesOf, NamesOf, Bits, Image, VolName, WordAt, Mount.Valid, Mount.Settled, FreeBlocks;
    var ok, img := Format(dev, volname);
    ghost var m := FilesOf(Image(img), {ROOT});
    s := MountAgain(img, {ROOT}, map[ROOT := InodeRef(ROOT)], m);
    GetRoot(s);
    FewSlots(s.Files());
    SameFree(s.V(), Image(img));
    var e;
    e, f := Creat(s, name, true, true);
  }

  /** A directory without names has a slot to spare. */
  lemma FewSlots(fs: map<nat, File>)
    requires NamesOf(fs) == map[]
    ensures !NoSlot(SlotsOf(fs))
  {
    if NoSlot(SlotsOf(fs)) {
      var t := SlotsOf(fs);
      assert Live(t[|t| - 1]) && t[|t| - 1].name in NameMap(t);
      assert false;
    }
  }

  lemma SameFree(v: Vol, w: Vol)
    requires v.used == w.used
    ensures FreeBlocks(v) == FreeBlocks(w)
  {
  }

  /** Make a file system on a device, and then any number of times mount it, make any calls, close
      everything and unmount it. The first mount finds the root directory only, and every later
      one exactly the files with links that the calls before it left; the invariant holds all
      along. */
  method Sessions(dev: seq<Block>, name: Name, runs: seq<seq<Op>>)
    returns (ok: bool, img: seq<Block>, ghost found: seq<map<nat, File>>, ghost left: seq<map<nat, File>>)
    requires MAPSTART + BitBlocks(|dev|) <= |dev| < WORD
    ensures ok <==> |name| < VOLNAMESIZE && BitBlocks(|dev|) <= MAXBITBLOCKS
    ensures ok ==>
      && |img| == |dev| && VolName(img[0]) == name && |found| == |runs| + 1 && |left| == |runs|
      && found[0].Keys == {ROOT} && NamesOf(found[0]) == map[]
      && (forall i: nat :: i < |runs| ==> found[i + 1] == Surviving(left[i], {}))
      && (forall i: nat :: i <= |runs| ==> DirInv(found[i], {}))
      && exists fs: set<nat>, own: map<nat, Ref> :: Holds(img, fs, own, found[|runs|])
  {
    hide Inv, DirInv, FilesOf, NamesOf, Bits, Image, VolName, WordAt, Mount.Valid, Mount.Settled, Surviving;
    ok, img := Format(dev, name);
    found, left := [], [];
    if !ok { return; }
    ghost var fs: set<nat>, own: map<nat, Ref> := {ROOT}, map[ROOT := InodeRef(ROOT)];
    found := [FilesOf(Image(img), fs)];
    var k := 0;
    while k < |runs|
      invariant k <= |runs| && |found| == k + 1 && |left| == k && |img| == |dev| && VolName(img[0]) == name
      invariant Holds(img, fs, own, found[k]) && found[0].Keys == {ROOT} && NamesOf(found[0]) == map[]
      invariant forall i: nat :: i < k ==> found[i + 1] == Surviving(left[i], {})
      invariant forall i: nat :: i <= k ==> DirInv(found[i], {})
    {
      var s := MountAgain(img, fs, own, found[k]);
      Run(s, runs[k]);
      left := left + [s.Files()];
      CloseAll(s);
      var e := s.Unmount();
      SettledHolds(s);
      img, fs, own, found := s.disk, s.files, s.owner, found + [s.Files()];
      k := k + 1;
    }
  }
}
