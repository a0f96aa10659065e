/** The root directory of SFS as a list of slots, on values. */
module Directory {
  import opened Codec
  import opened Volume
  import opened UserIo

  const DIRSIZE: nat := 64
  const NAMELEN: nat := 60

  /** A string as C sees it: no NUL inside. */
  type Name = s: seq<Byte> | forall i :: 0 <= i < |s| ==> s[i] != 0

  /** A slot; inode number 0 (SFS_NOINO) marks it free. */
  datatype Slot = Slot(ino: Word, name: Name)

  predicate Live(e: Slot) { e.ino != 0 }

  // ---------------------------------------------------------------- codec

  /** The C string at the start of a buffer. */
  function CStr(s: seq<Byte>): (n: Name)
    ensures |n| <= |s|
  {
    if s == [] || s[0] == 0 then []
    else
      var t := CStr(s[1..]);
      [s[0]] + t
  }

  /** struct sfs_dir as sfs_dir_findname reads it, with the last byte of the name forced to NUL. */
  function DecodeSlot(e: seq<Byte>): Slot
    requires |e| == DIRSIZE
  {
    Slot(Value(e[..4]), CStr(e[4..DIRSIZE - 1]))
  }

  function Zeros(n: nat): (s: seq<Byte>)
    ensures |s| == n
  {
    seq(n, _ => 0)
  }

  /** struct sfs_dir as sfs_dir_link and sfs_dir_unlink write it. */
  function EncodeSlot(d: Slot): (e: seq<Byte>)
    requires |d.name| < NAMELEN
    ensures |e| == DIRSIZE
  {
    WordBytes(d.ino) + d.name + Zeros(NAMELEN - |d.name|)
  }

  lemma {:induction false} CStrPadded(n: Name, k: nat)
    requires 0 < k
    ensures CStr(n + Zeros(k)) == n
  {
    var s := n + Zeros(k);
    if n == [] {
      assert s[0] == 0;
    } else {
      assert s[1..] == n[1..] + Zeros(k);
      CStrPadded(n[1..], k);
      assert n == [n[0]] + n[1..];
    }
  }

  lemma {:induction false} SlotRoundTrip(d: Slot)
    requires |d.name| < NAMELEN
    ensures DecodeSlot(EncodeSlot(d)) == d
  {
    var e := EncodeSlot(d);
    assert e[..4] == WordBytes(d.ino);
    if |d.name| == NAMELEN - 1 {
      assert e[4..DIRSIZE - 1] == d.name;
      CStrFull(d.name);
    } else {
      assert e[4..DIRSIZE - 1] == d.name + Zeros(NAMELEN - 1 - |d.name|);
      CStrPadded(d.name, NAMELEN - 1 - |d.name|);
    }
  }

  /** A directory entry is the inode number as a big-endian word and the name with its NUL. */
  lemma SlotLayout(d: Slot)
    requires |d.name| < NAMELEN
    ensures var e := EncodeSlot(d);
      Value(e[..4]) == d.ino && e[4..4 + |d.name|] == d.name && forall i: nat :: 4 + |d.name| <= i < 64 ==> e[i] == 0
  {
    var e := EncodeSlot(d);
    assert e[..4] == WordBytes(d.ino);
  }

  lemma {:induction false} CStrFull(n: Name)
    ensures CStr(n) == n
  {
    if n != [] {
      CStrFull(n[1..]);
      assert n == [n[0]] + n[1..];
    }
  }

  // ---------------------------------------------------------------- slots

  /** The slots of a directory. */
  function Slots(g: File): (s: seq<Slot>)
    requires |g.bytes| == CAPACITY && g.size <= CAPACITY
    ensures |s| == g.size / DIRSIZE
  {
    seq(g.size / DIRSIZE, k requires 0 <= k < g.size / DIRSIZE =>
      DecodeSlot(g.bytes[DIRSIZE * k..DIRSIZE * k + DIRSIZE]))
  }

  lemma SlotAt(g: File, k: nat)
    requires |g.bytes| == CAPACITY && g.size <= CAPACITY && k < g.size / DIRSIZE
    ensures DIRSIZE * k + DIRSIZE <= g.size
    ensures Slots(g)[k] == DecodeSlot(g.bytes[DIRSIZE * k..DIRSIZE * k + DIRSIZE])
  {
  }

  /** `s` with slot `k` written, which may be the first one past the end. */
  function PutSlot(s: seq<Slot>, k: nat, d: Slot): (t: seq<Slot>)
    requires k <= |s|
    ensures |t| == (if k == |s| then k + 1 else |s|)
    ensures forall i: nat :: i < |t| ==> t[i] == if i == k then d else s[i]
  {
    if k == |s| then s + [d] else s[k := d]
  }

  /** Writing 64 bytes at a slot's place in the file writes that slot. */
  lemma WriteSlot(g: File, h: File, k: nat, e: seq<Byte>)
    requires |g.bytes| == CAPACITY && g.size <= CAPACITY && g.size % DIRSIZE == 0
    requires k <= g.size / DIRSIZE && |e| == DIRSIZE && DIRSIZE * k + DIRSIZE <= CAPACITY
    requires h.bytes == Splice(g.bytes, DIRSIZE * k, e)
    requires h.size == if g.size < DIRSIZE * k + DIRSIZE then DIRSIZE * k + DIRSIZE else g.size
    ensures h.size <= CAPACITY && h.size % DIRSIZE == 0
    ensures Slots(h) == PutSlot(Slots(g), k, DecodeSlot(e))
  {
    hide DecodeSlot, Splice;
    forall i: nat | i < h.size / DIRSIZE
      ensures Slots(h)[i] == PutSlot(Slots(g), k, DecodeSlot(e))[i]
    {
      SlotAt(h, i);
      SpliceSlice(g.bytes, DIRSIZE * k, e, DIRSIZE * i, DIRSIZE);
      if i != k { SlotAt(g, i); }
    }
  }

  ghost predicate UniqueNames(s: seq<Slot>) {
    forall i: nat, j: nat :: i < j < |s| && Live(s[i]) && Live(s[j]) ==> s[i].name != s[j].name
  }

  /** The directory as a map from names to inode numbers. */
  function NameMap(s: seq<Slot>): map<Name, nat> {
    if s == [] then map[]
    else if Live(s[|s| - 1]) then NameMap(s[..|s| - 1])[s[|s| - 1].name := s[|s| - 1].ino]
    else NameMap(s[..|s| - 1])
  }

  lemma {:induction false} NameMapAt(s: seq<Slot>, k: nat)
    requires UniqueNames(s) && k < |s| && Live(s[k])
    ensures s[k].name in NameMap(s) && NameMap(s)[s[k].name] == s[k].ino
  {
    if k < |s| - 1 {
      NameMapAt(s[..|s| - 1], k);
    }
  }

  lemma {:induction false} NameMapSlot(s: seq<Slot>, n: Name) returns (k: nat)
    requires n in NameMap(s)
    ensures k < |s| && Live(s[k]) && s[k].name == n && NameMap(s)[n] == s[k].ino
  {
    if Live(s[|s| - 1]) && s[|s| - 1].name == n {
      k := |s| - 1;
    } else {
      k := NameMapSlot(s[..|s| - 1], n);
    }
  }

  /** The number of slots that name inode `f`. */
  function Count(s: seq<Slot>, f: nat): (n: nat)
    ensures n <= |s|
  {
    if s == [] then 0 else (if s[|s| - 1].ino == f && f != 0 then 1 else 0) + Count(s[..|s| - 1], f)
  }

  lemma {:induction false} CountPut(s: seq<Slot>, k: nat, d: Slot, f: nat)
    requires k <= |s| && f != 0
    ensures Count(PutSlot(s, k, d), f) ==
            Count(s, f) - (if k < |s| && s[k].ino == f then 1 else 0) + (if d.ino == f then 1 else 0)
  {
    var t := PutSlot(s, k, d);
    if k == |s| {
      assert t[..|t| - 1] == s;
    } else if k == |s| - 1 {
      assert t[..|t| - 1] == s[..|s| - 1];
    } else {
      assert t[..|t| - 1] == PutSlot(s[..|s| - 1], k, d);
      CountPut(s[..|s| - 1], k, d, f);
    }
  }

  lemma {:induction false} CountPositive(s: seq<Slot>, k: nat)
    requires k < |s| && Live(s[k])
    ensures Count(s, s[k].ino) > 0
  {
    if k < |s| - 1 {
      CountPositive(s[..|s| - 1], k);
    }
  }

  lemma {:induction false} CountWitness(s: seq<Slot>, f: nat) returns (k: nat)
    requires Count(s, f) > 0
    ensures k < |s| && s[k].ino == f && Live(s[k])
  {
    if s[|s| - 1].ino == f && f != 0 {
      k := |s| - 1;
    } else {
      k := CountWitness(s[..|s| - 1], f);
    }
  }

  lemma LinkUnique(s: seq<Slot>, k: nat, d: Slot)
    requires UniqueNames(s) && k <= |s| && (k < |s| ==> !Live(s[k])) && Live(d)
    requires forall i: nat :: i < |s| && Live(s[i]) ==> s[i].name != d.name
    ensures UniqueNames(PutSlot(s, k, d))
  {
    hide PutSlot;
  }

  /** Adding a name that is not there, in a free slot or past the end. */
  lemma LinkNames(s: seq<Slot>, k: nat, d: Slot)
    requires UniqueNames(s) && k <= |s| && (k < |s| ==> !Live(s[k])) && Live(d)
    requires forall i: nat :: i < |s| && Live(s[i]) ==> s[i].name != d.name
    ensures UniqueNames(PutSlot(s, k, d))
    ensures NameMap(PutSlot(s, k, d)) == NameMap(s)[d.name := d.ino]
  {
    hide NameMap, UniqueNames, PutSlot, Live;
    var t := PutSlot(s, k, d);
    var m := NameMap(s)[d.name := d.ino];
    LinkUnique(s, k, d);
    NameMapAt(t, k);
    forall n: Name | n in m
      ensures n in NameMap(t) && NameMap(t)[n] == m[n]
    {
      if n != d.name {
        var i := NameMapSlot(s, n);
        assert t[i] == s[i];
        NameMapAt(t, i);
      }
    }
    forall n: Name | n in NameMap(t)
      ensures n in m
    {
      var i := NameMapSlot(t, n);
      if i != k { NameMapAt(s, i); }
    }
  }

  /** Freeing a slot removes its name. */
  lemma UnlinkNames(s: seq<Slot>, k: nat, d: Slot)
    requires UniqueNames(s) && k < |s| && Live(s[k]) && !Live(d)
    ensures UniqueNames(PutSlot(s, k, d))
    ensures NameMap(PutSlot(s, k, d)) == NameMap(s) - {s[k].name}
  {
    var t := PutSlot(s, k, d);
    var m := NameMap(s) - {s[k].name};
    assert UniqueNames(t);
    hide NameMap;
    forall n: Name | n in m
      ensures n in NameMap(t) && NameMap(t)[n] == m[n]
    {
      var i := NameMapSlot(s, n);
      assert t[i] == s[i];
      NameMapAt(t, i);
    }
    forall n: Name | n in NameMap(t)
      ensures n in m
    {
      var i := NameMapSlot(t, n);
      NameMapAt(s, i);
    }
  }

  // ---------------------------------------------------------------- the invariant

  /** The root directory is well formed, names are unique, every name leads to a regular
      file, a file's link count is the number of its names, and a file without names is
      only kept while its vnode is in memory. */
  ghost predicate DirInv(fs: map<nat, File>, loaded: set<nat>) {
    && ROOT in fs && RootInv(fs[ROOT])
    && var s := Slots(fs[ROOT]);
    && (forall k: nat :: k < |s| && Live(s[k]) ==> s[k].ino in fs && s[k].ino != ROOT)
    && (forall f: nat :: f in fs && f != ROOT ==>
         && f != 0 && fs[f].typ == TYPE_FILE && fs[f].links == Count(s, f)
         && (fs[f].links > 0 || f in loaded))
  }

  ghost predicate RootInv(g: File) {
    && |g.bytes| == CAPACITY && g.size <= CAPACITY && g.size % DIRSIZE == 0
    && g.typ == TYPE_DIR && g.links == 1 && UniqueNames(Slots(g))
  }

  /** The slots of the root directory among the files `fs`. */
  function SlotsOf(fs: map<nat, File>): seq<Slot> {
    if ROOT in fs && |fs[ROOT].bytes| == CAPACITY && fs[ROOT].size <= CAPACITY then Slots(fs[ROOT]) else []
  }

  /** The name map of the root directory. */
  function NamesOf(fs: map<nat, File>): map<Name, nat> {
    NameMap(SlotsOf(fs))
  }

  /** `fs` with the link count of `f` changed by `delta`. */
  function Relinked(fs: map<nat, File>, f: nat, delta: int): map<nat, File> {
    if f in fs && 0 <= fs[f].links + delta < 0x1_0000
    then fs[f := File(fs[f].bytes, fs[f].size, fs[f].typ, fs[f].links + delta)]
    else fs
  }

  /** An entry has been added and the link count of its file raised; nothing else differs. */
  ghost predicate EntryAdded(fs: map<nat, File>, fs': map<nat, File>, d: Slot, slot: nat) {
    && ROOT in fs && ROOT in fs' && d.ino in fs && d.ino != ROOT && fs[d.ino].links + 1 < 0x1_0000
    && slot <= |SlotsOf(fs)| && (slot < |SlotsOf(fs)| ==> !Live(SlotsOf(fs)[slot]))
    && SlotsOf(fs') == PutSlot(SlotsOf(fs), slot, d)
    && d.name !in NamesOf(fs) && NamesOf(fs') == NamesOf(fs)[d.name := d.ino]
    && fs' == Relinked(fs[ROOT := fs'[ROOT]], d.ino, 1)
  }

  /** The entry in a slot has been freed and the link count of its file lowered. */
  ghost predicate EntryFreed(fs: map<nat, File>, fs': map<nat, File>, slot: nat) {
    && ROOT in fs && ROOT in fs'
    && slot < |SlotsOf(fs)| && Live(SlotsOf(fs)[slot])
    && var d := SlotsOf(fs)[slot];
    && d.ino in fs && d.ino != ROOT && fs[d.ino].links > 0
    && SlotsOf(fs') == PutSlot(SlotsOf(fs), slot, Slot(0, []))
    && NamesOf(fs') == NamesOf(fs) - {d.name}
    && fs' == Relinked(fs[ROOT := fs'[ROOT]], d.ino, -1)
  }

  /** `h` is the directory `g` with slot `k` written. */
  ghost predicate SlotWritten(g: File, h: File, k: nat, d: Slot) {
    && RootInv(g) && k <= |Slots(g)|
    && |h.bytes| == CAPACITY && h.size <= CAPACITY && h.size % DIRSIZE == 0
    && h.typ == g.typ && h.links == g.links
    && Slots(h) == PutSlot(Slots(g), k, d)
  }

  ghost predicate FreshName(s: seq<Slot>, n: Name) {
    forall i: nat :: i < |s| && Live(s[i]) ==> s[i].name != n
  }

  /** A link count never overflows: there are not that many slots. */
  lemma LinksBounded(fs: map<nat, File>, loaded: set<nat>, f: nat)
    requires DirInv(fs, loaded) && f in fs && f != ROOT
    ensures fs[f].links <= CAPACITY / DIRSIZE
  {
    hide Slots, UniqueNames;
  }

  /** A directory entry and one more link, together, keep the invariant. */
  lemma LinkInv(fs: map<nat, File>, loaded: set<nat>, h: File, k: nat, d: Slot)
    requires DirInv(fs, loaded) && d.ino in fs && d.ino != ROOT && SlotWritten(fs[ROOT], h, k, d)
    requires FreshName(Slots(fs[ROOT]), d.name) && (k < |Slots(fs[ROOT])| ==> !Live(Slots(fs[ROOT])[k]))
    ensures var fs' := Relinked(fs[ROOT := h], d.ino, 1);
      DirInv(fs', loaded) && EntryAdded(fs, fs', d, k)
  {
    hide NameMap, UniqueNames, PutSlot, Count, Slots;
    LinksBounded(fs, loaded, d.ino);
    var s, t := Slots(fs[ROOT]), Slots(h);
    NamesFresh(s, d.name);
    LinkNames(s, k, d);
    var fs' := Relinked(fs[ROOT := h], d.ino, 1);
    forall i: nat | i < |t| && Live(t[i])
      ensures t[i].ino in fs' && t[i].ino != ROOT
    {
      assert t[i] == if i == k then d else s[i];
    }
    forall f: nat | f in fs' && f != ROOT
      ensures f != 0 && fs'[f].typ == TYPE_FILE && fs'[f].links == Count(t, f) && (fs'[f].links > 0 || f in loaded)
    {
      CountPut(s, k, d, f);
    }
    assert fs'[ROOT] == h;
  }

  /** Freeing an entry and one link fewer, together, keep the invariant. */
  lemma UnlinkInv(fs: map<nat, File>, loaded: set<nat>, h: File, k: nat)
    requires DirInv(fs, loaded) && SlotWritten(fs[ROOT], h, k, Slot(0, []))
    requires k < |Slots(fs[ROOT])| && Live(Slots(fs[ROOT])[k]) && Slots(fs[ROOT])[k].ino in loaded
    ensures var fs' := Relinked(fs[ROOT := h], Slots(fs[ROOT])[k].ino, -1);
      DirInv(fs', loaded) && EntryFreed(fs, fs', k)
  {
    hide NameMap, UniqueNames, PutSlot, Count, Slots;
    var s, t, d := Slots(fs[ROOT]), Slots(h), Slot(0, []);
    UnlinkNames(s, k, d);
    CountPositive(s, k);
    var fs' := Relinked(fs[ROOT := h], s[k].ino, -1);
    forall i: nat | i < |t| && Live(t[i])
      ensures t[i].ino in fs' && t[i].ino != ROOT
    {
      assert t[i] == if i == k then d else s[i];
    }
    forall f: nat | f in fs' && f != ROOT
      ensures f != 0 && fs'[f].typ == TYPE_FILE && fs'[f].links == Count(t, f) && (fs'[f].links > 0 || f in loaded)
    {
      CountPut(s, k, d, f);
    }
    assert fs'[ROOT] == h;
  }

  lemma NamesFresh(t: seq<Slot>, name: Name)
    requires UniqueNames(t)
    ensures FreshName(t, name) <==> name !in NameMap(t)
  {
    hide NameMap;
    if name in NameMap(t) {
      var k := NameMapSlot(t, name);
    }
    if !FreshName(t, name) {
      var k: nat :| k < |t| && Live(t[k]) && t[k].name == name;
      NameMapAt(t, k);
    }
  }

  lemma {:induction false} CountNone(s: seq<Slot>, f: nat)
    requires forall k: nat :: k < |s| ==> s[k].ino != f
    ensures Count(s, f) == 0
  {
    if s != [] { CountNone(s[..|s| - 1], f); }
  }

  /** A new file without links may stay as long as its vnode is in memory. */
  lemma NewFileInv(fs: map<nat, File>, loaded: set<nat>, f: nat, g: File)
    requires DirInv(fs, loaded) && f !in fs && f != 0 && g.typ == TYPE_FILE && g.links == 0
    ensures DirInv(fs[f := g], loaded + {f})
  {
    CountNone(Slots(fs[ROOT]), f);
  }

  /** A file without links may go; nothing in the directory names it. */
  lemma EraseInv(fs: map<nat, File>, loaded: set<nat>, f: nat)
    requires DirInv(fs, loaded) && f in fs && f != ROOT && fs[f].links == 0
    ensures DirInv(fs - {f}, loaded - {f})
  {
    var s := Slots(fs[ROOT]);
    forall k: nat | k < |s| && Live(s[k])
      ensures s[k].ino != f
    {
      CountPositive(s, k);
    }
  }

  lemma UnloadInv(fs: map<nat, File>, loaded: set<nat>, f: nat)
    requires DirInv(fs, loaded) && (f in fs ==> fs[f].links > 0)
    ensures DirInv(fs, loaded - {f})
  {
  }

  lemma LoadInv(fs: map<nat, File>, loaded: set<nat>, more: set<nat>)
    requires DirInv(fs, loaded) && loaded <= more
    ensures DirInv(fs, more)
  {
    hide Slots, UniqueNames;
  }

  /** A name found in the directory leads to a file with links. */
  lemma NamedFile(fs: map<nat, File>, loaded: set<nat>, k: nat)
    requires DirInv(fs, loaded) && k < |Slots(fs[ROOT])| && Live(Slots(fs[ROOT])[k])
    ensures var f := Slots(fs[ROOT])[k].ino;
      f in fs && f != ROOT && f != 0 && fs[f].links > 0 && fs[f].typ == TYPE_FILE
  {
    hide Slots, UniqueNames;
    CountPositive(Slots(fs[ROOT]), k);
  }

  lemma RootType(fs: map<nat, File>, loaded: set<nat>)
    requires DirInv(fs, loaded)
    ensures ROOT in fs && fs[ROOT].typ == TYPE_DIR
  {
  }

  /** Which files there are follows from the directory and from the vnodes in memory. */
  lemma FilesKnown(fs: map<nat, File>, gs: map<nat, File>, loaded: set<nat>, f: nat)
    requires DirInv(fs, loaded) && DirInv(gs, loaded) && gs[ROOT] == fs[ROOT] && f in gs
    ensures f in fs || f in loaded
  {
    hide Slots, UniqueNames;
    if f != ROOT && gs[f].links > 0 {
      var k := CountWitness(Slots(fs[ROOT]), f);
    }
  }

  /** A block that has been allocated and is held nowhere is lost: whatever files one takes there
      to be and whoever one takes to own the blocks, the free map and the directory are not both
      right. */
  lemma Leaked(v: Vol, files: set<nat>, owner: map<nat, Ref>, b: nat, gs: set<nat>, own: map<nat, Ref>)
    requires Inv(v, files, owner) && DirInv(FilesOf(v, files), v.cache.Keys) && b < |v.used| && !v.used[b]
    ensures b < |v.disk|
    ensures !(Inv(Allocated(v, b), gs, own) && DirInv(FilesOf(Allocated(v, b), gs), v.cache.Keys))
  {
    FreeBit(v, files, owner, b);
    AllocatedSame(v, files, owner, b);
    var w := Allocated(v, b);
    hide Target, FileOf, DirInv;
    if Inv(w, gs, own) && DirInv(FilesOf(w, gs), v.cache.Keys) {
      var r := own[b];
      RootType(FilesOf(v, files), v.cache.Keys);
      RootType(FilesOf(w, gs), v.cache.Keys);
      FilesKnown(FilesOf(v, files), FilesOf(w, gs), v.cache.Keys, r.ino);
      assert false;
    }
  }

  /** Writing or truncating a regular file does not concern the directory. */
  lemma ContentsInv(fs: map<nat, File>, loaded: set<nat>, f: nat, g: File)
    requires DirInv(fs, loaded) && f in fs && f != ROOT && g.typ == fs[f].typ && g.links == fs[f].links
    ensures DirInv(fs[f := g], loaded)
  {
    hide Slots, UniqueNames;
  }
}
