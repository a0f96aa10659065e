/** kmalloc and kfree: src/kern/lib/kheap.c. The page allocator underneath is outside the
    model: what alloc_kpages would answer is a parameter, and only has to be pages that
    nobody holds. */
module Kheap {
  import opened Basics
  import opened Bitmap
  import opened KernelHeap

  /** Which pagerefs the words of pagerefs_inuse mark. */
  predicate Marked(words: seq<nat>, i: nat)
    requires i < 32 * |words|
  {
    HasBit(words[i / 32], i % 32)
  }

  function Marks(words: seq<nat>): (s: seq<bool>)
    ensures |s| == 32 * |words|
    ensures forall i: nat :: i < |s| ==> s[i] == Marked(words, i)
  {
    seq(32 * |words|, i requires 0 <= i < 32 * |words| => Marked(words, i))
  }

  lemma MarkSet(words: seq<nat>, ix: nat, k: nat)
    requires ix < |words| && k < 32
    ensures Marks(words[ix := SetBit(words[ix], k)]) == Marks(words)[32 * ix + k := true]
  {
    forall j: nat | j < 32 { SetBitBits(words[ix], k, j); }
  }

  lemma MarkClear(words: seq<nat>, ix: nat, k: nat)
    requires ix < |words| && k < 32
    ensures Marks(words[ix := ClearBit(words[ix], k)]) == Marks(words)[32 * ix + k := false]
  {
    forall j: nat | j < 32 { ClearBitBits(words[ix], k, j); }
  }

  lemma MarkFull(words: seq<nat>, ix: nat)
    requires ix < |words| && words[ix] == Pow2(32) - 1
    ensures forall i: nat :: 32 * ix <= i < 32 * ix + 32 ==> Marks(words)[i]
  {
    forall i: nat | 32 * ix <= i < 32 * ix + 32
      ensures Marks(words)[i]
    {
      OnesBit(32, i % 32);
    }
  }

  lemma MarkPrefix(words: seq<nat>, ix: nat, k: nat)
    requires ix < |words| && k <= 32 && forall j: nat :: j < k ==> HasBit(words[ix], j)
    ensures forall i: nat :: 32 * ix <= i < 32 * ix + k ==> Marks(words)[i]
  {
    forall i: nat | 32 * ix <= i < 32 * ix + k
      ensures Marks(words)[i]
    {
      assert i / 32 == ix && HasBit(words[ix], i % 32);
    }
  }

  lemma MarkAt(words: seq<nat>, ix: nat, k: nat)
    requires ix < |words| && k < 32
    ensures Marks(words)[32 * ix + k] == HasBit(words[ix], k)
  {
  }

  class PageRefMap {
    const words: array<nat>

    ghost predicate Valid()
      reads this, words
    {
      words.Length == 8 && forall i :: 0 <= i < 8 ==> words[i] < Pow2(32)
    }

    ghost function Used(): (s: seq<bool>)
      reads this, words
    {
      Marks(words[..])
    }

    constructor ()
      ensures Valid() && fresh(words) && |Used()| == NREFS && forall i: nat :: i < NREFS ==> !Used()[i]
    {
      words := new nat[8](_ => 0);
      new;
      forall i: nat | i < NREFS
        ensures !Marked(words[..], i)
      {
        ZeroBits(i % 32);
      }
    }

    /** allocpageref: the lowest pageref not in use, NIL when all are. */
    method Alloc() returns (i: nat)
      requires Valid()
      modifies words
      ensures Valid() && |Used()| == NREFS
      ensures i <= NREFS && forall j: nat :: j < i ==> old(Used())[j]
      ensures i != NIL ==> !old(Used())[i] && Used() == old(Used())[i := true]
      ensures i == NIL ==> Used() == old(Used())
    {
      hide Marked, HasBit, SetBit, Pow2;
      var w := 0;
      while w < 8
        invariant w <= 8 && words[..] == old(words[..]) && Valid()
        invariant forall j: nat :: j < 32 * w ==> old(Used())[j]
      {
        if words[w] == Pow2(32) - 1 {
          MarkFull(words[..], w);
        } else {
          var k := 0;
          while k < 32 && HasBit(words[w], k)
            invariant k <= 32 && forall j: nat :: j < k ==> HasBit(words[w], j)
          {
            k := k + 1;
          }
          if k == 32 {
            AllOnes(words[w], 32);
            assert false;
          }
          i := 32 * w + k;
          MarkPrefix(words[..], w, k);
          MarkAt(words[..], w, k);
          MarkSet(words[..], w, k);
          BitsInRange(words[w], k, 32);
          words[w] := SetBit(words[w], k);
          assert words[..] == old(words[..])[w := SetBit(old(words[w]), k)];
          return;
        }
        w := w + 1;
      }
      i := NIL;
    }

    /** freepageref. */
    method Free(i: nat)
      requires Valid() && i < NREFS && Used()[i]
      modifies words
      ensures Valid() && Used() == old(Used())[i := false]
    {
      MarkClear(words[..], i / 32, i % 32);
      BitsInRange(words[i / 32], i % 32, 32);
      words[i / 32] := ClearBit(words[i / 32], i % 32);
      assert words[..] == old(words[..])[i / 32 := ClearBit(old(words[i / 32]), i % 32)];
    }
  }

  // ---------------------------------------------------------------- the allocator

  /** `t` is the type of the smallest blocks with room for `sz` bytes. */
  predicate Fits(sz: nat, t: nat) {
    t < NSIZES && sz <= SizeOf(t) && forall u: nat :: u < t ==> SizeOf(u) < sz
  }

  /** The type of the smallest blocks with room for `sz` bytes, looking from type `t` on. */
  function FitFrom(sz: nat, t: nat): (u: nat)
    requires sz <= 2048 && t < NSIZES && forall v: nat :: v < t ==> SizeOf(v) < sz
    ensures Fits(sz, u)
    decreases NSIZES - t
  {
    if sz <= SizeOf(t) then t else FitFrom(sz, t + 1)
  }

  function Fit(sz: nat): (u: nat)
    requires sz <= 2048
    ensures Fits(sz, u)
  {
    FitFrom(sz, 0)
  }

  lemma FitsOne(sz: nat, t: nat, u: nat)
    requires Fits(sz, t) && Fits(sz, u)
    ensures t == u
  {
  }

  /** Some page of blocks of type `t` has a free block. */
  ghost predicate HasRoom(h: Heap, g: Abs, t: nat)
    requires t < |g.same|
  {
    exists i :: i in g.same[t] && i < |h.refs| && h.refs[i].nfree > 0
  }

  /** There is room exactly when some block of that type is on a page of the heap and is not
      live. */
  lemma RoomIff(h: Heap, g: Abs, t: nat)
    requires Inv(h, g, NIL) && t < NSIZES
    ensures t < |g.same|
    ensures HasRoom(h, g, t) <==>
      exists i: nat, a: nat ::
        i in g.all && i < |h.refs| && TypeOf(h.refs[i]) == t && OnPage(h.refs[i], a) && a !in g.live
  {
    hide OnPage, TypeOf, PageOf, SizeOf, FreeChain, FreeHead, Distinct, LiveInv, PagesInv;
    if HasRoom(h, g, t) {
      var i :| i in g.same[t] && i < |h.refs| && h.refs[i].nfree > 0;
      var a := g.free[i][0];
      assert PageInv(h, g, i, false) && a in g.free[i];
      assert OnPage(h.refs[i], a) && a !in g.live;
    }
    if i: nat, a: nat :| i in g.all && i < |h.refs| && TypeOf(h.refs[i]) == t && OnPage(h.refs[i], a) && a !in g.live {
      assert PageInv(h, g, i, false) && a in g.free[i] && i in g.same[t];
    }
  }

  /** The word at `x` is the mark of freed memory. */
  predicate Beefy(mem: map<nat, nat>, x: nat) {
    x in mem && mem[x] == 0xdead_beef
  }

  /** The addresses of the pages cut into blocks. */
  ghost function PageSet(h: Heap, g: Abs): set<nat> {
    set i | i in g.all && i < |h.refs| :: PageOf(h.refs[i])
  }

  lemma PagesSame(h: Heap, g: Abs, h': Heap, g': Abs)
    requires |h'.refs| == |h.refs| && forall i: nat :: i < |h.refs| ==> h'.refs[i].pab == h.refs[i].pab
    requires forall i :: i in g'.all ==> i in g.all
    ensures PageSet(h', g') <= PageSet(h, g)
    ensures g'.all == g.all ==> PageSet(h', g') == PageSet(h, g)
  {
    assert forall i: nat :: i < |h.refs| ==> PageOf(h'.refs[i]) == PageOf(h.refs[i]);
    hide PageOf;
  }

  lemma PagesAdded(h: Heap, g: Abs, i: nat, t: nat, page: nat)
    requires i < |h.refs| && i < |h.used| && t < NSIZES && t < |h.bases| && t < |g.same| && i !in g.all &&
      page % PAGE == 0
    ensures PageSet(Added(h, i, t, page), AddedAbs(g, i, t, page)) == PageSet(h, g) + {page}
  {
    hide Thread, Down, SizeOf, Slots, PageOf;
    var h', g' := Added(h, i, t, page), AddedAbs(g, i, t, page);
    NewRef(h'.refs[i], page, t);
    assert forall j: nat :: j < |h.refs| && j != i ==> h'.refs[j] == h.refs[j];
    assert i in g'.all;
  }

  predicate SameAt(mem: map<nat, nat>, mem': map<nat, nat>, x: nat) {
    (x in mem <==> x in mem') && (x in mem && x in mem' ==> mem[x] == mem'[x])
  }

  /** Allocations held before and after keep their contents. */
  ghost predicate Kept(mem: map<nat, nat>, mem': map<nat, nat>, g: Abs, g': Abs) {
    && (forall a, x :: a in g.live && a in g'.live && a <= x < a + g.live[a].size ==> SameAt(mem, mem', x))
    && (forall a, x :: a in g.big && a in g'.big && a <= x < a + g.big[a] * PAGE ==> SameAt(mem, mem', x))
  }

  lemma KeptNew(h: Heap, g: Abs, g': Abs, page: nat, mem: map<nat, nat>)
    requires Inv(h, g, NIL) && FreshPages(h, g, page, 1) && Agree(h.mem, mem, page, PAGE)
    ensures Kept(h.mem, mem, g, g')
  {
    hide ListsInv, PagesInv, PageInv, PageOf, TypeOf, SizeOf;
    forall a, x | a in g.live && a in g'.live && a <= x < a + g.live[a].size
      ensures SameAt(h.mem, mem, x)
    {
      var r := h.refs[g.live[a].ref];
      OnPageEnd(r, a);
      assert PageOf(r) <= a;
      assert Apart(page, 1, PageOf(r), 1);
    }
  }

  lemma KeptFree(h: Heap, g: Abs, g': Abs, p: nat, mem: map<nat, nat>)
    requires Inv(h, g, NIL) && p in g.live && p !in g'.live
    requires g.live[p].ref < |h.refs| && TypeOf(h.refs[g.live[p].ref]) < NSIZES
    requires Agree(h.mem, mem, p, SizeOf(TypeOf(h.refs[g.live[p].ref])))
    ensures Kept(h.mem, mem, g, g')
  {
    hide Inv, Agree, SizeOf, TypeOf;
    forall a, x | a in g.live && a in g'.live && a <= x < a + g.live[a].size
      ensures SameAt(h.mem, mem, x)
    {
      if a < p { LiveDisjoint(h, g, NIL, a, p); } else { LiveDisjoint(h, g, NIL, p, a); }
      AgreeAt(h.mem, mem, p, SizeOf(TypeOf(h.refs[g.live[p].ref])), x);
    }
    forall a, x | a in g.big && a in g'.big && a <= x < a + g.big[a] * PAGE
      ensures SameAt(h.mem, mem, x)
    {
      LiveApartFromBig(h, g, NIL, p, a);
      AgreeAt(h.mem, mem, p, SizeOf(TypeOf(h.refs[g.live[p].ref])), x);
    }
  }

  lemma AgreeAt(mem: map<nat, nat>, mem': map<nat, nat>, a: nat, n: nat, x: nat)
    requires Agree(mem, mem', a, n) && (x < a || a + n <= x)
    ensures SameAt(mem, mem', x)
  {
  }

  /** What the class adds to the lists' own facts: where a walk along a list stands. */
  lemma WalkAll(h: Heap, g: Abs, k: nat)
    requires ListsInv(h, g)
    ensures h.allbase == Nth(g.all, 0, NIL)
    ensures k < |g.all| ==>
      g.all[k] in g.all && g.all[k] < NREFS == |h.refs| && h.refs[g.all[k]].all == Nth(g.all, k + 1, NIL)
  {
    hide ListSame, Distinct, TypeOf;
    if k < |g.all| { assert LinkAll(h.refs, g.all, k) && g.all[k] in g.all; }
  }

  lemma WalkSame(h: Heap, g: Abs, t: nat, k: nat)
    requires ListsInv(h, g) && t < NSIZES
    ensures |h.bases| == NSIZES == |g.same| && h.bases[t] == Nth(g.same[t], 0, NIL)
    ensures k < |g.same[t]| ==>
      var i := g.same[t][k];
      i in g.same[t] && i in g.all && i < NREFS == |h.refs| && TypeOf(h.refs[i]) == t &&
        h.refs[i].same == Nth(g.same[t], k + 1, NIL)
  {
    hide ListAll, Distinct, TypeOf;
    assert ListSame(h.refs, h.bases[t], g.same[t]);
    if k < |g.same[t]| {
      assert LinkSame(h.refs, g.same[t], k) && g.same[t][k] in g.same[t];
      Members(h, g, t);
    }
  }

  ghost function NoAbs(): Abs {
    Abs([], [[], [], [], [], [], [], [], []], map[], map[], map[])
  }

  lemma EmptyInv(h: Heap)
    requires |h.refs| == NREFS == |h.used| && |h.bases| == NSIZES && h.allbase == NIL
    requires forall i: nat :: i < NREFS ==> !h.used[i]
    requires forall t: nat :: t < NSIZES ==> h.bases[t] == NIL
    ensures Inv(h, NoAbs(), NIL)
  {
    forall t: nat | t < NSIZES
      ensures NoAbs().same[t] == []
    {
    }
  }

  class KHeap {
    var mem: map<nat, nat>
    const refs: array<Ref>
    const inuse: PageRefMap
    const bases: array<nat>
    var allbase: nat
    ghost var abs: Abs

    ghost predicate Shape()
      reads this, refs, bases, inuse, inuse.words
    {
      refs.Length == NREFS && bases.Length == NSIZES && bases != inuse.words && inuse.Valid()
    }

    ghost function V(): Heap
      reads this, refs, bases, inuse, inuse.words
    {
      Heap(mem, refs[..], inuse.Used(), bases[..], allbase)
    }

    ghost predicate Valid()
      reads this, refs, bases, inuse, inuse.words
    {
      Shape() && Inv(V(), abs, NIL)
    }

    constructor ()
      ensures Valid() && fresh(refs) && fresh(bases) && fresh(inuse) && fresh(inuse.words)
      ensures abs.live == map[] && abs.big == map[]
    {
      refs := new Ref[NREFS](_ => Ref(NIL, NIL, 0, 0, 0));
      inuse := new PageRefMap();
      bases := new nat[NSIZES](_ => NIL);
      mem, allbase := map[], NIL;
      abs := NoAbs();
      new;
      EmptyInv(V());
    }

    /** blocktype: the smallest block that fits. */
    method BlockType(sz: nat) returns (t: nat)
      requires sz <= 2048
      ensures Fits(sz, t) && (SizeOf(t) == 16 || SizeOf(t) < 2 * sz)
    {
      t := 0;
      while SizeOf(t) < sz
        invariant t < NSIZES && forall u: nat :: u < t ==> SizeOf(u) < sz
        decreases NSIZES - t
      {
        t := t + 1;
      }
      if t > 0 { SizesDouble(t); }
    }

    /** The search of subpage_kmalloc, NIL when no page of the type has room. */
    method FindRoom(t: nat) returns (pr: nat)
      requires Shape() && ListsInv(V(), abs) && t < NSIZES
      ensures pr == NIL <==> !HasRoom(V(), abs, t)
      ensures pr != NIL ==>
        pr in abs.same[t] && pr in abs.all && pr < NREFS && refs[pr].nfree > 0 && TypeOf(refs[pr]) == t
    {
      hide ListsInv, TypeOf;
      WalkSame(V(), abs, t, 0);
      ghost var k := 0;
      pr := bases[t];
      while pr != NIL
        invariant k <= |abs.same[t]| && pr == Nth(abs.same[t], k, NIL)
        invariant forall j: nat :: j < k ==> abs.same[t][j] < NREFS && refs[abs.same[t][j]].nfree == 0
        decreases |abs.same[t]| - k
      {
        WalkSame(V(), abs, t, k);
        if refs[pr].nfree > 0 { return; }
        pr := refs[pr].same;
        k := k + 1;
      }
      if k < |abs.same[t]| { WalkSame(V(), abs, t, k); assert false; }
    }

    /** Label doalloc. */
    method Take(pr: nat, sz: nat, ghost newest: nat) returns (ptr: nat)
      requires Shape() && Inv(V(), abs, newest) && pr in abs.all && pr < NREFS && refs[pr].nfree > 0
      requires newest == NIL || newest == pr
      requires TypeOf(refs[pr]) < NSIZES && sz <= SizeOf(TypeOf(refs[pr]))
      modifies this`abs, refs
      ensures Valid() && ptr > 0 && ptr !in old(abs.live) && OnPage(old(refs[pr]), ptr)
      ensures abs.live == old(abs.live)[ptr := Block(pr, sz)] && abs.big == old(abs.big) && abs.all == old(abs.all)
      ensures PageSet(V(), abs) == old(PageSet(V(), abs))
    {
      hide Inv, TypeOf, SizeOf, OnPage, PageSet;
      ghost var h := V();
      assert PageInv(h, abs, pr, pr == newest) by { PageKnown(h, abs, newest, pr); }
      TakeReady(h, abs, pr, pr == newest);
      TakeInv(h, abs, newest, pr, sz);
      var r := refs[pr];
      var page := PageOf(r);
      ptr := page + r.off;
      var next := mem[ptr];
      if next != 0 {
        NextOnPage(h, abs, pr, pr == newest);
        refs[pr] := Ref(r.same, r.all, r.pab, next - page, r.nfree - 1);
      } else {
        refs[pr] := Ref(r.same, r.all, r.pab, INVALID_OFFSET, r.nfree - 1);
      }
      abs := TakenAbs(abs, pr, ptr, sz);
      assert V() == Taken(h, pr);
      PagesSame(h, old(abs), V(), abs);
    }

    /** The free list of a fresh page, threaded from the bottom. */
    method ThreadBlocks(page: nat, size: nat, n: nat)
      requires n > 0
      modifies this`mem
      ensures mem == Thread(old(mem), page, size, n)
    {
      mem := mem[page := 0];
      var i := 1;
      assert Thread(old(mem), page, size, 0) == old(mem);
      while i < n
        invariant 1 <= i <= n
        invariant mem == Thread(old(mem), page, size, i)
      {
        mem := mem[page + i * size := page + (i - 1) * size];
        i := i + 1;
      }
    }

    /** The part of subpage_kmalloc that turns a fresh page into blocks. */
    method AddPage(pr: nat, t: nat, page: nat, ghost h0: Heap)
      requires Shape() && pr < NREFS && t < NSIZES
      requires h0 == V().(used := h0.used) && |h0.used| == NREFS && !h0.used[pr] && V().used == h0.used[pr := true]
      requires Inv(h0, abs, NIL) && FreshPages(h0, abs, page, 1)
      modifies this, refs, bases
      ensures Shape() && inuse.Used() == old(inuse.Used())
      ensures V() == Added(h0, pr, t, page) && abs == AddedAbs(old(abs), pr, t, page) && Inv(V(), abs, pr)
      ensures PageSet(V(), abs) == PageSet(h0, old(abs)) + {page}
    {
      hide Inv, FreshPages, SizeOf, Slots, Thread, Down, Marked, PageOf, Pow2, PageSet;
      AddInv(h0, abs, pr, t, page);
      NotListed(h0, abs, pr);
      FreshAligned(h0, abs, page, 1);
      ListsKnown(h0, abs, NIL);
      Lengths(h0, abs);
      PagesAdded(h0, abs, pr, t, page);
      var size := SizeOf(t);
      var nfree := PAGE / size;
      assert nfree == Slots(t) by { SlotsDef(t); }
      ThreadBlocks(page, size, nfree);
      refs[pr] := Ref(bases[t], allbase, page + t, (nfree - 1) * size, nfree);
      bases[t] := pr;
      allbase := pr;
      abs := AddedAbs(abs, pr, t, page);
    }

    /** A block from a page that has just been added. */
    method TakeNew(pr: nat, t: nat, page: nat, sz: nat, ghost h0: Heap) returns (ptr: nat)
      requires Shape() && pr < NREFS && t < NSIZES && sz <= SizeOf(t)
      requires h0 == V().(used := h0.used) && |h0.used| == NREFS && !h0.used[pr] && V().used == h0.used[pr := true]
      requires Inv(h0, abs, NIL) && FreshPages(h0, abs, page, 1)
      modifies this, refs, bases
      ensures Valid() && ptr > 0 && ptr !in old(abs.live) && page <= ptr < page + PAGE
      ensures abs.live == old(abs.live)[ptr := Block(pr, sz)] && abs.big == old(abs.big) &&
        abs.all == [pr] + old(abs.all)
      ensures Kept(old(mem), mem, old(abs), abs) && PageSet(V(), abs) == PageSet(h0, old(abs)) + {page}
    {
      hide PageSet, Inv, FreshPages, SizeOf, TypeOf, Kept, Thread, Down, Marked, PageOf, Pow2, OnPage, Slots;
      AddPage(pr, t, page, h0);
      FreshAligned(h0, old(abs), page, 1);
      NewRef(refs[pr], page, t);
      ghost var r := refs[pr];
      ptr := Take(pr, sz, pr);
      OnPageRange(r, ptr);
      ThreadAgree(h0, t, page);
      KeptNew(h0, old(abs), abs, page, mem);
    }

    method SubpageKmalloc(sz: nat, page: nat) returns (ptr: nat)
      requires Valid() && sz <= 2048 && (page == 0 || FreshPages(V(), abs, page, 1))
      modifies this, refs, bases, inuse.words
      ensures Valid() && abs.big == old(abs.big) && Kept(old(mem), mem, old(abs), abs)
      ensures ptr == 0 <==>
        !HasRoom(old(V()), old(abs), Fit(sz)) && (page == 0 || forall i: nat :: i < NREFS ==> old(inuse.Used())[i])
      ensures ptr == 0 ==> V() == old(V()) && abs == old(abs)
      ensures HasRoom(old(V()), old(abs), Fit(sz)) ==> abs.all == old(abs.all)
      ensures !HasRoom(old(V()), old(abs), Fit(sz)) && ptr != 0 ==>
        |abs.all| == |old(abs.all)| + 1 && abs.all[1..] == old(abs.all) && page <= ptr < page + PAGE
      ensures PageSet(V(), abs) <= old(PageSet(V(), abs)) +
        (if page != 0 && page <= ptr < page + PAGE then {page} else {})
      ensures ptr != 0 ==>
        && ptr !in old(abs.live) && ptr in abs.live && abs.live == old(abs.live)[ptr := abs.live[ptr]]
        && abs.live[ptr].size == sz
    {
      hide Inv, FreshPages, SizeOf, TypeOf, Kept, Marked, PageOf, Pow2, OnPage, HasRoom, PageSet, Fit;
      var blktype := BlockType(sz);
      FitsOne(sz, Fit(sz), blktype);
      ghost var h0 := V();
      ListsKnown(h0, abs, NIL);
      var pr := FindRoom(blktype);
      if pr != NIL {
        ptr := Take(pr, sz, NIL);
        KeptSame(old(mem), old(abs), abs);
        return;
      }
      pr := inuse.Alloc();
      if pr == NIL {
        KeptSame(old(mem), abs, abs);
        return 0;
      }
      if page == 0 {
        inuse.Free(pr);
        assert inuse.Used() == old(inuse.Used());
        KeptSame(old(mem), abs, abs);
        return 0;
      }
      PagesSame(h0, abs, V(), abs);
      ptr := TakeNew(pr, blktype, page, sz, h0);
    }

    /** The first loop of remove_lists; `q` is where the pageref stands. */
    method RemoveSame(pr: nat, t: nat, ghost q: nat)
      requires Shape() && ListsInv(V(), abs) && t < NSIZES && q < |abs.same[t]| && abs.same[t][q] == pr && pr < NREFS
      modifies refs, bases
      ensures Shape() && (Before(old(abs.same[t]), q) == NIL || Before(old(abs.same[t]), q) < NREFS)
      ensures V() == CutSame(old(V()), t, Before(abs.same[t], q), pr)
    {
      hide ListsInv, Marked, Distinct, TypeOf;
      WalkSame(V(), abs, t, 0);
      ghost var xs := abs.same[t];
      assert Distinct(xs) by { SameDistinct(V(), abs, t); }
      if q > 0 { WalkSame(V(), abs, t, q - 1); }
      var prev, cur := NIL, bases[t];
      ghost var k := 0;
      while cur != NIL
        invariant k <= q && cur == xs[k] && cur < NREFS && prev == Before(xs, k)
        invariant k > 0 ==> prev < NREFS
        invariant refs[..] == old(refs[..]) && bases[..] == old(bases[..])
        decreases q - k
      {
        WalkSame(V(), abs, t, k);
        if cur == pr {
          if k != q { Differ(xs, k, q); }
          if prev == NIL {
            bases[t] := refs[pr].same;
          } else {
            refs[prev] := Ref(refs[pr].same, refs[prev].all, refs[prev].pab, refs[prev].off, refs[prev].nfree);
          }
          return;
        }
        prev, cur := cur, refs[cur].same;
        k := k + 1;
        WalkSame(V(), abs, t, k);
      }
      assert false;
    }

    /** The second loop of remove_lists. */
    method RemoveAll(pr: nat, ghost p: nat)
      requires Shape() && ListAll(refs[..], allbase, abs.all) && Distinct(abs.all) &&
        (forall i :: i in abs.all ==> i < NREFS)
      requires p < |abs.all| && abs.all[p] == pr && pr < NREFS
      modifies this`allbase, refs
      ensures Shape() && (Before(old(abs.all), p) == NIL || Before(old(abs.all), p) < NREFS)
      ensures V() == CutAll(old(V()), Before(abs.all, p), pr)
    {
      hide Marked, Distinct;
      ghost var xs := abs.all;
      assert xs[0] in xs && (p > 0 ==> xs[p - 1] in xs);
      var prev, cur := NIL, allbase;
      ghost var k := 0;
      while cur != NIL
        invariant k <= p && cur == xs[k] && cur < NREFS && prev == Before(xs, k)
        invariant k > 0 ==> prev < NREFS
        invariant refs[..] == old(refs[..]) && allbase == old(allbase)
        decreases p - k
      {
        assert LinkAll(refs[..], xs, k) && xs[k] in xs;
        if cur == pr {
          if k != p { Differ(xs, k, p); }
          if prev == NIL {
            allbase := refs[pr].all;
          } else {
            refs[prev] := Ref(refs[prev].same, refs[pr].all, refs[prev].pab, refs[prev].off, refs[prev].nfree);
          }
          return;
        }
        prev, cur := cur, refs[cur].all;
        k := k + 1;
        assert xs[k] in xs;
      }
      assert false;
    }

    /** The search of subpage_kfree, NIL when no page holds the address. */
    method FindPage(ptr: nat) returns (pr: nat)
      requires Valid() && (ptr in abs.live || ptr in abs.big)
      ensures ptr in abs.live ==> pr == abs.live[ptr].ref && pr < NREFS
      ensures ptr !in abs.live ==> pr == NIL
    {
      hide Inv, ListsInv, PageOf;
      ghost var h := V();
      ListsKnown(h, abs, NIL);
      WalkAll(h, abs, 0);
      ghost var k := 0;
      pr := allbase;
      while pr != NIL
        invariant k <= |abs.all| && pr == Nth(abs.all, k, NIL)
        invariant ptr in abs.live ==> abs.live[ptr].ref !in abs.all[..k]
        decreases |abs.all| - k
      {
        WalkAll(h, abs, k);
        var r := refs[pr];
        if ptr in abs.live { RouteLive(h, abs, ptr, pr); } else { RouteBig(h, abs, ptr, pr); }
        if PageOf(r) <= ptr < PageOf(r) + PAGE { return; }
        assert abs.all[..k + 1] == abs.all[..k] + [pr];
        pr := r.all;
        k := k + 1;
      }
      if k < |abs.all| { WalkAll(h, abs, k); assert false; }
      assert abs.all[..k] == abs.all;
      if ptr in abs.live { LiveKnown(h, abs, ptr); assert false; }
    }

    method FillDeadbeef(ptr: nat, n: nat)
      modifies this`mem
      ensures Agree(old(mem), mem, ptr, n)
      ensures forall i: nat :: i < n / 4 ==> Beefy(mem, ptr + 4 * i)
    {
      var i := 0;
      while i < n / 4
        invariant i <= n / 4 && Agree(old(mem), mem, ptr, n)
        invariant forall j: nat :: j < i ==> Beefy(mem, ptr + 4 * j)
      {
        mem := mem[ptr + 4 * i := 0xdeadbeef];
        i := i + 1;
      }
    }

    /** An all-free page leaves the lists, and its pageref is free again. */
    method Retire(pr: nat, t: nat)
      requires Shape() && Inv(V(), abs, pr) && pr in abs.all && pr < NREFS && t < NSIZES
      requires TypeOf(refs[pr]) == t && refs[pr].nfree == Slots(t)
      modifies this, refs, bases, inuse.words
      ensures Valid() && mem == old(mem) && abs.live == old(abs.live) && abs.big == old(abs.big)
      ensures forall i :: i in abs.all <==> i in old(abs.all) && i != pr
      ensures PageSet(V(), abs) <= old(PageSet(V(), abs))
    {
      hide Inv, ListsInv, Marked, TypeOf, Slots, Distinct, PageSet;
      ghost var h, g := V(), abs;
      ListsKnown(h, g, pr);
      Lengths(h, g);
      ghost var p: nat :| p < |g.all| && g.all[p] == pr;
      InSame(h, g, pr);
      ghost var q: nat :| q < |g.same[t]| && g.same[t][q] == pr;
      RetireInv(h, g, t, q, p, pr);
      RetireAllList(h, g, t, q, p, pr);
      WithoutHas(g.all, p);
      RemoveSame(pr, t, q);
      RemoveAll(pr, p);
      inuse.Free(pr);
      abs := RetiredAbs(g, t, q, p, pr);
      assert V() == Retired(h, t, Before(g.same[t], q), Before(g.all, p), pr);
      CutSamePages(h, t, Before(g.same[t], q), Before(g.all, p), pr);
      PagesSame(h, g, V(), abs);
    }

    /** subpage_kfree: -1 when the address lies on no page of the heap. */
    method SubpageKfree(ptr: nat) returns (rc: int)
      requires Valid() && (ptr in abs.live || ptr in abs.big)
      modifies this, refs, bases, inuse.words
      ensures Valid() && Kept(old(mem), mem, old(abs), abs) && abs.big == old(abs.big)
      ensures rc == if ptr in old(abs.live) then 0 else -1
      ensures abs.live == old(abs.live) - {ptr}
      ensures (forall i :: i in abs.all ==> i in old(abs.all)) && PageSet(V(), abs) <= old(PageSet(V(), abs))
    {
      hide PageSet, Inv, Marked, TypeOf, Slots, SizeOf, PageOf, OnPage, Kept, Agree;
      var pr := FindPage(ptr);
      if pr == NIL {
        KeptSame(mem, abs, abs);
        return -1;
      }
      ghost var h0, g0 := V(), abs;
      LiveKnown(h0, g0, ptr);
      OnPageType(refs[pr], ptr);
      var t := TypeOf(refs[pr]);
      FillDeadbeef(ptr, SizeOf(t));
      WriteInv(h0, g0, NIL, ptr, mem);
      var h1 := V();
      assert h1 == WithMem(h0, mem);
      GiveInv(h1, g0, ptr);
      var r := refs[pr];
      mem := mem[ptr := if r.off == INVALID_OFFSET then 0 else PageOf(r) + r.off];
      refs[pr] := Ref(r.same, r.all, r.pab, ptr - PageOf(r), r.nfree + 1);
      abs := GivenAbs(abs, pr, ptr);
      assert V() == Given(h1, pr, ptr);
      PagesSame(h0, g0, V(), abs);
      AgreeMore(h0.mem, h1.mem, ptr, SizeOf(t), mem[ptr]);
      KeptFree(h0, g0, abs, ptr, mem);
      TypeKept(r, refs[pr]);
      if r.nfree + 1 == PAGE / SizeOf(t) {
        SlotsDef(t);
        Retire(pr, t);
        KeptFree(h0, g0, abs, ptr, mem);
      } else {
        SlotsDef(t);
        NotFull(V(), abs, pr);
      }
      rc := 0;
    }

    /** kmalloc. */
    method Kmalloc(sz: nat, page: nat) returns (ptr: nat)
      requires Valid()
      requires page == 0 || FreshPages(V(), abs, page, if sz < 2048 then 1 else (sz + PAGE - 1) / PAGE)
      modifies this, refs, bases, inuse.words
      ensures Valid() && Kept(old(mem), mem, old(abs), abs)
      ensures ptr == 0 ==> V() == old(V()) && abs == old(abs)
      ensures sz >= 2048 ==>
        && ptr == page && abs.live == old(abs.live) && abs.all == old(abs.all)
        && (ptr != 0 ==> ptr !in old(abs.big) && abs.big == old(abs.big)[ptr := (sz + PAGE - 1) / PAGE])
      ensures PageSet(V(), abs) <= old(PageSet(V(), abs)) +
        (if sz < 2048 && page != 0 && page <= ptr < page + PAGE then {page} else {})
      ensures sz < 2048 ==>
        && abs.big == old(abs.big)
        && (ptr == 0 <==>
              !HasRoom(old(V()), old(abs), Fit(sz)) &&
              (page == 0 || forall i: nat :: i < NREFS ==> old(inuse.Used())[i]))
        && (ptr != 0 ==>
              ptr !in old(abs.live) && ptr in abs.live && abs.live == old(abs.live)[ptr := abs.live[ptr]] &&
              abs.live[ptr].size == sz)
    {
      hide Inv, Marked, HasRoom, FreshPages, Kept, Fits, Fit, PageSet;
      if sz >= 2048 {
        KeptSame(mem, abs, abs);
        if page == 0 { return 0; }
        BigInv(V(), abs, page, (sz + PAGE - 1) / PAGE);
        abs := BigAbs(abs, page, (sz + PAGE - 1) / PAGE);
        KeptSame(mem, old(abs), abs);
        PagesSame(V(), old(abs), V(), abs);
        return page;
      }
      ptr := SubpageKmalloc(sz, page);
    }

    /** kfree. */
    method Kfree(ptr: nat)
      requires Valid() && (ptr == 0 || ptr in abs.live || ptr in abs.big)
      modifies this, refs, bases, inuse.words
      ensures Valid() && Kept(old(mem), mem, old(abs), abs)
      ensures abs.live == old(abs.live) - {ptr}
      ensures ptr in old(abs.live) || ptr == 0 ==> abs.big == old(abs.big)
      ensures ptr !in old(abs.live) ==> abs.big == old(abs.big) - {ptr}
      ensures PageSet(V(), abs) <= old(PageSet(V(), abs))
    {
      hide Inv, Marked, Kept, PageSet;
      if ptr == 0 {
        KeptSame(mem, abs, abs);
        NullHeld(V(), abs);
        return;
      }
      var rc := SubpageKfree(ptr);
      if rc != 0 {
        ghost var g := abs;
        BigFreeInv(V(), g, ptr);
        abs := BigFreed(g, ptr);
        KeptFewer(old(mem), mem, old(abs), g, abs);
        PagesSame(V(), g, V(), abs);
      }
    }
  }

  lemma OnPageType(r: Ref, a: nat)
    requires OnPage(r, a)
    ensures TypeOf(r) < NSIZES
  {
  }

  lemma TypeKept(r: Ref, r': Ref)
    requires r'.pab == r.pab
    ensures TypeOf(r') == TypeOf(r)
  {
  }

  lemma AgreeMore(mem: map<nat, nat>, mem': map<nat, nat>, a: nat, n: nat, v: nat)
    requires Agree(mem, mem', a, n) && n > 0
    ensures Agree(mem, mem'[a := v], a, n)
  {
  }

  lemma NullHeld(h: Heap, g: Abs)
    requires Inv(h, g, NIL)
    ensures 0 !in g.live && 0 !in g.big
  {
    hide ListsInv;
    if 0 in g.live { PageKnown(h, g, NIL, g.live[0].ref); }
  }

  lemma KeptFewer(mem: map<nat, nat>, mem': map<nat, nat>, g: Abs, g1: Abs, g2: Abs)
    requires Kept(mem, mem', g, g1)
    requires (forall a :: a in g2.live ==> a in g1.live) && (forall a :: a in g2.big ==> a in g1.big)
    ensures Kept(mem, mem', g, g2)
  {
  }

  lemma InSame(h: Heap, g: Abs, i: nat)
    requires ListsInv(h, g) && i in g.all && i < NREFS && TypeOf(h.refs[i]) < NSIZES
    ensures i in g.same[TypeOf(h.refs[i])] && h.used[i]
  {
    hide ListAll, ListSame, Distinct;
  }

  lemma NotFull(h: Heap, g: Abs, i: nat)
    requires Inv(h, g, i) && i in g.all && i < |h.refs| && TypeOf(h.refs[i]) < NSIZES &&
      h.refs[i].nfree != Slots(TypeOf(h.refs[i]))
    ensures Inv(h, g, NIL)
  {
    hide ListsInv, LiveInv, PagesInv, Slots, FreeChain, Distinct, OnPage, TypeOf, FreeHead, PageOf;
    forall j | j in g.all
      ensures j < |h.refs| && PageInv(h, g, j, false)
    {
      AllBelow(h, g, i, j);
    }
  }

  lemma RetireAllList(h: Heap, g: Abs, t: nat, q: nat, p: nat, i: nat)
    requires ListsInv(h, g) && t < NSIZES && q < |g.same[t]| && p < |g.all| && g.same[t][q] == i && g.all[p] == i
    ensures i < NREFS && (Before(g.same[t], q) == NIL || Before(g.same[t], q) < NREFS)
    ensures ListAll(CutSame(h, t, Before(g.same[t], q), i).refs, h.allbase, g.all) && Distinct(g.all)
    ensures forall j :: j in g.all ==> j < NREFS
  {
    hide TypeOf, ListSame, ListAll, Distinct;
    Members(h, g, t);
    var xs := g.same[t];
    assert xs[q] in xs && (q > 0 ==> xs[q - 1] in xs);
    KeepAll(h.refs, CutSame(h, t, Before(xs, q), i).refs, h.allbase, g.all);
  }

  lemma LiveKnown(h: Heap, g: Abs, a: nat)
    requires Inv(h, g, NIL) && a in g.live
    ensures g.live[a].ref in g.all && g.live[a].ref < NREFS == |h.refs|
    ensures OnPage(h.refs[g.live[a].ref], a) && PageOf(h.refs[g.live[a].ref]) <= a
  {
    hide PageInv, PagesInv;
  }

  lemma SameDistinct(h: Heap, g: Abs, t: nat)
    requires ListsInv(h, g) && t < NSIZES
    ensures Distinct(g.same[t])
  {
  }

  lemma NotListed(h: Heap, g: Abs, i: nat)
    requires Inv(h, g, NIL) && i < NREFS && !h.used[i]
    ensures i !in g.all
  {
    hide PageInv, LiveInv, PagesInv;
  }

  lemma OnPageRange(r: Ref, a: nat)
    requires OnPage(r, a)
    ensures PageOf(r) <= a < PageOf(r) + PAGE
  {
  }

  lemma FreshAligned(h: Heap, g: Abs, page: nat, n: nat)
    requires FreshPages(h, g, page, n)
    ensures page > 0 && page % PAGE == 0
  {
  }

  lemma SlotsDef(t: nat)
    requires t < NSIZES
    ensures PAGE / SizeOf(t) == Slots(t)
  {
  }

  lemma ThreadAgree(h: Heap, t: nat, page: nat)
    requires t < NSIZES && page > 0
    ensures Agree(h.mem, Thread(h.mem, page, SizeOf(t), Slots(t)), page, PAGE)
  {
    hide SizeOf, Slots, Agree, Thread, FreeChain;
    ThreadChain(h.mem, page, SizeOf(t), Slots(t));
  }

  lemma KeptSame(mem: map<nat, nat>, g: Abs, g': Abs)
    ensures Kept(mem, mem, g, g')
  {
  }

  lemma ListsKnown(h: Heap, g: Abs, newest: nat)
    requires Inv(h, g, newest)
    ensures ListsInv(h, g)
  {
    hide PageInv, LiveInv, PagesInv, ListsInv;
  }

  lemma PageKnown(h: Heap, g: Abs, newest: nat, i: nat)
    requires Inv(h, g, newest) && i in g.all
    ensures i < |h.refs| && PageInv(h, g, i, i == newest)
  {
    hide PageInv;
  }

  lemma NextOnPage(h: Heap, g: Abs, i: nat, full: bool)
    requires i < |h.refs| && PageInv(h, g, i, full) && i in g.free && g.free[i] != [] && Nth(g.free[i], 1, 0) != 0
    ensures PageOf(h.refs[i]) <= Nth(g.free[i], 1, 0)
  {
    assert g.free[i][1] in g.free[i];
  }
}
