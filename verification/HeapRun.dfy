/** Whole runs of the kernel heap over the page allocator it really has: alloc_kpages hands out
    the next pages of memory and free_kpages keeps them. A caller holds the pointers it was
    given, stores words in what they point to, and frees them in any order. */
module HeapRun {
  import opened Basics
  import opened KernelHeap
  import opened Kheap

  datatype Call =
    | Malloc(sz: nat)
    | Free(j: nat)                 // the j-th pointer held
    | Store(j: nat, o: nat, v: nat)   // a word at offset o from the j-th pointer

  /** Everything the heap has been given lies below `brk`. */
  ghost predicate Under(h: Heap, g: Abs, brk: nat) {
    && (forall p :: p in PageSet(h, g) ==> p + PAGE <= brk)
    && (forall a :: a in g.big ==> a + g.big[a] * PAGE <= brk)
  }

  /** The number of bytes asked for at an address, whole pages for large requests. */
  ghost function Held(g: Abs, p: nat): nat {
    if p in g.live then g.live[p].size else if p in g.big then g.big[p] * PAGE else 0
  }

  /** The pointers held are exactly the live allocations, each held once. */
  ghost predicate Holds(held: seq<nat>, g: Abs) {
    && Distinct(held) && 0 !in held
    && (forall p: nat :: p in held <==> p in g.live || p in g.big)
  }

  lemma UnderFresh(h: Heap, g: Abs, brk: nat, n: nat)
    requires Under(h, g, brk) && brk > 0 && brk % PAGE == 0 && n > 0
    ensures FreshPages(h, g, brk, n)
  {
    hide PageOf;
    forall i | i in g.all && i < |h.refs|
      ensures PageOf(h.refs[i]) + PAGE <= brk
    {
      assert PageOf(h.refs[i]) in PageSet(h, g);
    }
  }

  /** Any two allocations held are apart. */
  lemma HeldApart(h: Heap, g: Abs, held: seq<nat>, p: nat, q: nat)
    requires Inv(h, g, NIL) && Holds(held, g) && p in held && q in held && p < q
    ensures p + Held(g, p) <= q
  {
    hide ListsInv, LiveInv, PageInv, Distinct;
    if p in g.live && q in g.live {
      LiveDisjoint(h, g, NIL, p, q);
    } else if p in g.live {
      LiveApartFromBig(h, g, NIL, p, q);
    } else if q in g.live {
      LiveApartFromBig(h, g, NIL, q, p);
    } else {
      assert Apart(p, g.big[p], q, g.big[q]);
    }
  }

  /** No address is both a block and a whole-page allocation. */
  lemma OneKind(h: Heap, g: Abs, p: nat)
    requires Inv(h, g, NIL) && p in g.live
    ensures p !in g.big
  {
    hide ListsInv, PageInv;
    if p in g.big { LiveApartFromBig(h, g, NIL, p, p); }
  }

  lemma DistinctMore(xs: seq<nat>, x: nat)
    requires Distinct(xs) && x !in xs
    ensures Distinct(xs + [x])
  {
  }

  lemma DistinctFewer(xs: seq<nat>, j: nat)
    requires Distinct(xs) && j < |xs|
    ensures Distinct(xs[..j] + xs[j + 1..]) && forall p: nat :: p in xs[..j] + xs[j + 1..] <==> p in xs && p != xs[j]
  {
    WithoutHas(xs, j);
  }

  /** The pages a request takes from the page allocator. */
  function PagesFor(sz: nat): (n: nat)
    ensures n > 0 && sz <= n * PAGE
  {
    if sz < 2048 then 1 else (sz + PAGE - 1) / PAGE
  }

  /** The word at `a` is part of the allocation at `p`. */
  ghost predicate Spans(g: Abs, p: nat, a: nat) {
    (p in g.live || p in g.big) && p <= a && a + 4 <= p + Held(g, p)
  }

  /** Every word that was stored is there, in an allocation that is held. */
  ghost predicate Intact(mem: map<nat, nat>, stored: map<nat, nat>, g: Abs) {
    forall a :: a in stored ==> a in mem && mem[a] == stored[a] && exists p: nat :: Spans(g, p, a)
  }

  /** The words outside `n` bytes at `p`. */
  ghost function Outside(stored: map<nat, nat>, p: nat, n: nat): map<nat, nat> {
    map a | a in stored && !(p <= a < p + n) :: stored[a]
  }

  /** The sizes asked for are there. */
  ghost predicate Sized(held: seq<nat>, sizes: seq<nat>, g: Abs) {
    |sizes| == |held| && forall j: nat :: j < |held| ==> sizes[j] <= Held(g, held[j])
  }

  class Client {
    const heap: KHeap
    var held: seq<nat>
    var sizes: seq<nat>
    var brk: nat                   // firstpaddr, as the kernel sees it
    const limit: nat
    ghost var stored: map<nat, nat>

    ghost predicate Valid()
      reads this, heap, heap.refs, heap.bases, heap.inuse, heap.inuse.words
    {
      && heap.Valid() && brk > 0 && brk % PAGE == 0 && Under(heap.V(), heap.abs, brk) && Holds(held, heap.abs)
      && Sized(held, sizes, heap.abs) && Intact(heap.mem, stored, heap.abs)
    }

    constructor (start: nat, end: nat)
      requires start > 0 && start % PAGE == 0
      ensures Valid() && held == [] && limit == end && stored == map[]
      ensures fresh(heap) && fresh(heap.refs) && fresh(heap.bases) && fresh(heap.inuse) && fresh(heap.inuse.words)
    {
      hide Inv, PageSet;
      heap := new KHeap();
      held, sizes, brk, limit := [], [], start, end;
      stored := map[];
      new;
      NoPages(heap.V(), heap.abs);
    }

    /** kmalloc over alloc_kpages. */
    method Malloc(sz: nat) returns (ptr: nat)
      requires Valid()
      modifies this, heap, heap.refs, heap.bases, heap.inuse.words
      ensures Valid() && stored == old(stored)
      ensures ptr == 0 ==> held == old(held)
      ensures ptr != 0 ==> held == old(held) + [ptr] && sz <= Held(heap.abs, ptr)
      ensures sz >= 2048 ==> (ptr != 0 <==> old(brk) + (sz + PAGE - 1) / PAGE * PAGE <= limit)
      ensures sz < 2048 && old(brk) + PAGE <= limit && (exists i: nat :: i < NREFS && !old(heap.inuse.Used())[i]) ==>
        ptr != 0
    {
      hide Inv, Under, Holds, Kept, FreshPages, PageSet, HasRoom, Fits, Fit, Intact;
      var n := PagesFor(sz);
      var page := if brk + n * PAGE <= limit then brk else 0;
      ghost var h, g := heap.V(), heap.abs;
      UnderFresh(h, g, brk, n);
      ptr := heap.Kmalloc(sz, page);
      if ptr != 0 {
        HoldsMore(held, g, heap.V(), heap.abs, ptr, sz < 2048);
        SizedMore(held, sizes, g, heap.abs, ptr, sz);
        held, sizes := held + [ptr], sizes + [sz];
        IntactMore(h.mem, heap.mem, stored, g, heap.abs, ptr);
      }
      if page != 0 && ptr != 0 && (sz >= 2048 || page <= ptr < page + PAGE) {
        UnderMore(h, g, heap.V(), heap.abs, brk, n, ptr);
        brk := brk + n * PAGE;
      } else {
        UnderSame(h, g, heap.V(), heap.abs, brk);
      }
    }

    /** kfree of a pointer held. */
    method Free(j: nat)
      requires Valid() && j < |held|
      modifies this`held, this`sizes, this`stored, heap, heap.refs, heap.bases, heap.inuse.words
      ensures Valid() && held == old(held[..j] + held[j + 1..]) &&
        stored == old(Outside(stored, held[j], Held(heap.abs, held[j])))
    {
      hide Inv, Under, Kept, PageSet, Sized, Intact, Holds, Held, Distinct, Outside;
      ghost var h, g := heap.V(), heap.abs;
      var ptr := held[j];
      HoldsAt(held, h, g, j);
      heap.Kfree(ptr);
      HoldsFewer(held, h, g, heap.abs, j);
      SizedFewer(held, sizes, g, heap.abs, j);
      IntactFewer(h.mem, heap.mem, stored, g, heap.abs, ptr);
      UnderSame(h, g, heap.V(), heap.abs, brk);
      held, sizes := held[..j] + held[j + 1..], sizes[..j] + sizes[j + 1..];
      stored := Outside(stored, ptr, Held(g, ptr));
    }

    /** The caller writes a word anywhere into what it holds. */
    method Store(j: nat, o: nat, v: nat)
      requires Valid() && j < |held| && o % 4 == 0 && o + 4 <= sizes[j]
      modifies this`stored, heap`mem
      ensures Valid() && stored == old(stored)[held[j] + o := v]
    {
      hide Inv, Under, PageSet, Kept, Holds;
      ghost var h, g := heap.V(), heap.abs;
      var ptr := held[j];
      HoldsAt(held, h, g, j);
      assert Spans(g, ptr, ptr + o);
      heap.mem := heap.mem[ptr + o := v];
      StoreInv(h, g, ptr, o, v);
      PagesSame(h, g, heap.V(), g);
      UnderSame(h, g, heap.V(), heap.abs, brk);
      stored := stored[ptr + o := v];
    }

    /** Any run: at the end the pointers held are exactly the allocations, any two of them are
        apart, and whatever was stored in them is still there. */
    method Run(calls: seq<Call>)
      requires Valid()
      modifies this, heap, heap.refs, heap.bases, heap.inuse.words
      ensures Valid()
      ensures forall p: nat, q: nat :: p in held && q in held && p < q ==> p + Held(heap.abs, p) <= q
      ensures forall a :: a in stored ==> a in heap.mem && heap.mem[a] == stored[a]
    {
      hide Inv, Under, Holds, Kept, PageSet, Held;
      var k := 0;
      while k < |calls|
        invariant k <= |calls| && Valid()
      {
        match calls[k] {
          case Malloc(sz) => var ptr := Malloc(sz);
          case Free(j) => if j < |held| { Free(j); }
          case Store(j, o, v) => if j < |held| && o % 4 == 0 && o + 4 <= sizes[j] { Store(j, o, v); }
        }
        k := k + 1;
      }
      forall p: nat, q: nat | p in held && q in held && p < q
        ensures p + Held(heap.abs, p) <= q
      {
        HeldApart(heap.V(), heap.abs, held, p, q);
      }
    }

    /** When everything has been freed, no page is kept. */
    method Drain()
      requires Valid()
      modifies this`held, this`sizes, this`stored, heap, heap.refs, heap.bases, heap.inuse.words
      ensures Valid() && held == [] && PageSet(heap.V(), heap.abs) == {} && heap.abs.big == map[]
    {
      hide Inv, Under, Kept, PageSet, Sized, Intact;
      while held != []
        invariant Valid()
        decreases |held|
      {
        Free(0);
      }
      NothingHeld(heap.V(), heap.abs);
    }
  }

  lemma HoldsAt(held: seq<nat>, h: Heap, g: Abs, j: nat)
    requires Inv(h, g, NIL) && Holds(held, g) && j < |held|
    ensures Distinct(held) && (held[j] in g.live || held[j] in g.big) && (held[j] in g.live ==> held[j] !in g.big)
  {
    hide Inv;
    assert held[j] in held;
    if held[j] in g.live { OneKind(h, g, held[j]); }
  }

  lemma HoldsFewer(held: seq<nat>, h: Heap, g: Abs, g': Abs, j: nat)
    requires Inv(h, g, NIL) && Holds(held, g) && j < |held|
    requires g'.live == g.live - {held[j]} && g'.big == if held[j] in g.live then g.big else g.big - {held[j]}
    ensures Holds(held[..j] + held[j + 1..], g')
    ensures forall q: nat :: q != held[j] ==> Held(g', q) == Held(g, q)
  {
    hide Inv, Distinct;
    HoldsAt(held, h, g, j);
    DistinctFewer(held, j);
  }

  lemma SizedMore(held: seq<nat>, sizes: seq<nat>, g: Abs, g': Abs, p: nat, sz: nat)
    requires Sized(held, sizes, g) && p !in held && sz <= Held(g', p)
    requires forall q: nat :: q != p ==> Held(g', q) == Held(g, q)
    ensures Sized(held + [p], sizes + [sz], g')
  {
    hide Held;
    assert forall j: nat :: j < |held| ==> held[j] in held;
  }

  lemma SizedFewer(held: seq<nat>, sizes: seq<nat>, g: Abs, g': Abs, j: nat)
    requires Sized(held, sizes, g) && j < |held| && Distinct(held)
    requires forall q: nat :: q != held[j] ==> Held(g', q) == Held(g, q)
    ensures |sizes| == |held| && Sized(held[..j] + held[j + 1..], sizes[..j] + sizes[j + 1..], g')
  {
    hide Held;
    var xs, ns := held[..j] + held[j + 1..], sizes[..j] + sizes[j + 1..];
    forall i: nat | i < |xs|
      ensures ns[i] <= Held(g', xs[i])
    {
      var k := if i < j then i else i + 1;
      assert xs[i] == held[k] && ns[i] == sizes[k];
      Differ(held, k, j);
    }
  }

  lemma IntactMore(mem: map<nat, nat>, mem': map<nat, nat>, stored: map<nat, nat>, g: Abs, g': Abs, p: nat)
    requires Intact(mem, stored, g) && Kept(mem, mem', g, g') && Held(g, p) == 0
    requires forall q: nat :: q != p ==> Held(g', q) == Held(g, q)
    requires (forall a :: a in g.live ==> a in g'.live) && (forall a :: a in g.big ==> a in g'.big)
    ensures Intact(mem', stored, g')
  {
    forall a | a in stored
      ensures a in mem' && mem'[a] == stored[a] && exists q: nat :: Spans(g', q, a)
    {
      var q: nat :| Spans(g, q, a);
      assert SameAt(mem, mem', a) && Spans(g', q, a);
    }
  }

  lemma IntactFewer(mem: map<nat, nat>, mem': map<nat, nat>, stored: map<nat, nat>, g: Abs, g': Abs, p: nat)
    requires Intact(mem, stored, g) && Kept(mem, mem', g, g')
    requires forall q: nat :: q != p ==> Held(g', q) == Held(g, q)
    requires (forall a :: a in g.live && a != p ==> a in g'.live) && (forall a :: a in g.big && a != p ==> a in g'.big)
    ensures Intact(mem', Outside(stored, p, Held(g, p)), g')
  {
    forall a | a in Outside(stored, p, Held(g, p))
      ensures a in mem' && mem'[a] == stored[a] && exists q: nat :: Spans(g', q, a)
    {
      var q: nat :| Spans(g, q, a);
      assert SameAt(mem, mem', a) && Spans(g', q, a);
    }
  }

  lemma LiveRoom(h: Heap, g: Abs, a: nat)
    requires Inv(h, g, NIL) && a in g.live
    ensures var r := h.refs[g.live[a].ref]; TypeOf(r) < NSIZES && g.live[a].size <= SizeOf(TypeOf(r))
  {
    hide ListsInv, PageInv, PagesInv;
  }

  lemma StoreInv(h: Heap, g: Abs, p: nat, o: nat, v: nat)
    requires Inv(h, g, NIL) && Spans(g, p, p + o)
    ensures Inv(WithMem(h, h.mem[p + o := v]), g, NIL)
  {
    hide Inv;
    var mem := h.mem[p + o := v];
    if p in g.live {
      LiveKnown(h, g, p);
      LiveRoom(h, g, p);
      WriteInv(h, g, NIL, p, mem);
    } else {
      WriteBigInv(h, g, NIL, p, mem);
    }
  }

  lemma NoPages(h: Heap, g: Abs)
    requires Inv(h, g, NIL) && g.live == map[] && g.big == map[]
    ensures PageSet(h, g) == {}
  {
    hide Inv;
    AllReturned(h, g);
  }

  lemma NothingHeld(h: Heap, g: Abs)
    requires Inv(h, g, NIL) && Holds([], g)
    ensures PageSet(h, g) == {} && g.big == map[]
  {
    hide Inv, PageSet;
    assert forall p: nat :: p !in g.live && p !in g.big;
    assert g.live == map[] && g.big == map[];
    NoPages(h, g);
  }

  lemma HoldsMore(held: seq<nat>, g: Abs, h': Heap, g': Abs, p: nat, small: bool)
    requires Holds(held, g) && Inv(h', g', NIL) && p != 0
    requires small ==> p !in g.live && p in g'.live && g'.live == g.live[p := g'.live[p]] && g'.big == g.big
    requires !small ==> p !in g.big && p in g'.big && g'.big == g.big[p := g'.big[p]] && g'.live == g.live
    ensures Holds(held + [p], g') && p !in held && Held(g, p) == 0 && (!small ==> p !in g'.live)
  {
    hide Inv;
    if p in g'.live { OneKind(h', g', p); }
    DistinctMore(held, p);
  }

  lemma UnderSame(h: Heap, g: Abs, h': Heap, g': Abs, brk: nat)
    requires Under(h, g, brk) && PageSet(h', g') <= PageSet(h, g)
    requires forall a :: a in g'.big ==> a in g.big && g'.big[a] == g.big[a]
    ensures Under(h', g', brk)
  {
  }

  lemma UnderMore(h: Heap, g: Abs, h': Heap, g': Abs, brk: nat, n: nat, ptr: nat)
    requires Under(h, g, brk) && PageSet(h', g') <= PageSet(h, g) + {brk} && n > 0
    requires g'.big == g.big || g'.big == g.big[brk := n]
    ensures Under(h', g', brk + n * PAGE)
  {
    hide PageSet;
  }
}
