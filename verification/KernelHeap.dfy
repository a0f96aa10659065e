/** The subpage allocator of src/kern/lib/kheap.c as a value: the pagerefs, the two kinds of
    lists threaded through them, the free lists threaded through the free blocks, and what
    each elementary change does to the heap's invariant. */
module KernelHeap {
  import opened Basics

  const NSIZES: nat := 8
  const NREFS: nat := 256
  const NIL: nat := 256          // the null pageref pointer
  const INVALID_OFFSET: nat := 0xffff

  /** sizes[t] */
  function SizeOf(t: nat): (n: nat)
    requires t < NSIZES
    ensures 16 <= n <= 2048 && PAGE % n == 0
  {
    if t == 0 then 16 else if t == 1 then 32 else if t == 2 then 64 else if t == 3 then 128
    else if t == 4 then 256 else if t == 5 then 512 else if t == 6 then 1024 else 2048
  }

  /** The sizes double from 16 on. */
  lemma SizesDouble(t: nat)
    requires 0 < t < NSIZES
    ensures SizeOf(t) == 2 * SizeOf(t - 1)
  {
  }

  /** How many blocks of type `t` make a page. */
  function Slots(t: nat): (n: nat)
    requires t < NSIZES
    ensures n * SizeOf(t) == PAGE && 2 <= n <= 256
  {
    PAGE / SizeOf(t)
  }

  /** struct pageref; the two link fields hold indices, NIL for none. */
  datatype Ref = Ref(same: nat, all: nat, pab: nat, off: nat, nfree: nat)

  function PageOf(r: Ref): nat { r.pab - r.pab % PAGE }
  function TypeOf(r: Ref): nat { r.pab % PAGE }

  /** The words of the free blocks, the pagerefs, which of them are in use, and the list heads. */
  datatype Heap = Heap(mem: map<nat, nat>, refs: seq<Ref>, used: seq<bool>, bases: seq<nat>, allbase: nat)

  /** A live block: the pageref of its page and the size asked for. */
  datatype Block = Block(ref: nat, size: nat)

  /** What the lists spell out, and what the callers hold: subpage blocks by address, and
      whole-page allocations with their number of pages. */
  datatype Abs = Abs(all: seq<nat>, same: seq<seq<nat>>, free: map<nat, seq<nat>>,
                     live: map<nat, Block>, big: map<nat, nat>)

  function Nth(xs: seq<nat>, j: nat, nil: nat): nat {
    if j < |xs| then xs[j] else nil
  }

  /** The link out of position `j` of a list leads to position `j + 1`. */
  predicate LinkAll(refs: seq<Ref>, xs: seq<nat>, j: nat)
    requires j < |xs|
  {
    xs[j] < |refs| && refs[xs[j]].all == Nth(xs, j + 1, NIL)
  }

  predicate LinkSame(refs: seq<Ref>, xs: seq<nat>, j: nat)
    requires j < |xs|
  {
    xs[j] < |refs| && refs[xs[j]].same == Nth(xs, j + 1, NIL)
  }

  predicate LinkFree(mem: map<nat, nat>, xs: seq<nat>, j: nat)
    requires j < |xs|
  {
    xs[j] in mem && mem[xs[j]] == Nth(xs, j + 1, 0)
  }

  ghost predicate ListAll(refs: seq<Ref>, head: nat, xs: seq<nat>) {
    head == Nth(xs, 0, NIL) && forall j: nat :: j < |xs| ==> LinkAll(refs, xs, j)
  }

  ghost predicate ListSame(refs: seq<Ref>, head: nat, xs: seq<nat>) {
    head == Nth(xs, 0, NIL) && forall j: nat :: j < |xs| ==> LinkSame(refs, xs, j)
  }

  ghost predicate FreeChain(mem: map<nat, nat>, head: nat, xs: seq<nat>) {
    head == Nth(xs, 0, 0) && forall j: nat :: j < |xs| ==> LinkFree(mem, xs, j)
  }

  /** The address the free list of a page starts with, 0 for none. */
  function FreeHead(r: Ref): nat {
    if r.off == INVALID_OFFSET then 0 else PageOf(r) + r.off
  }

  /** `a` is the address of a block of the page of `r`. */
  predicate OnPage(r: Ref, a: nat) {
    TypeOf(r) < NSIZES && PageOf(r) <= a < PageOf(r) + PAGE && (a - PageOf(r)) % SizeOf(TypeOf(r)) == 0
  }

  // ---------------------------------------------------------------- the invariant

  ghost predicate ListsInv(h: Heap, g: Abs) {
    && |h.refs| == NREFS && |h.used| == NREFS && |h.bases| == NSIZES && |g.same| == NSIZES
    && ListAll(h.refs, h.allbase, g.all) && Distinct(g.all) && (forall i :: i in g.all ==> i < NREFS)
    && (forall t: nat :: t < NSIZES ==> ListSame(h.refs, h.bases[t], g.same[t]) && Distinct(g.same[t]))
    && (forall i: nat :: i < NREFS ==> (h.used[i] <==> i in g.all))
    && (forall t: nat, i: nat :: t < NSIZES ==> (i in g.same[t] <==> i in g.all && TypeOf(h.refs[i]) == t))
  }

  /** The page of pageref `i` is sound; `full` allows all its blocks to be free. */
  ghost predicate PageInv(h: Heap, g: Abs, i: nat, full: bool)
    requires i < |h.refs|
  {
    var r := h.refs[i];
    && TypeOf(r) < NSIZES && PageOf(r) > 0 && i in g.free
    && var xs := g.free[i];
    && FreeChain(h.mem, FreeHead(r), xs) && Distinct(xs) && |xs| == r.nfree
    && r.nfree <= Slots(TypeOf(r)) && (!full ==> r.nfree < Slots(TypeOf(r)))
    && (forall a :: a in xs ==> OnPage(r, a) && a !in g.live)
    && (forall a: nat :: OnPage(r, a) && a !in xs ==> a in g.live && g.live[a].ref == i)
  }

  /** Every live block lies on the page it says it lies on, and is large enough. */
  ghost predicate LiveInv(h: Heap, g: Abs) {
    forall a :: a in g.live ==>
      var b := g.live[a];
      b.ref in g.all && b.ref < |h.refs| && OnPage(h.refs[b.ref], a) && b.size <= SizeOf(TypeOf(h.refs[b.ref]))
  }

  predicate Apart(a: nat, n: nat, b: nat, m: nat) {
    a + n * PAGE <= b || b + m * PAGE <= a
  }

  /** No two allocations from the page allocator overlap. */
  ghost predicate PagesInv(h: Heap, g: Abs) {
    && (forall i, j :: i in g.all && j in g.all && i != j && i < |h.refs| && j < |h.refs| ==>
      PageOf(h.refs[i]) != PageOf(h.refs[j]))
    && (forall a, i :: a in g.big && i in g.all && i < |h.refs| ==> Apart(a, g.big[a], PageOf(h.refs[i]), 1))
    && (forall a, b :: a in g.big && b in g.big && a != b ==> Apart(a, g.big[a], b, g.big[b]))
    && (forall a :: a in g.big ==> a > 0 && a % PAGE == 0 && g.big[a] > 0)
  }

  /** `newest` is a pageref whose page may be all free, NIL for none. */
  ghost predicate Inv(h: Heap, g: Abs, newest: nat) {
    && ListsInv(h, g) && LiveInv(h, g) && PagesInv(h, g)
    && (forall i :: i in g.all ==> i < |h.refs| && PageInv(h, g, i, i == newest))
  }

  // ---------------------------------------------------------------- what the callers get

  lemma OnPageStep(r: Ref, a: nat, b: nat)
    requires OnPage(r, a) && OnPage(r, b) && a < b
    ensures a + SizeOf(TypeOf(r)) <= b
  {
    var n := SizeOf(TypeOf(r));
    var x, y := a - PageOf(r), b - PageOf(r);
    assert x == x / n * n && y == y / n * n;
    if y / n <= x / n {
      MulMono(y / n, x / n, n);
    } else {
      MulMono(x / n + 1, y / n, n);
    }
  }

  lemma MulMono(x: int, y: int, n: nat)
    requires x <= y
    ensures x * n <= y * n && (x + 1) * n == x * n + n
  {
  }

  /** A block ends on its page. */
  lemma OnPageEnd(r: Ref, a: nat)
    requires OnPage(r, a)
    ensures a + SizeOf(TypeOf(r)) <= PageOf(r) + PAGE
  {
    var n := SizeOf(TypeOf(r));
    var x := a - PageOf(r);
    assert x == x / n * n && PAGE == Slots(TypeOf(r)) * n;
    if Slots(TypeOf(r)) <= x / n {
      MulMono(Slots(TypeOf(r)), x / n, n);
    } else {
      MulMono(x / n + 1, Slots(TypeOf(r)), n);
    }
  }

  /** Distinct pages are apart, and so is all that lies on them. */
  lemma PagesApart(r: Ref, q: Ref, a: nat, b: nat)
    requires PageOf(r) < PageOf(q) && OnPage(r, a) && OnPage(q, b)
    ensures PageOf(r) + PAGE <= PageOf(q) && a < b && a + SizeOf(TypeOf(r)) <= b
  {
    OnPageEnd(r, a);
  }

  /** Live blocks are pairwise disjoint and at least as large as asked for. */
  lemma LiveDisjoint(h: Heap, g: Abs, newest: nat, a: nat, b: nat)
    requires Inv(h, g, newest) && a in g.live && b in g.live && a < b
    ensures var r := h.refs[g.live[a].ref];
      TypeOf(r) < NSIZES && g.live[a].size <= SizeOf(TypeOf(r)) && a + SizeOf(TypeOf(r)) <= b
  {
    var i, j := g.live[a].ref, g.live[b].ref;
    var r, q := h.refs[i], h.refs[j];
    if i == j {
      OnPageStep(r, a, b);
    } else if PageOf(r) < PageOf(q) {
      PagesApart(r, q, a, b);
    } else {
      PagesApart(q, r, b, a);
    }
  }

  /** A subpage block never overlaps a whole-page allocation. */
  lemma LiveApartFromBig(h: Heap, g: Abs, newest: nat, a: nat, b: nat)
    requires Inv(h, g, newest) && a in g.live && b in g.big
    ensures var r := h.refs[g.live[a].ref];
      && TypeOf(r) < NSIZES && g.live[a].size <= SizeOf(TypeOf(r))
      && (a + SizeOf(TypeOf(r)) <= b || b + g.big[b] * PAGE <= a)
  {
    var r := h.refs[g.live[a].ref];
    OnPageEnd(r, a);
  }

  // ---------------------------------------------------------------- taking a block

  function WithRef(h: Heap, i: nat, r: Ref): Heap
    requires i < |h.refs|
  {
    Heap(h.mem, h.refs[i := r], h.used, h.bases, h.allbase)
  }

  /** The allocation at label doalloc from the page of pageref `i`. */
  function Taken(h: Heap, i: nat): Heap
    requires i < |h.refs| && h.refs[i].nfree > 0 && FreeHead(h.refs[i]) in h.mem
  {
    var r := h.refs[i];
    var next := h.mem[FreeHead(r)];
    WithRef(h, i, Ref(r.same, r.all, r.pab,
                      if next == 0 || next < PageOf(r) then INVALID_OFFSET else next - PageOf(r), r.nfree - 1))
  }

  function TakenAbs(g: Abs, i: nat, a: nat, sz: nat): Abs
    requires i in g.free && g.free[i] != []
  {
    Abs(g.all, g.same, g.free[i := g.free[i][1..]], g.live[a := Block(i, sz)], g.big)
  }

  /** The lists do not mind changes to the free list of a page. */
  lemma ListsKeep(h: Heap, g: Abs, i: nat, r: Ref)
    requires ListsInv(h, g) && i < NREFS
    requires r.same == h.refs[i].same && r.all == h.refs[i].all && r.pab == h.refs[i].pab
    ensures ListsInv(WithRef(h, i, r), g)
  {
    var h' := WithRef(h, i, r);
    assert TypeOf(r) == TypeOf(h.refs[i]);
    hide TypeOf, Nth, Distinct;
    forall t: nat | t < NSIZES
      ensures ListSame(h'.refs, h'.bases[t], g.same[t])
    {
      var xs := g.same[t];
      assert ListSame(h.refs, h.bases[t], xs);
      assert forall j: nat :: j < |xs| && LinkSame(h.refs, xs, j) ==> LinkSame(h'.refs, xs, j);
    }
    assert forall j: nat :: j < |g.all| && LinkAll(h.refs, g.all, j) ==> LinkAll(h'.refs, g.all, j);
    hide ListSame, ListAll;
  }

  /** Nor do the blocks and pages. */
  lemma PagesKeep(h: Heap, g: Abs, i: nat, r: Ref)
    requires i < |h.refs| && r.pab == h.refs[i].pab
    ensures PagesInv(h, g) ==> PagesInv(WithRef(h, i, r), g)
    ensures LiveInv(h, g) ==> LiveInv(WithRef(h, i, r), g)
  {
    var h' := WithRef(h, i, r);
    assert forall j: nat :: j < |h.refs| ==>
      PageOf(h'.refs[j]) == PageOf(h.refs[j]) && TypeOf(h'.refs[j]) == TypeOf(h.refs[j]);
    hide PageOf, TypeOf, SizeOf;
  }

  lemma TakeReady(h: Heap, g: Abs, i: nat, full: bool)
    requires i < |h.refs| && PageInv(h, g, i, full) && h.refs[i].nfree > 0
    ensures i in g.free && g.free[i] != []
    ensures var a, r := FreeHead(h.refs[i]), h.refs[i];
      && a == g.free[i][0] && a in h.mem && OnPage(r, a) && a > 0 && a !in g.live
      && r.off == a - PageOf(r) < PAGE
      && h.mem[a] == Nth(g.free[i], 1, 0)
  {
    var r := h.refs[i];
    assert g.free[i][0] in g.free[i] && LinkFree(h.mem, g.free[i], 0);
  }

  lemma TakePage(h: Heap, g: Abs, i: nat, full: bool, sz: nat)
    requires i < |h.refs| && PageInv(h, g, i, full) && h.refs[i].nfree > 0
    ensures i in g.free && g.free[i] != [] && FreeHead(h.refs[i]) in h.mem
    ensures PageInv(Taken(h, i), TakenAbs(g, i, FreeHead(h.refs[i]), sz), i, false)
  {
    TakeReady(h, g, i, full);
    var r, xs := h.refs[i], g.free[i];
    var a, ys := xs[0], xs[1..];
    var h', g' := Taken(h, i), TakenAbs(g, i, a, sz);
    ChainTail(h.mem, FreeHead(r), xs);
    SplitHead(xs);
    if |xs| > 1 { assert xs[1] in xs && OnPage(r, xs[1]); }
    assert FreeHead(h'.refs[i]) == Nth(ys, 0, 0);
    assert PageOf(h'.refs[i]) == PageOf(r) && TypeOf(h'.refs[i]) == TypeOf(r);
    assert forall b: nat :: OnPage(h'.refs[i], b) <==> OnPage(r, b);
    hide FreeChain, FreeHead, SizeOf, Nth, PageOf, OnPage, Distinct, TypeOf;
  }

  lemma ChainTail(mem: map<nat, nat>, head: nat, xs: seq<nat>)
    requires FreeChain(mem, head, xs) && xs != []
    ensures FreeChain(mem, Nth(xs, 1, 0), xs[1..])
  {
    forall j: nat | j < |xs| - 1
      ensures LinkFree(mem, xs[1..], j)
    {
      assert LinkFree(mem, xs, j + 1);
    }
  }

  lemma SplitHead(xs: seq<nat>)
    requires xs != [] && Distinct(xs)
    ensures Distinct(xs[1..]) && xs[0] !in xs[1..]
    ensures forall b :: b in xs <==> b == xs[0] || b in xs[1..]
  {
    assert xs == [xs[0]] + xs[1..];
  }

  /** No block lies on two pages. */
  lemma OnePage(h: Heap, g: Abs, i: nat, j: nat, a: nat)
    requires PagesInv(h, g) && i in g.all && j in g.all && i < |h.refs| && j < |h.refs|
    requires OnPage(h.refs[i], a) && OnPage(h.refs[j], a)
    ensures i == j
  {
    if i != j {
      if PageOf(h.refs[i]) < PageOf(h.refs[j]) { PagesApart(h.refs[i], h.refs[j], a, a); }
      else { PagesApart(h.refs[j], h.refs[i], a, a); }
    }
  }

  lemma TakeOther(h: Heap, g: Abs, i: nat, a: nat, sz: nat, j: nat, full: bool)
    requires i < |h.refs| && i in g.free && g.free[i] != [] && h.refs[i].nfree > 0 && FreeHead(h.refs[i]) in h.mem
    requires j < |h.refs| && j != i && PageInv(h, g, j, full) && !OnPage(h.refs[j], a)
    ensures PageInv(Taken(h, i), TakenAbs(g, i, a, sz), j, full)
  {
    hide FreeChain, FreeHead, SizeOf, PageOf, OnPage, Distinct, TypeOf;
  }

  /** Taking the first free block of a page. */
  lemma TakeInv(h: Heap, g: Abs, newest: nat, i: nat, sz: nat)
    requires Inv(h, g, newest) && i in g.all && h.refs[i].nfree > 0 && (newest == NIL || newest == i)
    requires TypeOf(h.refs[i]) < NSIZES && sz <= SizeOf(TypeOf(h.refs[i]))
    ensures i < |h.refs| && i in g.free && g.free[i] != [] && FreeHead(h.refs[i]) in h.mem
    ensures Inv(Taken(h, i), TakenAbs(g, i, FreeHead(h.refs[i]), sz), NIL)
  {
    hide PageInv, ListsInv, PageOf, TypeOf, SizeOf, FreeHead, PagesInv, OnPage;
    TakeReady(h, g, i, i == newest);
    TakePage(h, g, i, i == newest, sz);
    var a := FreeHead(h.refs[i]);
    var h', g' := Taken(h, i), TakenAbs(g, i, a, sz);
    forall j | j in g.all
      ensures j < |h'.refs| && PageInv(h', g', j, false)
    {
      if j != i {
        if OnPage(h.refs[j], a) { OnePage(h, g, i, j, a); }
        TakeOther(h, g, i, a, sz, j, j == newest);
        assert j != newest by { AllBelow(h, g, newest, j); }
      }
    }
    AllBelow(h, g, newest, i);
    ListsKeep(h, g, i, h'.refs[i]);
    PagesKeep(h, g, i, h'.refs[i]);
    SameBlocks(h, h', i);
    SameAll(h', g, g');
  }

  lemma AllBelow(h: Heap, g: Abs, newest: nat, i: nat)
    requires Inv(h, g, newest) && i in g.all
    ensures i < NREFS == |h.refs|
  {
    hide PageInv;
  }

  /** The lists and pages only depend on the first two parts of the abstract state and on
      the whole-page allocations. */
  lemma SameAll(h: Heap, g: Abs, g': Abs)
    requires g'.all == g.all && g'.same == g.same && g'.big == g.big
    ensures ListsInv(h, g) <==> ListsInv(h, g')
    ensures PagesInv(h, g) <==> PagesInv(h, g')
  {
  }

  lemma SameBlocks(h: Heap, h': Heap, i: nat)
    requires |h'.refs| == |h.refs| && i < |h.refs|
    requires h'.refs[i].pab == h.refs[i].pab && forall j: nat :: j < |h.refs| && j != i ==> h'.refs[j] == h.refs[j]
    ensures forall j: nat, a: nat :: j < |h.refs| ==> (OnPage(h'.refs[j], a) <==> OnPage(h.refs[j], a))
    ensures forall j: nat :: j < |h.refs| ==>
      TypeOf(h'.refs[j]) == TypeOf(h.refs[j]) && PageOf(h'.refs[j]) == PageOf(h.refs[j])
  {
    forall j: nat | j < |h.refs|
      ensures h'.refs[j].pab == h.refs[j].pab
    {
    }
  }

  // ---------------------------------------------------------------- giving a block back

  /** subpage_kfree up to the test for an empty page. */
  function Given(h: Heap, i: nat, a: nat): Heap
    requires i < |h.refs| && PageOf(h.refs[i]) <= a
  {
    var r := h.refs[i];
    Heap(h.mem[a := FreeHead(r)], h.refs[i := Ref(r.same, r.all, r.pab, a - PageOf(r), r.nfree + 1)],
         h.used, h.bases, h.allbase)
  }

  function GivenAbs(g: Abs, i: nat, a: nat): Abs
    requires i in g.free
  {
    Abs(g.all, g.same, g.free[i := [a] + g.free[i]], g.live - {a}, g.big)
  }

  lemma ChainPush(mem: map<nat, nat>, head: nat, xs: seq<nat>, a: nat)
    requires FreeChain(mem, head, xs) && a !in xs && a > 0
    ensures FreeChain(mem[a := head], a, [a] + xs)
  {
    var m, ys := mem[a := head], [a] + xs;
    forall j: nat | j < |ys|
      ensures LinkFree(m, ys, j)
    {
      if j > 0 { assert LinkFree(mem, xs, j - 1) && xs[j - 1] in xs; }
    }
  }

  lemma GivePage(h: Heap, g: Abs, i: nat, a: nat)
    requires i < |h.refs| && PageInv(h, g, i, false) && a in g.live && OnPage(h.refs[i], a)
    ensures i in g.free && PageInv(Given(h, i, a), GivenAbs(g, i, a), i, true)
  {
    var r, xs := h.refs[i], g.free[i];
    var h', g' := Given(h, i, a), GivenAbs(g, i, a);
    ChainPush(h.mem, FreeHead(r), xs, a);
    assert FreeHead(h'.refs[i]) == a;
    assert PageOf(h'.refs[i]) == PageOf(r) && TypeOf(h'.refs[i]) == TypeOf(r);
    assert forall b: nat :: OnPage(h'.refs[i], b) <==> OnPage(r, b);
    assert Distinct([a] + xs);
    hide FreeChain, FreeHead, SizeOf, Nth, PageOf, OnPage, Distinct, TypeOf;
  }

  lemma ChainKeep(mem: map<nat, nat>, head: nat, xs: seq<nat>, a: nat, v: nat)
    requires FreeChain(mem, head, xs) && a !in xs
    ensures FreeChain(mem[a := v], head, xs)
  {
    var mem' := mem[a := v];
    forall j: nat | j < |xs|
      ensures LinkFree(mem', xs, j)
    {
      assert xs[j] in xs && LinkFree(mem, xs, j);
    }
  }

  lemma GiveOther(h: Heap, g: Abs, i: nat, a: nat, j: nat, full: bool)
    requires i < |h.refs| && i in g.free && PageOf(h.refs[i]) <= a
    requires j < |h.refs| && j != i && PageInv(h, g, j, full) && !OnPage(h.refs[j], a)
    ensures PageInv(Given(h, i, a), GivenAbs(g, i, a), j, full)
  {
    ChainKeep(h.mem, FreeHead(h.refs[j]), g.free[j], a, FreeHead(h.refs[i]));
    hide FreeChain, FreeHead, SizeOf, PageOf, OnPage, Distinct, TypeOf;
  }

  /** Giving a live block back to its page, which may become all free. */
  lemma GiveInv(h: Heap, g: Abs, a: nat)
    requires Inv(h, g, NIL) && a in g.live
    ensures var i := g.live[a].ref;
      && i < |h.refs| && i in g.free && PageOf(h.refs[i]) <= a
      && Inv(Given(h, i, a), GivenAbs(g, i, a), i)
  {
    hide PageInv, ListsInv, PageOf, TypeOf, SizeOf, FreeHead, PagesInv, OnPage, LiveInv;
    var i := g.live[a].ref;
    LivePlace(h, g, a);
    AllBelow(h, g, NIL, i);
    GivePage(h, g, i, a);
    var h', g' := Given(h, i, a), GivenAbs(g, i, a);
    forall j | j in g.all
      ensures j < |h'.refs| && PageInv(h', g', j, j == i)
    {
      AllBelow(h, g, NIL, j);
      if j != i {
        if OnPage(h.refs[j], a) { OnePage(h, g, i, j, a); }
        GiveOther(h, g, i, a, j, false);
      }
    }
    var h1 := WithRef(h, i, h'.refs[i]);
    ListsKeep(h, g, i, h'.refs[i]);
    PagesKeep(h, g, i, h'.refs[i]);
    SameMem(h1, h', g);
    SameAll(h', g, g');
    FewerLive(h', g, g');
  }

  lemma LivePlace(h: Heap, g: Abs, a: nat)
    requires LiveInv(h, g) && a in g.live
    ensures g.live[a].ref in g.all && g.live[a].ref < |h.refs| && OnPage(h.refs[g.live[a].ref], a)
    ensures PageOf(h.refs[g.live[a].ref]) <= a
  {
  }

  lemma FewerLive(h: Heap, g: Abs, g': Abs)
    requires LiveInv(h, g) && g'.all == g.all
    requires forall a :: a in g'.live ==> a in g.live && g'.live[a] == g.live[a]
    ensures LiveInv(h, g')
  {
    hide OnPage, SizeOf, TypeOf;
  }

  lemma SameMem(h: Heap, h': Heap, g: Abs)
    requires h'.refs == h.refs && h'.used == h.used && h'.bases == h.bases && h'.allbase == h.allbase
    ensures ListsInv(h, g) ==> ListsInv(h', g)
    ensures PagesInv(h, g) ==> PagesInv(h', g)
    ensures LiveInv(h, g) ==> LiveInv(h', g)
  {
    hide PageOf, TypeOf, SizeOf, Distinct, ListAll, ListSame;
  }

  // ---------------------------------------------------------------- an empty page

  ghost function Blocks(page: nat, size: nat, n: nat): (s: set<nat>)
    ensures forall k: nat :: k < n ==> page + k * size in s
  {
    if n == 0 then {} else Blocks(page, size, n - 1) + {page + (n - 1) * size}
  }

  lemma {:induction false} BlocksCount(page: nat, size: nat, n: nat)
    requires size > 0
    ensures |Blocks(page, size, n)| == n && forall a :: a in Blocks(page, size, n) ==> a < page + n * size
  {
    if n > 0 {
      BlocksCount(page, size, n - 1);
      MulMono(n - 1, n, size);
    }
  }

  ghost function Elems(xs: seq<nat>): set<nat> {
    set x | x in xs
  }

  lemma {:induction false} DistinctCount(xs: seq<nat>)
    requires Distinct(xs)
    ensures |Elems(xs)| == |xs|
  {
    if xs == [] {
      assert Elems(xs) == {};
    } else {
      SplitHead(xs);
      DistinctCount(xs[1..]);
      assert Elems(xs) == Elems(xs[1..]) + {xs[0]};
    }
  }

  lemma BlockIn(r: Ref, a: nat)
    requires OnPage(r, a)
    ensures a in Blocks(PageOf(r), SizeOf(TypeOf(r)), Slots(TypeOf(r)))
  {
    var n := SizeOf(TypeOf(r));
    var k := (a - PageOf(r)) / n;
    assert a == PageOf(r) + k * n;
    OnPageEnd(r, a);
    if Slots(TypeOf(r)) <= k { MulMono(Slots(TypeOf(r)), k, n); }
  }

  /** When the count of free blocks reaches the page's capacity, all its blocks are free. */
  lemma FullPage(h: Heap, g: Abs, i: nat)
    requires i < |h.refs| && PageInv(h, g, i, true) && h.refs[i].nfree == Slots(TypeOf(h.refs[i]))
    ensures forall a: nat :: OnPage(h.refs[i], a) ==> a !in g.live
  {
    hide OnPage, SizeOf, PageOf, TypeOf, Distinct, FreeChain, FreeHead, Blocks, Slots;
    var r, xs := h.refs[i], g.free[i];
    var all := Blocks(PageOf(r), SizeOf(TypeOf(r)), Slots(TypeOf(r)));
    BlocksCount(PageOf(r), SizeOf(TypeOf(r)), Slots(TypeOf(r)));
    DistinctCount(xs);
    var mine := Elems(xs);
    forall a | a in mine
      ensures a in all
    {
      BlockIn(r, a);
    }
    SubsetSame(mine, all);
    forall a: nat | OnPage(r, a)
      ensures a !in g.live
    {
      BlockIn(r, a);
      assert a in mine;
    }
  }

  lemma SubsetSame(s: set<nat>, t: set<nat>)
    requires s <= t && |s| == |t|
    ensures s == t
  {
    if x :| x in t && x !in s {
      assert |t - {x}| == |t| - 1;
      SubsetCount(s, t - {x});
    }
  }

  lemma {:induction false} SubsetCount(s: set<nat>, t: set<nat>)
    requires s <= t
    ensures |s| <= |t|
  {
    assert t == s + (t - s);
  }

  // ---------------------------------------------------------------- retiring a page

  /** The pagerefs describe the same pages with the same free lists. */
  ghost predicate SamePages(h: Heap, h': Heap) {
    && h'.mem == h.mem && |h'.refs| == |h.refs|
    && forall j: nat :: j < |h.refs| ==>
         h'.refs[j].pab == h.refs[j].pab && h'.refs[j].off == h.refs[j].off && h'.refs[j].nfree == h.refs[j].nfree
  }

  function Without(xs: seq<nat>, p: nat): seq<nat>
    requires p < |xs|
  {
    xs[..p] + xs[p + 1..]
  }

  /** The first loop of remove_lists, `prev` the pageref before `i`, NIL for none. */
  function CutSame(h: Heap, t: nat, prev: nat, i: nat): Heap
    requires i < |h.refs| && t < |h.bases| && (prev == NIL || prev < |h.refs|)
  {
    if prev == NIL then
      Heap(h.mem, h.refs, h.used, h.bases[t := h.refs[i].same], h.allbase)
    else
      var r := h.refs[prev];
      WithRef(h, prev, Ref(h.refs[i].same, r.all, r.pab, r.off, r.nfree))
  }

  /** The second loop. */
  function CutAll(h: Heap, prev: nat, i: nat): Heap
    requires i < |h.refs| && (prev == NIL || prev < |h.refs|)
  {
    if prev == NIL then
      Heap(h.mem, h.refs, h.used, h.bases, h.refs[i].all)
    else
      var r := h.refs[prev];
      WithRef(h, prev, Ref(r.same, h.refs[i].all, r.pab, r.off, r.nfree))
  }

  function Retired(h: Heap, t: nat, sprev: nat, aprev: nat, i: nat): Heap
    requires i < |h.refs| && t < |h.bases| && i < |h.used|
    requires (sprev == NIL || sprev < |h.refs|) && (aprev == NIL || aprev < |h.refs|)
  {
    var h' := CutAll(CutSame(h, t, sprev, i), aprev, i);
    Heap(h'.mem, h'.refs, h'.used[i := false], h'.bases, h'.allbase)
  }

  function RetiredAbs(g: Abs, t: nat, q: nat, p: nat, i: nat): Abs
    requires t < |g.same| && q < |g.same[t]| && p < |g.all|
  {
    Abs(Without(g.all, p), g.same[t := Without(g.same[t], q)], g.free - {i}, g.live, g.big)
  }

  /** The member of a list before position `p`, NIL for none. */
  function Before(xs: seq<nat>, p: nat): nat
    requires p < |xs|
  {
    if p == 0 then NIL else xs[p - 1]
  }

  lemma WithoutHas(xs: seq<nat>, p: nat)
    requires p < |xs| && Distinct(xs)
    ensures Distinct(Without(xs, p))
    ensures forall x :: x in Without(xs, p) <==> x in xs && x != xs[p]
  {
    var ys := Without(xs, p);
    forall x | x in xs && x != xs[p]
      ensures x in ys
    {
      var k: nat :| k < |xs| && xs[k] == x;
      assert if k < p then ys[k] == x else ys[k - 1] == x;
    }
  }

  lemma Differ(xs: seq<nat>, j: nat, k: nat)
    requires Distinct(xs) && j < |xs| && k < |xs| && j != k
    ensures xs[j] != xs[k]
  {
    if k < j { assert xs[k] != xs[j]; }
  }

  lemma CutSameList(h: Heap, t: nat, xs: seq<nat>, q: nat)
    requires t < |h.bases| && ListSame(h.refs, h.bases[t], xs) && Distinct(xs) && q < |xs|
    requires forall x :: x in xs ==> x < |h.refs| && x < NIL
    ensures xs[q] < |h.refs| && (Before(xs, q) == NIL || Before(xs, q) < |h.refs|)
    ensures var h' := CutSame(h, t, Before(xs, q), xs[q]); ListSame(h'.refs, h'.bases[t], Without(xs, q))
  {
    hide Distinct;
    assert xs[q] in xs && (q > 0 ==> xs[q - 1] in xs);
    var h', ys := CutSame(h, t, Before(xs, q), xs[q]), Without(xs, q);
    forall j: nat | j < |ys|
      ensures LinkSame(h'.refs, ys, j)
    {
      var k := if j < q then j else j + 1;
      assert LinkSame(h.refs, xs, k) && LinkSame(h.refs, xs, q);
      if 0 < q && k != q - 1 { Differ(xs, k, q - 1); }
    }
  }

  lemma CutAllList(h: Heap, xs: seq<nat>, p: nat)
    requires ListAll(h.refs, h.allbase, xs) && Distinct(xs) && p < |xs|
    requires forall x :: x in xs ==> x < |h.refs| && x < NIL
    ensures xs[p] < |h.refs| && (Before(xs, p) == NIL || Before(xs, p) < |h.refs|)
    ensures var h' := CutAll(h, Before(xs, p), xs[p]); ListAll(h'.refs, h'.allbase, Without(xs, p))
  {
    hide Distinct;
    assert xs[p] in xs && (p > 0 ==> xs[p - 1] in xs);
    var h', ys := CutAll(h, Before(xs, p), xs[p]), Without(xs, p);
    forall j: nat | j < |ys|
      ensures LinkAll(h'.refs, ys, j)
    {
      var k := if j < p then j else j + 1;
      assert LinkAll(h.refs, xs, k) && LinkAll(h.refs, xs, p);
      if 0 < p && k != p - 1 { Differ(xs, k, p - 1); }
    }
  }

  lemma KeepSame(refs: seq<Ref>, refs': seq<Ref>, head: nat, xs: seq<nat>)
    requires ListSame(refs, head, xs) && |refs'| == |refs|
    requires forall x :: x in xs && x < |refs| ==> refs'[x].same == refs[x].same
    ensures ListSame(refs', head, xs)
  {
    forall j: nat | j < |xs|
      ensures LinkSame(refs', xs, j)
    {
      assert LinkSame(refs, xs, j) && xs[j] in xs;
    }
  }

  lemma KeepAll(refs: seq<Ref>, refs': seq<Ref>, head: nat, xs: seq<nat>)
    requires ListAll(refs, head, xs) && |refs'| == |refs|
    requires forall x :: x in xs && x < |refs| ==> refs'[x].all == refs[x].all
    ensures ListAll(refs', head, xs)
  {
    forall j: nat | j < |xs|
      ensures LinkAll(refs', xs, j)
    {
      assert LinkAll(refs, xs, j) && xs[j] in xs;
    }
  }

  lemma SamePage(h: Heap, h': Heap, g: Abs, g': Abs, j: nat, full: bool)
    requires SamePages(h, h') && j < |h.refs| && PageInv(h, g, j, full)
    requires g'.live == g.live && j in g.free && j in g'.free && g'.free[j] == g.free[j]
    ensures PageInv(h', g', j, full)
  {
    var r, r' := h.refs[j], h'.refs[j];
    assert FreeHead(r') == FreeHead(r) && PageOf(r') == PageOf(r) && TypeOf(r') == TypeOf(r);
    assert forall a: nat :: OnPage(r', a) <==> OnPage(r, a);
    hide FreeChain, FreeHead, SizeOf, PageOf, OnPage, Distinct, TypeOf;
  }

  lemma SameApart(h: Heap, h': Heap, g: Abs, g': Abs)
    requires SamePages(h, h') && PagesInv(h, g) && g'.big == g.big && forall i :: i in g'.all ==> i in g.all
    ensures PagesInv(h', g')
  {
    assert forall j: nat :: j < |h.refs| ==> PageOf(h'.refs[j]) == PageOf(h.refs[j]);
    hide PageOf;
  }

  lemma SameLive(h: Heap, h': Heap, g: Abs, g': Abs)
    requires SamePages(h, h') && LiveInv(h, g) && g'.live == g.live
    requires forall a :: a in g.live && g.live[a].ref in g.all ==> g.live[a].ref in g'.all
    ensures LiveInv(h', g')
  {
    assert forall j: nat :: j < |h.refs| ==>
      TypeOf(h'.refs[j]) == TypeOf(h.refs[j]) && PageOf(h'.refs[j]) == PageOf(h.refs[j]);
    hide PageOf, TypeOf, SizeOf;
  }

  lemma CutSamePages(h: Heap, t: nat, sprev: nat, aprev: nat, i: nat)
    requires i < |h.refs| && t < |h.bases| && i < |h.used|
    requires (sprev == NIL || sprev < |h.refs|) && (aprev == NIL || aprev < |h.refs|)
    ensures SamePages(h, Retired(h, t, sprev, aprev, i))
  {
  }

  lemma RetireLists(h: Heap, g: Abs, t: nat, q: nat, p: nat, i: nat)
    requires ListsInv(h, g) && t < NSIZES && q < |g.same[t]| && p < |g.all| && g.same[t][q] == i && g.all[p] == i
    ensures i < NREFS
    ensures var sp, ap := Before(g.same[t], q), Before(g.all, p);
      && (sp == NIL || sp < NREFS) && (ap == NIL || ap < NREFS)
      && ListsInv(Retired(h, t, sp, ap, i), RetiredAbs(g, t, q, p, i))
  {
    hide Distinct, TypeOf, ListSame, ListAll;
    var xs, ys := g.same[t], g.all;
    CutAllOther(h, g, t, q, p, i);
    var sp, ap := Before(xs, q), Before(ys, p);
    var h', g' := Retired(h, t, sp, ap, i), RetiredAbs(g, t, q, p, i);
    WithoutHas(xs, q);
    WithoutHas(ys, p);
    CutSamePages(h, t, sp, ap, i);
    SameTypes(h, h');
    forall u: nat | u < NSIZES
      ensures ListSame(h'.refs, h'.bases[u], g'.same[u])
    {
      CutSameOther(h, g, t, q, u, ap, i);
    }
    hide Without;
  }

  lemma CutAllOther(h: Heap, g: Abs, t: nat, q: nat, p: nat, i: nat)
    requires ListsInv(h, g) && t < NSIZES && q < |g.same[t]| && p < |g.all| && g.same[t][q] == i && g.all[p] == i
    ensures i < NREFS
    ensures var sp, ap := Before(g.same[t], q), Before(g.all, p);
      && (sp == NIL || sp < NREFS) && (ap == NIL || ap < NREFS)
      && var h' := CutAll(CutSame(h, t, sp, i), ap, i);
      && ListAll(h'.refs, h'.allbase, Without(g.all, p))
  {
    hide Distinct, TypeOf, ListSame, ListAll;
    var xs, ys := g.same[t], g.all;
    Members(h, g, t);
    assert ys[p] in ys && (p > 0 ==> ys[p - 1] in ys);
    assert xs[q] in xs && (q > 0 ==> xs[q - 1] in xs);
    var h1 := CutSame(h, t, Before(xs, q), i);
    KeepAll(h.refs, h1.refs, h.allbase, ys);
    CutAllList(h1, ys, p);
  }

  lemma Members(h: Heap, g: Abs, t: nat)
    requires ListsInv(h, g) && t < NSIZES
    ensures forall x: nat :: x in g.same[t] ==> x in g.all && x < NREFS && TypeOf(h.refs[x]) == t
  {
    hide Distinct, TypeOf, ListSame, ListAll;
    forall x: nat | x in g.same[t]
      ensures x in g.all && x < NREFS && TypeOf(h.refs[x]) == t
    {
      assert x in g.same[t] <==> x in g.all && TypeOf(h.refs[x]) == t;
    }
  }

  lemma SameTypes(h: Heap, h': Heap)
    requires SamePages(h, h')
    ensures forall j: nat :: j < |h.refs| ==> TypeOf(h'.refs[j]) == TypeOf(h.refs[j])
  {
  }

  lemma CutSameOther(h: Heap, g: Abs, t: nat, q: nat, u: nat, ap: nat, i: nat)
    requires ListsInv(h, g) && t < NSIZES && q < |g.same[t]| && g.same[t][q] == i && u < NSIZES && i < NREFS
    requires ap == NIL || ap < NREFS
    ensures var sp := Before(g.same[t], q);
      && (sp == NIL || sp < NREFS)
      && var h' := CutAll(CutSame(h, t, sp, i), ap, i);
      && ListSame(h'.refs, h'.bases[u], if u == t then Without(g.same[t], q) else g.same[u])
  {
    hide Distinct, TypeOf, LinkSame, LinkAll, Nth, ListSame, ListAll;
    var xs, sp := g.same[t], Before(g.same[t], q);
    Members(h, g, t);
    Members(h, g, u);
    assert xs[q] in xs && (q > 0 ==> xs[q - 1] in xs);
    var h1 := CutSame(h, t, sp, i);
    var ys := if u == t then Without(g.same[t], q) else g.same[u];
    if u == t {
      CutSameList(h, t, xs, q);
    } else {
      KeepSame(h.refs, h1.refs, h.bases[u], ys);
    }
    KeepSame(h1.refs, CutAll(h1, ap, i).refs, h1.bases[u], ys);
  }

  /** An all-free page can be taken off the lists and handed back. */
  lemma RetireInv(h: Heap, g: Abs, t: nat, q: nat, p: nat, i: nat)
    requires Inv(h, g, i) && t < NSIZES && q < |g.same[t]| && p < |g.all| && g.same[t][q] == i && g.all[p] == i
    requires i < |h.refs| && TypeOf(h.refs[i]) == t && h.refs[i].nfree == Slots(t)
    ensures var sp, ap := Before(g.same[t], q), Before(g.all, p);
      && (sp == NIL || sp < NREFS) && (ap == NIL || ap < NREFS)
      && Inv(Retired(h, t, sp, ap, i), RetiredAbs(g, t, q, p, i), NIL)
  {
    hide PageInv, ListsInv, LiveInv, PagesInv, Slots, TypeOf, Retired;
    Lengths(h, g);
    assert g.all[p] in g.all;
    RetireLists(h, g, t, q, p, i);
    var sp, ap := Before(g.same[t], q), Before(g.all, p);
    var h', g' := Retired(h, t, sp, ap, i), RetiredAbs(g, t, q, p, i);
    CutSamePages(h, t, sp, ap, i);
    WithoutHas(g.all, p);
    FullPage(h, g, i);
    forall a | a in g.live
      ensures g.live[a].ref in g'.all
    {
      LivePlace(h, g, a);
    }
    SameLive(h, h', g, g');
    SameApart(h, h', g, g');
    forall j | j in g'.all
      ensures j < |h'.refs| && PageInv(h', g', j, false)
    {
      FreeKnown(h, g, j, false);
      SamePage(h, h', g, g', j, false);
    }
    forall j | j in g'.all
      ensures j != NIL
    {
      AllBelow(h, g, i, j);
    }
  }

  lemma Lengths(h: Heap, g: Abs)
    requires ListsInv(h, g)
    ensures |h.refs| == NREFS && |h.used| == NREFS && |h.bases| == NSIZES && |g.same| == NSIZES && Distinct(g.all)
  {
  }

  lemma FreeKnown(h: Heap, g: Abs, j: nat, full: bool)
    requires j < |h.refs| && PageInv(h, g, j, full)
    ensures j in g.free
  {
  }

  // ---------------------------------------------------------------- writes by the callers

  /** Two memories agree everywhere but in the `n` bytes at `a`. */
  ghost predicate Agree(mem: map<nat, nat>, mem': map<nat, nat>, a: nat, n: nat) {
    forall x: nat :: x < a || a + n <= x ==> (x in mem <==> x in mem') && (x in mem && x in mem' ==> mem[x] == mem'[x])
  }

  function WithMem(h: Heap, mem: map<nat, nat>): Heap {
    Heap(mem, h.refs, h.used, h.bases, h.allbase)
  }

  lemma ChainAgree(mem: map<nat, nat>, mem': map<nat, nat>, a: nat, n: nat, head: nat, xs: seq<nat>)
    requires FreeChain(mem, head, xs) && Agree(mem, mem', a, n)
    requires forall b :: b in xs ==> b < a || a + n <= b
    ensures FreeChain(mem', head, xs)
  {
    forall j: nat | j < |xs|
      ensures LinkFree(mem', xs, j)
    {
      assert LinkFree(mem, xs, j) && xs[j] in xs;
    }
  }

  lemma WritePage(h: Heap, g: Abs, mem: map<nat, nat>, a: nat, n: nat, j: nat, full: bool)
    requires j < |h.refs| && PageInv(h, g, j, full) && Agree(h.mem, mem, a, n)
    requires forall b: nat :: OnPage(h.refs[j], b) && b !in g.live ==> b < a || a + n <= b
    ensures PageInv(WithMem(h, mem), g, j, full)
  {
    hide OnPage, SizeOf, PageOf, TypeOf, Distinct, FreeHead;
    ChainAgree(h.mem, mem, a, n, FreeHead(h.refs[j]), g.free[j]);
    hide FreeChain, Agree;
  }

  /** A free block and the bytes of a live one do not meet. */
  lemma FreeApart(h: Heap, g: Abs, newest: nat, a: nat, j: nat, b: nat)
    requires Inv(h, g, newest) && a in g.live && j in g.all && j < |h.refs| && OnPage(h.refs[j], b) && b !in g.live
    ensures g.live[a].ref < |h.refs| && TypeOf(h.refs[g.live[a].ref]) < NSIZES
    ensures b < a || a + SizeOf(TypeOf(h.refs[g.live[a].ref])) <= b
  {
    hide PageInv, ListsInv, PageOf, TypeOf, SizeOf;
    LivePlace(h, g, a);
    var i := g.live[a].ref;
    if i == j {
      if a < b { OnPageStep(h.refs[i], a, b); }
    } else if PageOf(h.refs[i]) < PageOf(h.refs[j]) {
      PagesApart(h.refs[i], h.refs[j], a, b);
    } else {
      PagesApart(h.refs[j], h.refs[i], b, a);
    }
  }

  /** Whatever a caller writes to a block it holds, the heap does not mind. */
  lemma WriteInv(h: Heap, g: Abs, newest: nat, a: nat, mem: map<nat, nat>)
    requires Inv(h, g, newest) && a in g.live && g.live[a].ref < |h.refs| && TypeOf(h.refs[g.live[a].ref]) < NSIZES
    requires Agree(h.mem, mem, a, SizeOf(TypeOf(h.refs[g.live[a].ref])))
    ensures Inv(WithMem(h, mem), g, newest)
  {
    hide PageInv, ListsInv, LiveInv, PagesInv, PageOf, TypeOf, SizeOf, OnPage, Agree;
    var n := SizeOf(TypeOf(h.refs[g.live[a].ref]));
    forall j | j in g.all
      ensures j < |h.refs| && PageInv(WithMem(h, mem), g, j, j == newest)
    {
      forall b: nat | OnPage(h.refs[j], b) && b !in g.live
        ensures b < a || a + n <= b
      {
        FreeApart(h, g, newest, a, j, b);
      }
      WritePage(h, g, mem, a, n, j, j == newest);
    }
    SameMem(h, WithMem(h, mem), g);
  }

  /** The same for a whole-page allocation. */
  lemma WriteBigInv(h: Heap, g: Abs, newest: nat, a: nat, mem: map<nat, nat>)
    requires Inv(h, g, newest) && a in g.big && Agree(h.mem, mem, a, g.big[a] * PAGE)
    ensures Inv(WithMem(h, mem), g, newest)
  {
    hide PageInv, ListsInv, LiveInv, PageOf, TypeOf, SizeOf, Agree;
    forall j | j in g.all
      ensures j < |h.refs| && PageInv(WithMem(h, mem), g, j, j == newest)
    {
      WritePage(h, g, mem, a, g.big[a] * PAGE, j, j == newest);
    }
    SameMem(h, WithMem(h, mem), g);
  }

  // ---------------------------------------------------------------- a new page

  /** The free list threaded through `n` blocks, each pointing to the one below. */
  function Thread(mem: map<nat, nat>, page: nat, size: nat, n: nat): map<nat, nat> {
    if n == 0 then mem
    else Thread(mem, page, size, n - 1)[page + (n - 1) * size := if n == 1 then 0 else page + (n - 2) * size]
  }

  function Down(page: nat, size: nat, n: nat): seq<nat> {
    if n == 0 then [] else [page + (n - 1) * size] + Down(page, size, n - 1)
  }

  lemma {:induction false} DownBlocks(page: nat, size: nat, n: nat)
    requires size > 0
    ensures |Down(page, size, n)| == n && Distinct(Down(page, size, n))
    ensures forall a :: a in Down(page, size, n) ==> page <= a < page + n * size && (a - page) % size == 0
    ensures forall k: nat :: k < n ==> page + k * size in Down(page, size, n)
  {
    if n > 0 {
      DownBlocks(page, size, n - 1);
      MulMono(n - 1, n, size);
      MulMod(n - 1, size);
      var xs, x := Down(page, size, n - 1), page + (n - 1) * size;
      assert Down(page, size, n) == [x] + xs;
      assert x !in xs;
    }
  }

  lemma MulMod(k: nat, n: nat)
    requires n > 0
    ensures (k * n) % n == 0
  {
    var q, r := k * n / n, k * n % n;
    assert k * n == q * n + r;
    if k < q { MulMono(k + 1, q, n); MulMono(k, k, n); }
    if q < k { MulMono(q + 1, k, n); MulMono(q, q, n); }
  }

  lemma {:induction false} ThreadChain(mem: map<nat, nat>, page: nat, size: nat, n: nat)
    requires size > 0 && page > 0
    ensures FreeChain(Thread(mem, page, size, n), if n == 0 then 0 else page + (n - 1) * size, Down(page, size, n))
    ensures Agree(mem, Thread(mem, page, size, n), page, n * size)
  {
    if n > 0 {
      ThreadChain(mem, page, size, n - 1);
      DownBlocks(page, size, n - 1);
      MulMono(n - 1, n, size);
      var m, x, xs := Thread(mem, page, size, n - 1), page + (n - 1) * size, Down(page, size, n - 1);
      var head := if n == 1 then 0 else page + (n - 2) * size;
      assert Thread(mem, page, size, n) == m[x := head];
      assert Down(page, size, n) == [x] + xs;
      ChainPush(m, head, xs, x);
    }
  }

  /** subpage_kmalloc between getting a page and label doalloc. */
  function Added(h: Heap, i: nat, t: nat, page: nat): Heap
    requires i < |h.refs| && i < |h.used| && t < NSIZES && t < |h.bases|
  {
    Heap(Thread(h.mem, page, SizeOf(t), Slots(t)),
         h.refs[i := Ref(h.bases[t], h.allbase, page + t, (Slots(t) - 1) * SizeOf(t), Slots(t))],
         h.used[i := true], h.bases[t := i], i)
  }

  function AddedAbs(g: Abs, i: nat, t: nat, page: nat): Abs
    requires t < NSIZES && t < |g.same|
  {
    Abs([i] + g.all, g.same[t := [i] + g.same[t]], g.free[i := Down(page, SizeOf(t), Slots(t))], g.live, g.big)
  }

  /** `page` is the first of `n` pages that nobody holds. */
  ghost predicate FreshPages(h: Heap, g: Abs, page: nat, n: nat) {
    && page > 0 && page % PAGE == 0 && n > 0
    && (forall i :: i in g.all && i < |h.refs| ==> Apart(page, n, PageOf(h.refs[i]), 1))
    && (forall a :: a in g.big ==> Apart(page, n, a, g.big[a]))
  }

  lemma NewRef(r: Ref, page: nat, t: nat)
    requires page % PAGE == 0 && t < NSIZES && r.pab == page + t
    ensures PageOf(r) == page && TypeOf(r) == t
  {
  }

  /** The blocks of a page, bottom to top. */
  lemma DownPage(r: Ref, page: nat, t: nat, a: nat)
    requires page % PAGE == 0 && t < NSIZES && r.pab == page + t
    ensures OnPage(r, a) <==> a in Down(page, SizeOf(t), Slots(t))
  {
    hide Down, SizeOf, Slots, Distinct;
    NewRef(r, page, t);
    DownBlocks(page, SizeOf(t), Slots(t));
    if OnPage(r, a) {
      var k := (a - page) / SizeOf(t);
      assert a == page + k * SizeOf(t);
      if Slots(t) <= k { MulMono(Slots(t), k, SizeOf(t)); }
    }
  }

  lemma AddPage(h: Heap, g: Abs, i: nat, t: nat, page: nat)
    requires i < |h.refs| && i < |h.used| && t < NSIZES && t < |h.bases| && t < |g.same|
    requires page > 0 && page % PAGE == 0 && forall a :: a in g.live ==> a < page || page + PAGE <= a
    ensures PageInv(Added(h, i, t, page), AddedAbs(g, i, t, page), i, true)
  {
    hide FreeChain, Distinct, Down, Thread, SizeOf, Slots, OnPage, PageOf, TypeOf;
    var h', g' := Added(h, i, t, page), AddedAbs(g, i, t, page);
    var r := h'.refs[i];
    NewRef(r, page, t);
    DownBlocks(page, SizeOf(t), Slots(t));
    ThreadChain(h.mem, page, SizeOf(t), Slots(t));
    MulMono(Slots(t) - 1, Slots(t), SizeOf(t));
    assert FreeHead(r) == page + (Slots(t) - 1) * SizeOf(t);
    forall a: nat
      ensures OnPage(r, a) <==> a in g'.free[i]
    {
      DownPage(r, page, t, a);
    }
  }

  lemma AddOther(h: Heap, g: Abs, i: nat, t: nat, page: nat, j: nat, full: bool)
    requires i < |h.refs| && i < |h.used| && t < NSIZES && t < |h.bases| && t < |g.same| && page > 0
    requires j < |h.refs| && j != i && PageInv(h, g, j, full)
    requires forall b: nat :: OnPage(h.refs[j], b) ==> b < page || page + PAGE <= b
    ensures PageInv(Added(h, i, t, page), AddedAbs(g, i, t, page), j, full)
  {
    hide OnPage, PageOf, TypeOf, Distinct, FreeHead, FreeChain, Agree, SizeOf, Slots, Down, Thread;
    ThreadChain(h.mem, page, SizeOf(t), Slots(t));
    var mem := Thread(h.mem, page, SizeOf(t), Slots(t));
    WritePage(h, g, mem, page, PAGE, j, full);
  }

  lemma ListPush(refs: seq<Ref>, refs': seq<Ref>, head: nat, xs: seq<nat>, i: nat)
    requires ListAll(refs, head, xs) && |refs'| == |refs| && i < |refs| && i !in xs
    requires forall x: nat :: x < |refs| && x != i ==> refs'[x] == refs[x]
    requires refs'[i].all == head
    ensures ListAll(refs', i, [i] + xs)
  {
    var ys := [i] + xs;
    forall j: nat | j < |ys|
      ensures LinkAll(refs', ys, j)
    {
      if j > 0 { assert LinkAll(refs, xs, j - 1) && xs[j - 1] in xs; }
    }
  }

  lemma SamePush(refs: seq<Ref>, refs': seq<Ref>, head: nat, xs: seq<nat>, i: nat)
    requires ListSame(refs, head, xs) && |refs'| == |refs| && i < |refs| && i !in xs
    requires forall x: nat :: x < |refs| && x != i ==> refs'[x] == refs[x]
    requires refs'[i].same == head
    ensures ListSame(refs', i, [i] + xs)
  {
    var ys := [i] + xs;
    forall j: nat | j < |ys|
      ensures LinkSame(refs', ys, j)
    {
      if j > 0 { assert LinkSame(refs, xs, j - 1) && xs[j - 1] in xs; }
    }
  }

  lemma AddLists(h: Heap, g: Abs, i: nat, t: nat, page: nat)
    requires ListsInv(h, g) && i < NREFS && !h.used[i] && t < NSIZES && page % PAGE == 0
    ensures ListsInv(Added(h, i, t, page), AddedAbs(g, i, t, page))
  {
    hide ListAll, ListSame, TypeOf, SizeOf, Slots, Down, Thread;
    var h', g' := Added(h, i, t, page), AddedAbs(g, i, t, page);
    NewRef(h'.refs[i], page, t);
    ListPush(h.refs, h'.refs, h.allbase, g.all, i);
    forall u: nat | u < NSIZES
      ensures ListSame(h'.refs, h'.bases[u], g'.same[u]) && Distinct(g'.same[u])
      ensures forall x: nat :: x in g'.same[u] <==> x in g'.all && TypeOf(h'.refs[x]) == u
    {
      Members(h, g, u);
      if u == t {
        SamePush(h.refs, h'.refs, h.bases[t], g.same[t], i);
      } else {
        KeepSame(h.refs, h'.refs, h.bases[u], g.same[u]);
      }
    }
  }

  lemma AddPages(h: Heap, g: Abs, i: nat, t: nat, page: nat)
    requires PagesInv(h, g) && FreshPages(h, g, page, 1) && i !in g.all
    requires i < |h.refs| && i < |h.used| && t < NSIZES && t < |h.bases| && t < |g.same|
    ensures PagesInv(Added(h, i, t, page), AddedAbs(g, i, t, page))
  {
    var h' := Added(h, i, t, page);
    NewRef(h'.refs[i], page, t);
    hide SizeOf, Slots, Down, Thread, PageOf;
  }

  lemma AddLive(h: Heap, g: Abs, i: nat, t: nat, page: nat)
    requires LiveInv(h, g) && i !in g.all && i < |h.refs| && i < |h.used| && t < NSIZES && t < |h.bases| && t < |g.same|
    ensures LiveInv(Added(h, i, t, page), AddedAbs(g, i, t, page))
  {
    hide SizeOf, Slots, Down, Thread, PageOf, OnPage, TypeOf;
  }

  /** A page nobody holds becomes an all-free page of the heap. */
  lemma AddInv(h: Heap, g: Abs, i: nat, t: nat, page: nat)
    requires Inv(h, g, NIL) && i < NREFS && !h.used[i] && t < NSIZES && FreshPages(h, g, page, 1)
    ensures Inv(Added(h, i, t, page), AddedAbs(g, i, t, page), i)
  {
    hide PageInv, LiveInv, PagesInv, PageOf, TypeOf, SizeOf, OnPage, ListAll, ListSame, Slots, Thread, Down, Distinct;
    var h', g' := Added(h, i, t, page), AddedAbs(g, i, t, page);
    AddLists(h, g, i, t, page);
    AddPages(h, g, i, t, page);
    AddLive(h, g, i, t, page);
    forall a | a in g.live
      ensures a < page || page + PAGE <= a
    {
      LivePlace(h, g, a);
      OffPage(h.refs[g.live[a].ref], a, page);
    }
    AddPage(h, g, i, t, page);
    forall j | j in g.all
      ensures PageInv(h', g', j, false)
    {
      forall b: nat | OnPage(h.refs[j], b)
        ensures b < page || page + PAGE <= b
      {
        OffPage(h.refs[j], b, page);
      }
      AddOther(h, g, i, t, page, j, false);
    }
  }

  lemma OffPage(r: Ref, a: nat, page: nat)
    requires OnPage(r, a) && Apart(page, 1, PageOf(r), 1)
    ensures a < page || page + PAGE <= a
  {
  }

  // ---------------------------------------------------------------- whole pages, and routing

  function BigAbs(g: Abs, a: nat, n: nat): Abs {
    Abs(g.all, g.same, g.free, g.live, g.big[a := n])
  }

  function BigFreed(g: Abs, a: nat): Abs {
    Abs(g.all, g.same, g.free, g.live, g.big - {a})
  }

  lemma BigInv(h: Heap, g: Abs, a: nat, n: nat)
    requires Inv(h, g, NIL) && FreshPages(h, g, a, n)
    ensures a !in g.big && Inv(h, BigAbs(g, a, n), NIL)
  {
    hide LiveInv, PageOf, TypeOf, ListAll, ListSame, Distinct, PageInv;
    var g' := BigAbs(g, a, n);
    FewerLive(h, g, g');
    forall j | j in g.all
      ensures PageInv(h, g', j, false)
    {
      FreeKnown(h, g, j, false);
      SamePage(h, h, g, g', j, false);
    }
  }

  lemma BigFreeInv(h: Heap, g: Abs, a: nat)
    requires Inv(h, g, NIL)
    ensures Inv(h, BigFreed(g, a), NIL)
  {
    hide LiveInv, PageOf, TypeOf, ListAll, ListSame, Distinct, PageInv;
    var g' := BigFreed(g, a);
    FewerLive(h, g, g');
    forall j | j in g.all
      ensures PageInv(h, g', j, false)
    {
      FreeKnown(h, g, j, false);
      SamePage(h, h, g, g', j, false);
    }
  }

  /** The page search of subpage_kfree finds the page of a live block, and only that. */
  lemma RouteLive(h: Heap, g: Abs, a: nat, i: nat)
    requires Inv(h, g, NIL) && a in g.live && i in g.all && i < |h.refs|
    ensures PageOf(h.refs[i]) <= a < PageOf(h.refs[i]) + PAGE <==> i == g.live[a].ref
  {
    hide PageInv, ListsInv, SizeOf, LiveInv, PageOf, TypeOf;
    LivePlace(h, g, a);
    var j := g.live[a].ref;
    if i != j && PageOf(h.refs[i]) <= a < PageOf(h.refs[i]) + PAGE {
      SamePageOf(h.refs[i], h.refs[j], a);
    }
  }

  lemma SamePageOf(r: Ref, q: Ref, a: nat)
    requires PageOf(r) <= a < PageOf(r) + PAGE && PageOf(q) <= a < PageOf(q) + PAGE
    ensures PageOf(r) == PageOf(q)
  {
  }

  /** It finds no page for a whole-page allocation. */
  lemma RouteBig(h: Heap, g: Abs, a: nat, i: nat)
    requires Inv(h, g, NIL) && a in g.big && i in g.all && i < |h.refs|
    ensures !(PageOf(h.refs[i]) <= a < PageOf(h.refs[i]) + PAGE)
  {
    hide PageInv, ListsInv, SizeOf, LiveInv;
  }

  /** Every page the heap holds has a live block on it. */
  lemma PageBusy(h: Heap, g: Abs, i: nat)
    requires i < |h.refs| && PageInv(h, g, i, false)
    ensures exists a: nat :: a in g.live && g.live[a].ref == i
  {
    hide FreeChain, FreeHead, Down, SizeOf, Slots, Distinct, OnPage, PageOf, TypeOf;
    var r, xs := h.refs[i], g.free[i];
    var t := TypeOf(r);
    SplitPab(r);
    var ys := Down(PageOf(r), SizeOf(t), Slots(t));
    DownBlocks(PageOf(r), SizeOf(t), Slots(t));
    DistinctCount(xs);
    DistinctCount(ys);
    if forall y :: y in ys ==> y in xs {
      SubsetCount(Elems(ys), Elems(xs));
      assert false;
    }
    var y :| y in ys && y !in xs;
    DownPage(r, PageOf(r), t, y);
  }

  lemma SplitPab(r: Ref)
    ensures PageOf(r) % PAGE == 0 && r.pab == PageOf(r) + TypeOf(r)
  {
  }

  /** When every block has been given back, so has every page and every pageref. */
  lemma AllReturned(h: Heap, g: Abs)
    requires Inv(h, g, NIL) && g.live == map[]
    ensures g.all == [] && h.allbase == NIL && forall i: nat :: i < NREFS ==> !h.used[i]
  {
    hide PageInv, ListSame, LiveInv, PagesInv, Distinct;
    if g.all != [] {
      assert g.all[0] in g.all;
      PageBusy(h, g, g.all[0]);
    }
  }
}
