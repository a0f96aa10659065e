/** The stand-in virtual memory system: src/kern/arch/mips/mips/dumbvm.c over the bump allocator
    of src/kern/arch/mips/mips/ram.c. Address spaces are numbers, 0 for NULL; physical memory
    is one sequence of bytes, which the kernel reaches at the same addresses. */
module DumbVm {
  import opened Basics
  import opened Codec
  import opened Memmove

  const STACKPAGES: nat := 12
  const USERSTACK: nat := 0x8000_0000
  const NUM_TLB: nat := 64

  /** struct addrspace: three regions, each with a virtual and a physical base. */
  datatype Space = Space(vbase1: nat, pbase1: nat, npages1: nat, vbase2: nat, pbase2: nat, npages2: nat, stack: nat)

  /** The physical base and the pages of region `k`. */
  function Base(x: Space, k: nat): nat {
    if k == 0 then x.pbase1 else if k == 1 then x.pbase2 else x.stack
  }

  function Pages(x: Space, k: nat): nat {
    if k == 0 then x.npages1 else if k == 1 then x.npages2 else STACKPAGES
  }

  /** Two regions have no byte in common; a region without a base has none at all. */
  predicate Apart(p: nat, n: nat, q: nat, m: nat) {
    p == 0 || q == 0 || p + n * PAGE <= q || q + m * PAGE <= p
  }

  predicate Below(p: nat, n: nat, first: nat) {
    p == 0 || (p % PAGE == 0 && p + n * PAGE <= first)
  }

  /** All regions lie in memory that has been handed out, and no two overlap. */
  ghost predicate Disjoint(spaces: map<nat, Space>, first: nat) {
    && (forall i, k: nat :: i in spaces && k < 3 ==> Below(Base(spaces[i], k), Pages(spaces[i], k), first))
    && (forall i, k: nat, j, l: nat :: i in spaces && j in spaces && k < 3 && l < 3 && (i != j || k != l) ==>
          Apart(Base(spaces[i], k), Pages(spaces[i], k), Base(spaces[j], l), Pages(spaces[j], l)))
  }

  /** What vm_fault asserts of an address space. */
  predicate SetUp(x: Space) {
    && x.vbase1 != 0 && x.pbase1 != 0 && x.npages1 != 0
    && x.vbase2 != 0 && x.pbase2 != 0 && x.npages2 != 0 && x.stack != 0
    && x.vbase1 % PAGE == 0 && x.vbase2 % PAGE == 0
  }

  datatype Option = None | Some(pa: nat)

  /** Which region a page of user space falls into, if any; tops are 32-bit sums. */
  function RegionOf(x: Space, va: nat): nat {
    if x.vbase1 <= va < (x.vbase1 + x.npages1 * PAGE) % WORD then 0
    else if x.vbase2 <= va < (x.vbase2 + x.npages2 * PAGE) % WORD then 1
    else if USERSTACK - STACKPAGES * PAGE <= va < USERSTACK then 2
    else 3
  }

  function VBase(x: Space, k: nat): nat {
    if k == 0 then x.vbase1 else if k == 1 then x.vbase2 else USERSTACK - STACKPAGES * PAGE
  }

  /** The physical address of a page. */
  function Translate(x: Space, va: nat): Option {
    var k := RegionOf(x, va);
    if k == 3 || va < VBase(x, k) then None else Some(va - VBase(x, k) + Base(x, k))
  }

  lemma InRegion(x: Space, va: nat)
    ensures var k := RegionOf(x, va);
      k <= 3 && (k < 3 ==> VBase(x, k) <= va < VBase(x, k) + Pages(x, k) * PAGE)
  {
    ModLess(x.vbase1 + x.npages1 * PAGE);
    ModLess(x.vbase2 + x.npages2 * PAGE);
  }

  lemma ModLess(n: nat)
    ensures n % WORD <= n
  {
  }

  /** A page translates into its region. */
  lemma TranslateWithin(x: Space, va: nat)
    requires Translate(x, va).Some?
    ensures var k := RegionOf(x, va); k < 3 && Base(x, k) <= Translate(x, va).pa < Base(x, k) + Pages(x, k) * PAGE
    ensures RegionOf(x, va) < 3 && Translate(x, va).pa == va - VBase(x, RegionOf(x, va)) + Base(x, RegionOf(x, va))
  {
    InRegion(x, va);
  }

  /** Distinct pages of distinct or equal address spaces never share a frame. */
  lemma FramesDistinct(spaces: map<nat, Space>, first: nat, i: nat, va: nat, j: nat, wa: nat)
    requires Disjoint(spaces, first) && i in spaces && j in spaces && SetUp(spaces[i]) && SetUp(spaces[j])
    requires va % PAGE == 0 && wa % PAGE == 0 && (i != j || va != wa)
    requires Translate(spaces[i], va).Some? && Translate(spaces[j], wa).Some?
    ensures Translate(spaces[i], va).pa != Translate(spaces[j], wa).pa
  {
    hide Translate, RegionOf;
    var x, y := spaces[i], spaces[j];
    TranslateWithin(x, va);
    TranslateWithin(y, wa);
    var k, l := RegionOf(x, va), RegionOf(y, wa);
    if i != j || k != l {
      assert Apart(Base(x, k), Pages(x, k), Base(y, l), Pages(y, l));
    }
  }

  /** The page at `p` lies in `n` pages from `base` on. A region up to the end of the address
      space or past it has no pages at all: its top overflows. */
  predicate InRange(p: nat, base: nat, n: nat) {
    base <= p < base + n * PAGE < WORD
  }

  /** The bases and sizes of the two regions are 32-bit numbers. */
  predicate Sized(x: Space) {
    x.vbase1 < WORD && x.npages1 * PAGE <= WORD && x.vbase2 < WORD && x.npages2 * PAGE <= WORD
  }

  lemma InRangeTop(p: nat, base: nat, n: nat)
    requires base < WORD && n * PAGE <= WORD
    ensures InRange(p, base, n) <==> base <= p < (base + n * PAGE) % WORD
  {
  }

  /** Which pages are mapped, and where: the text region first, then the data region, then the
      twelve pages below USERSTACK, each page at the distance it has from the base of its region;
      no other page is mapped. */
  lemma Mapping(x: Space, p: nat)
    requires Sized(x)
    ensures Translate(x, p) ==
      if InRange(p, x.vbase1, x.npages1) then Some(x.pbase1 + (p - x.vbase1))
      else if InRange(p, x.vbase2, x.npages2) then Some(x.pbase2 + (p - x.vbase2))
      else if InRange(p, 0x7fff_4000, 12) then Some(x.stack + (p - 0x7fff_4000))
      else None
  {
    InRangeTop(p, x.vbase1, x.npages1);
    InRangeTop(p, x.vbase2, x.npages2);
  }

  // ---------------------------------------------------------------- changes of one region

  function WithBase(x: Space, k: nat, p: nat): Space {
    if k == 0 then Space(x.vbase1, p, x.npages1, x.vbase2, x.pbase2, x.npages2, x.stack)
    else if k == 1 then Space(x.vbase1, x.pbase1, x.npages1, x.vbase2, p, x.npages2, x.stack)
    else Space(x.vbase1, x.pbase1, x.npages1, x.vbase2, x.pbase2, x.npages2, p)
  }

  /** Memory fresh from the allocator meets no other region. */
  lemma Placed(spaces: map<nat, Space>, first: nat, i: nat, k: nat)
    requires Disjoint(spaces, first) && i in spaces && k < 3 && Base(spaces[i], k) == 0 && first > 0 &&
      first % PAGE == 0
    ensures Disjoint(spaces[i := WithBase(spaces[i], k, first)], first + Pages(spaces[i], k) * PAGE)
  {
    var n := Pages(spaces[i], k);
    var after := spaces[i := WithBase(spaces[i], k, first)];
    forall j, l: nat | j in after && l < 3
      ensures Pages(after[j], l) == Pages(spaces[j], l)
      ensures Base(after[j], l) == if j == i && l == k then first else Base(spaces[j], l)
    {
    }
    assert forall j, l: nat :: j in spaces && l < 3 ==> Below(Base(spaces[j], l), Pages(spaces[j], l), first);
    hide Base, Pages, WithBase;
  }

  /** Giving a region its pages before it has a base, or taking pages away, does no harm. */
  lemma Shaped(spaces: map<nat, Space>, first: nat, i: nat, y: Space)
    requires Disjoint(spaces, first) && (i in spaces ==> forall k: nat :: k < 3 ==> Base(y, k) == Base(spaces[i], k))
    requires forall k: nat :: k < 3 && Base(y, k) != 0 ==> i in spaces && Pages(y, k) <= Pages(spaces[i], k)
    ensures Disjoint(spaces[i := y], first)
  {
    hide Base, Pages;
  }

  /** The region that as_define_region fills in; 2 when both have a virtual base. */
  function Undefined(x: Space): nat {
    if x.vbase1 == 0 then 0 else if x.vbase2 == 0 then 1 else 2
  }

  /** The address space with `n` pages from `va` on as that region. */
  function Defined(x: Space, va: nat, n: nat): Space {
    if x.vbase1 == 0 then Space(va, x.pbase1, n, x.vbase2, x.pbase2, x.npages2, x.stack)
    else if x.vbase2 == 0 then Space(x.vbase1, x.pbase1, x.npages1, va, x.pbase2, n, x.stack)
    else x
  }

  /** The address space with its three ranges one behind the other from `f` on. */
  function At(x: Space, f: nat): Space {
    Space(x.vbase1, f, x.npages1, x.vbase2, f + x.npages1 * PAGE, x.npages2, f + (x.npages1 + x.npages2) * PAGE)
  }

  /** What as_prepare_load leaves: three ranges, one behind the other. */
  predicate Loaded(x: Space) {
    x.pbase1 != 0 && x.pbase2 == x.pbase1 + x.npages1 * PAGE && x.stack == x.pbase2 + x.npages2 * PAGE
  }

  /** A region without physical memory may be given any number of pages, and one with it no
      more than it has. */
  lemma DefinedInTime(spaces: map<nat, Space>, first: nat, i: nat, va: nat, n: nat)
    requires Disjoint(spaces, first) && i in spaces
    requires var x := spaces[i]; Undefined(x) == 2 || Base(x, Undefined(x)) == 0 || n <= Pages(x, Undefined(x))
    ensures Disjoint(spaces[i := Defined(spaces[i], va, n)], first)
  {
    var x, y := spaces[i], Defined(spaces[i], va, n);
    assert forall k: nat :: k < 3 ==> Base(y, k) == Base(x, k) && (Base(x, k) == 0 || Pages(y, k) <= Pages(x, k));
    hide Base, Pages, Defined, Undefined;
    Shaped(spaces, first, i, y);
  }

  /** as_define_region after as_prepare_load: the regions stay apart just when the region gets no
      more pages than it was loaded with, which is none when it was not defined before. */
  lemma DefinedLate(spaces: map<nat, Space>, first: nat, i: nat, va: nat, n: nat)
    requires Disjoint(spaces, first) && i in spaces && Loaded(spaces[i]) && Undefined(spaces[i]) < 2
    ensures Disjoint(spaces[i := Defined(spaces[i], va, n)], first) <==> n <= Pages(spaces[i], Undefined(spaces[i]))
  {
    var x := spaces[i];
    var k := Undefined(x);
    var y := Defined(x, va, n);
    var after := spaces[i := y];
    if n <= Pages(x, k) {
      DefinedInTime(spaces, first, i, va, n);
    } else {
      var l := Overrun(x, va, n);
      assert after[i] == y && i in after && k < 3;
    }
  }

  /** The pages past those the region was loaded with run into the region behind it. */
  lemma Overrun(x: Space, va: nat, n: nat) returns (l: nat)
    requires Loaded(x) && Undefined(x) < 2 && n > Pages(x, Undefined(x))
    ensures var y, k := Defined(x, va, n), Undefined(x);
      l < 3 && l != k && !Apart(Base(y, k), Pages(y, k), Base(y, l), Pages(y, l))
  {
    MulLess(Pages(x, Undefined(x)), n, PAGE);
    l := if Undefined(x) == 0 && x.npages1 + x.npages2 > 0 then 1 else 2;
  }

  datatype Entry = Entry(valid: bool, v: nat, p: nat)
  datatype FaultType = FaultRead | FaultWrite | FaultReadOnly | FaultOther
  datatype Errno = Ok | EINVAL | EFAULT | EUNIMP | ENOMEM

  /** Where the pages of a region begin and how many it takes to hold `sz` bytes from `va` on,
      in 32-bit arithmetic. */
  function PageStart(va: nat): nat { va - va % PAGE }

  function PageCount(va: nat, sz: nat): nat {
    (((sz + va % PAGE) % WORD + PAGE - 1) % WORD) / PAGE
  }

  /** The pages cover the bytes, and one page fewer would not. */
  lemma Covers(va: nat, sz: nat)
    requires sz + 2 * PAGE <= WORD
    ensures PageStart(va) <= va && va + sz <= PageStart(va) + PageCount(va, sz) * PAGE
    ensures PageCount(va, sz) > 0 ==> PageStart(va) + (PageCount(va, sz) - 1) * PAGE < va + sz
  {
  }

  /** The TLB gets the translation of a page in its first invalid slot, or has no such slot. */
  ghost predicate Entered(err: Errno, tlb: seq<Entry>, tlb': seq<Entry>, page: nat, frame: nat) {
    if forall i: nat :: i < |tlb| ==> tlb[i].valid then err == EFAULT && tlb' == tlb
    else
      err == Ok && exists i: nat :: i < |tlb| && !tlb[i].valid && tlb' == tlb[i := Entry(true, page, frame)]
                                    && forall j: nat :: j < i ==> tlb[j].valid
  }

  /** What a fault at page `p` of a set-up address space does: the page of the region it lies in
      is entered into the TLB, and a page of no region is an error. */
  ghost predicate Served(x: Space, p: nat, err: Errno, tlb: seq<Entry>, tlb': seq<Entry>) {
    if InRange(p, x.vbase1, x.npages1) then Entered(err, tlb, tlb', p, x.pbase1 + (p - x.vbase1))
    else if InRange(p, x.vbase2, x.npages2) then Entered(err, tlb, tlb', p, x.pbase2 + (p - x.vbase2))
    else if InRange(p, 0x7fff_4000, 12) then Entered(err, tlb, tlb', p, x.stack + (p - 0x7fff_4000))
    else err == EFAULT && tlb' == tlb
  }

  lemma ServedNone(x: Space, p: nat, tlb: seq<Entry>)
    requires Sized(x) && Translate(x, p) == None
    ensures Served(x, p, EFAULT, tlb, tlb)
  {
    Mapping(x, p);
  }

  lemma ServedSome(x: Space, p: nat, pa: nat, err: Errno, tlb: seq<Entry>, tlb': seq<Entry>)
    requires Sized(x) && Translate(x, p) == Some(pa) && Entered(err, tlb, tlb', p, pa)
    ensures Served(x, p, err, tlb, tlb')
  {
    hide Entered;
    Mapping(x, p);
  }

  /** Every valid entry is a translation of the address space shown to the hardware. */
  ghost predicate TlbInv(tlb: seq<Entry>, shown: Space) {
    forall i: nat :: i < |tlb| && tlb[i].valid ==>
      SetUp(shown) && tlb[i].v % PAGE == 0 && Translate(shown, tlb[i].v) == Some(tlb[i].p)
  }

  class Vm {
    var first: nat                 // firstpaddr
    var last: nat                  // lastpaddr
    var spaces: map<nat, Space>
    const tlb: array<Entry>
    var active: nat                // the address space last activated
    var spl: nat
    var mem: seq<Byte>
    ghost var shown: Space

    /** What holds even when regions overlap. */
    ghost predicate Framed()
      reads this, tlb
    {
      && 0 < first <= last <= |mem| && first % PAGE == 0 && 0 !in spaces
      && tlb.Length == NUM_TLB && TlbInv(tlb[..], shown)
      && (active == 0 || active in spaces) && (active != 0 ==> shown == spaces[active])
    }

    ghost predicate Valid()
      reads this, tlb
    {
      Framed() && Disjoint(spaces, first)
    }

    constructor (lo: nat, hi: nat, bytes: seq<Byte>)
      requires 0 < lo <= hi <= |bytes| && lo % PAGE == 0
      ensures Valid() && fresh(tlb) && spaces == map[] && first == lo && last == hi && mem == bytes
    {
      first, last, spaces, active, spl, mem := lo, hi, map[], 0, 0, bytes;
      tlb := new Entry[NUM_TLB](_ => Entry(false, 0, 0));
      shown := Space(0, 0, 0, 0, 0, 0, 0);
    }

    /** ram_stealmem. */
    method StealMem(n: nat) returns (pa: nat)
      requires Valid() && first + n * PAGE < WORD
      modifies this`first
      ensures pa == 0 <==> old(first) + n * PAGE > last
      ensures pa == 0 ==> first == old(first)
      ensures pa != 0 ==> pa == old(first) && first == old(first) + n * PAGE
      ensures first <= last && first % PAGE == 0 && first >= old(first)
    {
      var size := n * PAGE;
      if first + size > last { return 0; }
      pa := first;
      first := first + size;
    }

    /** alloc_kpages: what the kernel heap gets meets no region of any address space. */
    method AllocKpages(n: nat) returns (pa: nat)
      requires Valid() && first + n * PAGE < WORD
      modifies this`first
      ensures Valid()
      ensures pa != 0 ==> pa + n * PAGE <= first
      ensures pa != 0 ==>
        forall i, k: nat :: i in spaces && k < 3 ==> Apart(pa, n, Base(spaces[i], k), Pages(spaces[i], k))
    {
      hide Base, Pages;
      pa := StealMem(n);
      Grown(spaces, old(first), first);
    }

    /** as_create; `room` says whether there is memory for the structure. */
    method AsCreate(id: nat, room: bool) returns (ok: bool)
      requires Valid() && id != 0 && id !in spaces
      modifies this`spaces
      ensures Valid() && ok == room
      ensures spaces == if room then old(spaces)[id := Space(0, 0, 0, 0, 0, 0, 0)] else old(spaces)
    {
      if !room { return false; }
      var x := Space(0, 0, 0, 0, 0, 0, 0);
      Shaped(spaces, first, id, x);
      spaces := spaces[id := x];
      ok := true;
    }

    /** as_destroy, also of the address space in use: its frames are never handed out again. */
    method AsDestroy(id: nat)
      requires Valid() && id in spaces
      modifies this`spaces, this`active
      ensures Valid() && spaces == old(spaces) - {id} && active == if id == old(active) then 0 else old(active)
    {
      spaces := spaces - {id};
      if id == active { active := 0; }
    }

    /** as_activate: the whole TLB is invalidated. */
    method AsActivate(id: nat)
      requires Valid() && id in spaces
      modifies this`active, this`shown, tlb
      ensures Valid() && active == id && shown == spaces[id]
      ensures forall i: nat :: i < NUM_TLB ==> !tlb[i].valid
    {
      var i := 0;
      while i < NUM_TLB
        invariant i <= NUM_TLB && forall j: nat :: j < i ==> !tlb[j].valid
        modifies tlb
      {
        tlb[i] := Entry(false, 0, 0);
        i := i + 1;
      }
      active, shown := id, spaces[id];
    }

    /** as_define_region, at any time. */
    method DefineRegion(id: nat, va: nat, sz: nat) returns (err: Errno)
      requires Valid() && id in spaces
      modifies this`spaces, this`shown
      ensures Framed() && (err == Ok || err == EUNIMP)
      ensures err == EUNIMP <==> old(spaces[id].vbase1 != 0 && spaces[id].vbase2 != 0)
      ensures spaces == old(spaces)[id := Defined(old(spaces[id]), PageStart(va), PageCount(va, sz))]
      ensures var x, y, n := old(spaces[id]), spaces[id], PageCount(va, sz);
        if x.vbase1 == 0 then y == Space(va - va % PAGE, x.pbase1, n, x.vbase2, x.pbase2, x.npages2, x.stack)
        else if x.vbase2 == 0 then y == Space(x.vbase1, x.pbase1, x.npages1, va - va % PAGE, x.pbase2, n, x.stack)
        else y == x
      ensures var x := old(spaces[id]);
        err == EUNIMP || Base(x, Undefined(x)) == 0 || PageCount(va, sz) <= Pages(x, Undefined(x)) ==> Valid()
      ensures var x := old(spaces[id]);
        err == Ok && Loaded(x) ==> (Valid() <==> PageCount(va, sz) <= Pages(x, Undefined(x)))
    {
      assert PageStart(va) == va - va % PAGE;
      hide PageStart, PageCount, Translate, Disjoint;
      var x := spaces[id];
      var n := PageCount(va, sz);
      if Undefined(x) < 2 && Loaded(x) { DefinedLate(spaces, first, id, PageStart(va), n); }
      if Undefined(x) == 2 || Base(x, Undefined(x)) == 0 || n <= Pages(x, Undefined(x)) {
        DefinedInTime(spaces, first, id, PageStart(va), n);
      }
      if x.vbase1 == 0 {
        Replace(id, Space(PageStart(va), x.pbase1, n, x.vbase2, x.pbase2, x.npages2, x.stack));
        return Ok;
      }
      if x.vbase2 == 0 {
        Replace(id, Space(x.vbase1, x.pbase1, x.npages1, PageStart(va), x.pbase2, n, x.stack));
        return Ok;
      }
      assert spaces[id := x] == spaces;
      err := EUNIMP;
    }

    /** An address space that is not set up has no entry in the TLB, so it may change. */
    method Replace(id: nat, y: Space)
      requires Framed() && id in spaces && !SetUp(spaces[id])
      modifies this`spaces, this`shown
      ensures Framed() && spaces == old(spaces)[id := y]
    {
      hide Translate, SetUp;
      spaces := spaces[id := y];
      if id == active { shown := y; }
    }

    /** One region gets its physical memory. */
    method Attach(id: nat, k: nat) returns (ok: bool)
      requires Valid() && id in spaces && k < 3 && Base(spaces[id], k) == 0 &&
        first + Pages(spaces[id], k) * PAGE < WORD
      modifies this`spaces, this`shown, this`first
      ensures Valid() && first >= old(first) && last == old(last)
      ensures ok <==> old(first) + Pages(old(spaces[id]), k) * PAGE <= last
      ensures ok ==>
        spaces == old(spaces)[id := WithBase(old(spaces[id]), k, old(first))] &&
        first == old(first) + Pages(old(spaces[id]), k) * PAGE
      ensures !ok ==> spaces == old(spaces) && first == old(first)
    {
      hide Disjoint, Translate;
      var x := spaces[id];
      Placed(spaces, first, id, k);
      ghost var f := first;
      var pa := StealMem(Pages(x, k));
      if pa == 0 { return false; }
      spaces := spaces[id := WithBase(x, k, pa)];
      if id == active { shown := spaces[id]; }
      ok := true;
    }

    /** as_prepare_load. */
    method PrepareLoad(id: nat) returns (err: Errno)
      requires Valid() && id in spaces && spaces[id].pbase1 == 0 && spaces[id].pbase2 == 0 && spaces[id].stack == 0
      requires first + (spaces[id].npages1 + spaces[id].npages2 + STACKPAGES) * PAGE < WORD
      modifies this`spaces, this`shown, this`first
      ensures Valid() && first >= old(first) && spaces.Keys == old(spaces).Keys
      ensures forall j :: j in spaces && j != id ==> spaces[j] == old(spaces)[j]
      ensures err == Ok || err == ENOMEM
      ensures err == Ok <==> old(first + (spaces[id].npages1 + spaces[id].npages2 + STACKPAGES) * PAGE) <= last
      ensures err == Ok ==>
        var x, f := old(spaces[id]), old(first);
        spaces[id] == At(x, f)
        && first == f + (x.npages1 + x.npages2 + STACKPAGES) * PAGE
        && Loaded(spaces[id])
    {
      hide Disjoint, Translate;
      var ok := Attach(id, 0);
      if !ok { return ENOMEM; }
      ok := Attach(id, 1);
      if !ok { return ENOMEM; }
      ok := Attach(id, 2);
      if !ok { return ENOMEM; }
      err := Ok;
    }

    /** vm_fault for a thread whose address space is `cur`: none, or the one last activated. The
        interrupt level comes back, except when the thread has no address space. */
    method Fault(cur: nat, ft: FaultType, address: nat) returns (err: Errno)
      requires Valid() && (cur == 0 || cur == active)
      requires ft != FaultReadOnly && (cur != 0 && ft != FaultOther ==> SetUp(spaces[cur]))
      modifies this`spl, tlb
      ensures Valid()
      ensures spl == if ft != FaultOther && cur == 0 then HIGH else old(spl)
      ensures ft == FaultOther ==> err == EINVAL
      ensures ft != FaultOther && cur == 0 ==> err == EFAULT
      ensures err != Ok ==> tlb[..] == old(tlb[..])
      ensures err == Ok ==> cur != 0 && ft != FaultOther
      ensures ft != FaultOther && cur != 0 ==>
        match Translate(spaces[cur], PageStart(address))
        case None => err == EFAULT
        case Some(pa) => Entered(err, old(tlb[..]), tlb[..], PageStart(address), pa)
      ensures ft != FaultOther && cur != 0 && Sized(spaces[cur]) ==>
        Served(spaces[cur], address - address % PAGE, err, old(tlb[..]), tlb[..])
    {
      hide Disjoint, Entered, Served;
      var saved := spl;
      spl := HIGH;
      var page := PageStart(address);
      if ft == FaultOther {
        spl := saved;
        return EINVAL;
      }
      if cur == 0 { return EFAULT; }
      var x := spaces[cur];
      var paddr;
      if x.vbase1 <= page < (x.vbase1 + x.npages1 * PAGE) % WORD {
        paddr := page - x.vbase1 + x.pbase1;
      } else if x.vbase2 <= page < (x.vbase2 + x.npages2 * PAGE) % WORD {
        paddr := page - x.vbase2 + x.pbase2;
      } else if USERSTACK - STACKPAGES * PAGE <= page < USERSTACK {
        paddr := page - (USERSTACK - STACKPAGES * PAGE) + x.stack;
      } else {
        spl := saved;
        if Sized(x) { ServedNone(x, page, tlb[..]); }
        return EFAULT;
      }
      assert Translate(x, page) == Some(paddr);
      hide Translate;
      ghost var was := tlb[..];
      err := Enter(page, paddr);
      spl := saved;
      if Sized(x) { ServedSome(x, page, paddr, err, was, tlb[..]); }
    }

    /** The search for a free TLB slot. */
    method Enter(page: nat, paddr: nat) returns (err: Errno)
      requires Valid() && page % PAGE == 0 && SetUp(shown) && Translate(shown, page) == Some(paddr)
      modifies tlb
      ensures Valid() && (err == Ok || err == EFAULT) && (err != Ok ==> tlb[..] == old(tlb[..]))
      ensures Entered(err, old(tlb[..]), tlb[..], page, paddr)
    {
      hide Disjoint, Translate, SetUp;
      var i := 0;
      while i < NUM_TLB
        invariant i <= NUM_TLB && tlb[..] == old(tlb[..]) && forall j: nat :: j < i ==> tlb[j].valid
      {
        if !tlb[i].valid {
          tlb[i] := Entry(true, page, paddr);
          return Ok;
        }
        i := i + 1;
      }
      err := EFAULT;
    }

    /** as_copy: a new address space with the same layout and the same contents. A region without
        physical memory is copied from physical address 0. */
    method AsCopy(from: nat, id: nat, room: bool) returns (err: Errno)
      requires Valid() && from in spaces && id != 0 && id !in spaces
      requires first + (spaces[from].npages1 + spaces[from].npages2 + STACKPAGES) * PAGE < WORD
      modifies this
      ensures Valid() && forall j :: j in old(spaces) ==> j in spaces && spaces[j] == old(spaces)[j]
      ensures |mem| == |old(mem)| && forall a: nat :: a < old(first) ==> mem[a] == old(mem)[a]
      ensures err == ENOMEM ==> spaces == old(spaces) && mem == old(mem)
      ensures err == Ok ==> id in spaces && spaces.Keys == old(spaces).Keys + {id} && Loaded(spaces[id])
      ensures err == Ok && InUse(spaces[from], old(first)) ==> Copied(old(mem), mem, spaces[from], spaces[id])
      ensures err == Ok || err == ENOMEM
      ensures err == Ok <==> room && old(first + Demand(spaces[from])) <= last
    {
      hide Disjoint, Translate, Copied, Moved;
      var x := spaces[from];
      ghost var m, f := mem, first;
      Sources(spaces, first, from);
      err := Clone(x, id, room);
      if err != Ok { return; }
      var y := spaces[id];
      if InUse(x, f) { ThreeMoves(m, f, x, y); }
      StaysBelow(m, f, x, y);
      mem := Moved(mem, y.pbase1, x.pbase1, x.npages1 * PAGE);
      mem := Moved(mem, y.pbase2, x.pbase2, x.npages2 * PAGE);
      mem := Moved(mem, y.stack, x.stack, STACKPAGES * PAGE);
    }

    /** A new address space of the same shape, with memory of its own. */
    method Clone(x: Space, id: nat, room: bool) returns (err: Errno)
      requires Valid() && id != 0 && id !in spaces
      requires first + (x.npages1 + x.npages2 + STACKPAGES) * PAGE < WORD
      modifies this`spaces, this`active, this`shown, this`first
      ensures Valid() && first >= old(first) && (err == Ok || err == ENOMEM)
      ensures err == ENOMEM ==> spaces == old(spaces)
      ensures err == Ok <==> room && old(first) + Demand(x) <= last
      ensures err == Ok ==>
        var f := old(first);
        && spaces == old(spaces)[id := At(x, f)]
        && f + (x.npages1 + x.npages2 + STACKPAGES) * PAGE <= last
    {
      hide Disjoint, Translate, Base, Pages;
      var ok := AsCreate(id, room);
      if !ok { return ENOMEM; }
      var y := Space(x.vbase1, 0, x.npages1, x.vbase2, 0, x.npages2, 0);
      assert Disjoint(spaces[id := y], first) by { Unplaced(spaces, first, id, y); }
      Replace(id, y);
      err := PrepareLoad(id);
      if err != Ok { AsDestroy(id); }
    }
  }

  /** Distinct pages of all address spaces in use have distinct frames. */
  ghost predicate FramesApart(spaces: map<nat, Space>) {
    forall i: nat, va: nat, j: nat, wa: nat ::
      i in spaces && j in spaces && SetUp(spaces[i]) && SetUp(spaces[j]) && va % PAGE == 0 && wa % PAGE == 0
      && (i != j || va != wa) && Translate(spaces[i], va).Some? && Translate(spaces[j], wa).Some? ==>
        Translate(spaces[i], va).pa != Translate(spaces[j], wa).pa
  }

  /** What the TLB lets the running program reach is a page of its own, and nobody else's. */
  ghost predicate Isolated(tlb: seq<Entry>, spaces: map<nat, Space>, active: nat) {
    active in spaces ==>
      forall e: nat :: e < |tlb| && tlb[e].valid ==>
        Translate(spaces[active], tlb[e].v) == Some(tlb[e].p) && OnlyFor(spaces, active, tlb[e])
  }

  ghost predicate OnlyFor(spaces: map<nat, Space>, active: nat, e: Entry) {
    forall j: nat, wa: nat ::
      j in spaces && SetUp(spaces[j]) && wa % PAGE == 0 && (j != active || wa != e.v) ==>
        Translate(spaces[j], wa) != Some(e.p)
  }

  datatype Call =
    | CreateCall(id: nat, room: bool)
    | DestroyCall(id: nat)
    | ActivateCall(id: nat)
    | DefineCall(id: nat, va: nat, sz: nat)
    | LoadCall(id: nat)
    | CopyCall(from: nat, id: nat, room: bool)
    | KernelCall(n: nat)
    | FaultCall(user: bool, ft: FaultType, address: nat)

  /** How much memory a call asks for. */
  function Demand(x: Space): nat {
    (x.npages1 + x.npages2 + STACKPAGES) * PAGE
  }

  /** The calls that can be made: the address space exists, what the source asserts holds, and
      no region grows after it has been loaded. */
  predicate Allowed(c: Call, spaces: map<nat, Space>, active: nat, first: nat) {
    match c
    case CreateCall(id, room) => id != 0 && id !in spaces
    case DestroyCall(id) => id in spaces
    case ActivateCall(id) => id in spaces
    case DefineCall(id, va, sz) => id in spaces &&
      var x := spaces[id];
      Undefined(x) == 2 || Base(x, Undefined(x)) == 0 || PageCount(va, sz) <= Pages(x, Undefined(x))
    case LoadCall(id) => id in spaces &&
      var x := spaces[id];
      x.pbase1 == 0 && x.pbase2 == 0 && x.stack == 0 && first + Demand(x) < WORD
    case CopyCall(from, id, room) => from in spaces && id != 0 && id !in spaces && first + Demand(spaces[from]) < WORD
    case KernelCall(n) => first + n * PAGE < WORD
    case FaultCall(user, ft, address) =>
      ft != FaultReadOnly && (user && active in spaces && ft != FaultOther ==> SetUp(spaces[active]))
  }

  /** After any run of calls no two pages share a frame, and the TLB shows the active address
      space only frames of its own. */
  method Run(vm: Vm, calls: seq<Call>)
    requires vm.Valid()
    modifies vm, vm.tlb
    ensures vm.Valid() && FramesApart(vm.spaces) && Isolated(vm.tlb[..], vm.spaces, vm.active)
  {
    hide Disjoint, Translate, SetUp, TlbInv, Base, Pages, PageCount, PageStart, FramesApart, Isolated;
    var k := 0;
    while k < |calls|
      invariant k <= |calls| && vm.Valid()
    {
      if Allowed(calls[k], vm.spaces, vm.active, vm.first) { Step(vm, calls[k]); }
      k := k + 1;
    }
    AllApart(vm.spaces, vm.first);
    AllIsolated(vm.tlb[..], vm.spaces, vm.first, vm.active);
  }

  method Step(vm: Vm, c: Call)
    requires vm.Valid() && Allowed(c, vm.spaces, vm.active, vm.first)
    modifies vm, vm.tlb
    ensures vm.Valid()
  {
    hide Disjoint, Translate, SetUp, TlbInv, Base, Pages, PageCount, PageStart, Copied, InUse, Loaded;
    match c {
      case CreateCall(id, room) => var ok := vm.AsCreate(id, room);
      case DestroyCall(id) => vm.AsDestroy(id);
      case ActivateCall(id) => vm.AsActivate(id);
      case DefineCall(id, va, sz) => var err := vm.DefineRegion(id, va, sz);
      case LoadCall(id) => var err := vm.PrepareLoad(id);
      case CopyCall(from, id, room) => var err := vm.AsCopy(from, id, room);
      case KernelCall(n) => var pa := vm.AllocKpages(n);
      case FaultCall(user, ft, address) => var err := vm.Fault(if user then vm.active else 0, ft, address);
    }
  }

  lemma AllApart(spaces: map<nat, Space>, first: nat)
    requires Disjoint(spaces, first)
    ensures FramesApart(spaces)
  {
    hide Disjoint, Translate, SetUp;
    forall i: nat, va: nat, j: nat, wa: nat | i in spaces && j in spaces && SetUp(spaces[i]) && SetUp(spaces[j])
      && va % PAGE == 0 && wa % PAGE == 0 && (i != j || va != wa)
      && Translate(spaces[i], va).Some? && Translate(spaces[j], wa).Some?
      ensures Translate(spaces[i], va).pa != Translate(spaces[j], wa).pa
    {
      FramesDistinct(spaces, first, i, va, j, wa);
    }
  }

  lemma AllIsolated(tlb: seq<Entry>, spaces: map<nat, Space>, first: nat, active: nat)
    requires Disjoint(spaces, first) && (active in spaces ==> TlbInv(tlb, spaces[active]))
    ensures Isolated(tlb, spaces, active)
  {
    hide Disjoint, Translate, SetUp;
    AllApart(spaces, first);
  }

  /** A region defined after as_prepare_load: one text region of three pages is loaded, and then
      a page of data is defined. The first page of data and the first page of the stack are the
      same frame. */
  method LateRegion() returns (vm: Vm)
    ensures fresh(vm) && vm.Framed() && !vm.Valid() && 1 in vm.spaces && SetUp(vm.spaces[1])
    ensures var x := vm.spaces[1];
      Translate(x, 0x1000_0000).Some? && Translate(x, 0x1000_0000) == Translate(x, USERSTACK - STACKPAGES * PAGE)
  {
    hide Disjoint, TlbInv, Translate, RegionOf, PageStart, PageCount;
    Covers(0x40_0000, 3 * PAGE);
    Covers(0x1000_0000, 1);
    vm := new Vm(PAGE, 20 * PAGE, seq(20 * PAGE, _ => 0));
    var ok := vm.AsCreate(1, true);
    var err := vm.DefineRegion(1, 0x40_0000, 3 * PAGE);
    err := vm.PrepareLoad(1);
    err := vm.DefineRegion(1, 0x1000_0000, 1);
    Mapping(vm.spaces[1], 0x1000_0000);
    Mapping(vm.spaces[1], USERSTACK - STACKPAGES * PAGE);
  }

  lemma Unplaced(spaces: map<nat, Space>, first: nat, i: nat, y: Space)
    requires Disjoint(spaces, first) && i in spaces && spaces[i] == Space(0, 0, 0, 0, 0, 0, 0)
    requires y.pbase1 == 0 && y.pbase2 == 0 && y.stack == 0
    ensures Disjoint(spaces[i := y], first)
  {
    Shaped(spaces, first, i, y);
  }

  predicate SameBytes(m: seq<Byte>, p: nat, m': seq<Byte>, q: nat, n: nat) {
    p + n <= |m| && q + n <= |m'| && m'[q..q + n] == m[p..p + n]
  }

  /** Two address spaces have the same layout, and each byte of the new one is the byte of the
      old one. */
  ghost predicate Copied(m: seq<Byte>, m': seq<Byte>, x: Space, y: Space) {
    && y.vbase1 == x.vbase1 && y.vbase2 == x.vbase2 && y.npages1 == x.npages1 && y.npages2 == x.npages2
    && forall k: nat :: k < 3 ==> SameBytes(m, Base(x, k), m', Base(y, k), Pages(x, k) * PAGE)
  }

  /** The same virtual address reads the same byte in both. */
  lemma CopiedReads(m: seq<Byte>, m': seq<Byte>, x: Space, y: Space, va: nat)
    requires Copied(m, m', x, y) && Translate(x, va).Some?
    ensures Translate(y, va).Some? && Translate(x, va).pa < |m| && Translate(y, va).pa < |m'|
    ensures m'[Translate(y, va).pa] == m[Translate(x, va).pa]
  {
    assert RegionOf(y, va) == RegionOf(x, va);
    TranslateWithin(x, va);
    TranslateWithin(y, va);
    var k := RegionOf(x, va);
    var a, n := va - VBase(x, k), Pages(x, k) * PAGE;
    assert VBase(y, k) == VBase(x, k) && SameBytes(m, Base(x, k), m', Base(y, k), n);
    hide RegionOf, Translate, Base, Pages, VBase;
    assert m'[Base(y, k)..Base(y, k) + n][a] == m[Base(x, k)..Base(x, k) + n][a];
  }

  /** The regions to copy from begin at 0 or lie in memory that has been handed out. */
  lemma Sources(spaces: map<nat, Space>, first: nat, i: nat)
    requires Disjoint(spaces, first) && i in spaces
    ensures var x := spaces[i];
      Source(x.pbase1, x.npages1, first) && Source(x.pbase2, x.npages2, first) && Source(x.stack, STACKPAGES, first)
  {
    var x := spaces[i];
    assert Below(Base(x, 0), Pages(x, 0), first) && Below(Base(x, 1), Pages(x, 1), first) &&
      Below(Base(x, 2), Pages(x, 2), first);
  }

  predicate Source(p: nat, n: nat, first: nat) {
    p == 0 || p + n * PAGE <= first
  }

  /** The copies go to memory that has just been handed out. */
  lemma StaysBelow(m: seq<Byte>, f: nat, x: Space, y: Space)
    requires Source(x.pbase1, x.npages1, f) && Source(x.pbase2, x.npages2, f) && Source(x.stack, STACKPAGES, f)
    requires y == At(x, f)
    requires f + (x.npages1 + x.npages2 + STACKPAGES) * PAGE <= |m|
    ensures var m1 := Moved(m, y.pbase1, x.pbase1, x.npages1 * PAGE);
      var m2 := Moved(m1, y.pbase2, x.pbase2, x.npages2 * PAGE);
      var m3 := Moved(m2, y.stack, x.stack, STACKPAGES * PAGE);
      |m3| == |m| && forall a: nat :: a < f ==> m3[a] == m[a]
  {
    hide Moved;
    var m1 := Moved(m, y.pbase1, x.pbase1, x.npages1 * PAGE);
    var m2 := Moved(m1, y.pbase2, x.pbase2, x.npages2 * PAGE);
    forall a: nat | a < f
      ensures Moved(m2, y.stack, x.stack, STACKPAGES * PAGE)[a] == m[a]
    {
      MovedAt(m, y.pbase1, x.pbase1, x.npages1 * PAGE, a);
      MovedAt(m1, y.pbase2, x.pbase2, x.npages2 * PAGE, a);
      MovedAt(m2, y.stack, x.stack, STACKPAGES * PAGE, a);
    }
  }

  /** The three regions, wherever they are, lie in memory that has been handed out. */
  predicate InUse(x: Space, first: nat) {
    && x.pbase1 + x.npages1 * PAGE <= first && x.pbase2 + x.npages2 * PAGE <= first
    && x.stack + STACKPAGES * PAGE <= first
  }

  /** So it is for every address space that is set up. */
  lemma FromBelow(spaces: map<nat, Space>, first: nat, i: nat)
    requires Disjoint(spaces, first) && i in spaces && forall k: nat :: k < 3 ==> Base(spaces[i], k) != 0
    ensures InUse(spaces[i], first)
  {
    var x := spaces[i];
    assert Below(Base(x, 0), Pages(x, 0), first) && Below(Base(x, 1), Pages(x, 1), first) &&
      Below(Base(x, 2), Pages(x, 2), first);
    assert Base(x, 0) != 0 && Base(x, 1) != 0 && Base(x, 2) != 0;
  }

  lemma ThreeMoves(m: seq<Byte>, f: nat, x: Space, y: Space)
    requires InUse(x, f)
    requires y == At(x, f)
    requires f + (x.npages1 + x.npages2 + STACKPAGES) * PAGE <= |m|
    ensures var m1 := Moved(m, y.pbase1, x.pbase1, x.npages1 * PAGE);
      var m2 := Moved(m1, y.pbase2, x.pbase2, x.npages2 * PAGE);
      var m3 := Moved(m2, y.stack, x.stack, STACKPAGES * PAGE);
      |m3| == |m| && Copied(m, m3, x, y)
  {
    hide Moved;
    var n1, n2, n3 := x.npages1 * PAGE, x.npages2 * PAGE, STACKPAGES * PAGE;
    InARow(m, f, x.pbase1, n1, x.pbase2, n2, x.stack, n3);
    hide SameBytes;
  }

  /** Three copies to the space from `f` on, one behind the other. */
  lemma InARow(m: seq<Byte>, f: nat, p1: nat, n1: nat, p2: nat, n2: nat, p3: nat, n3: nat)
    requires p1 + n1 <= f && p2 + n2 <= f && p3 + n3 <= f && f + n1 + n2 + n3 <= |m|
    ensures var m1 := Moved(m, f, p1, n1);
      var m2 := Moved(m1, f + n1, p2, n2);
      var m3 := Moved(m2, f + n1 + n2, p3, n3);
      SameBytes(m, p1, m3, f, n1) && SameBytes(m, p2, m3, f + n1, n2) && SameBytes(m, p3, m3, f + n1 + n2, n3)
  {
    hide Moved;
    var m1 := Moved(m, f, p1, n1);
    var m2 := Moved(m1, f + n1, p2, n2);
    var m3 := Moved(m2, f + n1 + n2, p3, n3);
    OneOf(m, f, p1, n1);
    OneOf(m1, f + n1, p2, n2);
    OneOf(m2, f + n1 + n2, p3, n3);
    assert m3[f..f + n1] == m1[f..f + n1] && m3[f + n1..f + n1 + n2] == m2[f + n1..f + n1 + n2];
    assert m1[p2..p2 + n2] == m[p2..p2 + n2] && m2[p3..p3 + n3] == m[p3..p3 + n3];
  }

  /** A copy upwards to `dst` changes nothing below it. */
  lemma OneOf(m: seq<Byte>, dst: nat, src: nat, n: nat)
    requires src + n <= dst && dst + n <= |m|
    ensures Moved(m, dst, src, n)[dst..dst + n] == m[src..src + n]
    ensures forall a: nat :: a < dst ==> Moved(m, dst, src, n)[a] == m[a]
  {
  }

  lemma Grown(spaces: map<nat, Space>, f: nat, g: nat)
    requires Disjoint(spaces, f) && f <= g
    ensures Disjoint(spaces, g)
    ensures forall i, k: nat :: i in spaces && k < 3 ==> Below(Base(spaces[i], k), Pages(spaces[i], k), f)
  {
    hide Base, Pages, Apart;
  }
}
