/** The process table of src/kern/thread/pid_manager.c as a value. Pointers to pid_info_blocks
    are numbers, 0 for NULL; a pointer that has been freed may come back from kmalloc. */
module PidTable {
  import opened Basics

  const MAX_PIDS: nat := 100

  /** struct pid_info_block. */
  datatype Info = Info(pid: int, parent: int, children: seq<nat>, exited: bool, status: int)

  /** The allocated blocks, the table, number_of_procs and next_pid. */
  datatype Table = Table(heap: map<nat, Info>, slots: seq<nat>, count: int, next: int)

  /** get_pid_block; pid 0 passes validate_pid but has no slot. */
  function GetBlock(slots: seq<nat>, pid: int): nat
    requires |slots| == MAX_PIDS
  {
    if 1 <= pid <= MAX_PIDS then slots[pid - 1] else 0
  }

  /** should_free_pid; the block of a parent is looked at only when there is one. */
  predicate ShouldFree(heap: map<nat, Info>, slots: seq<nat>, b: nat)
    requires |slots| == MAX_PIDS && b in heap
    requires GetBlock(slots, heap[b].parent) == 0 || GetBlock(slots, heap[b].parent) in heap
  {
    var p := heap[b].parent;
    heap[b].exited && (p < 2 || GetBlock(slots, p) == 0 || heap[GetBlock(slots, p)].exited)
  }

  // ---------------------------------------------------------------- the invariant

  /** How many slots are taken. */
  function Taken(slots: seq<nat>): (n: nat)
    ensures n <= |slots|
  {
    if slots == [] then 0 else (if slots[0] != 0 then 1 else 0) + Taken(slots[1..])
  }

  /** Slots and blocks point at each other. */
  ghost predicate Paired(heap: map<nat, Info>, slots: seq<nat>) {
    && |slots| == MAX_PIDS && 0 !in heap
    && (forall i: int :: GetBlock(slots, i) != 0 ==> GetBlock(slots, i) in heap && heap[GetBlock(slots, i)].pid == i)
    && (forall b :: b in heap ==> GetBlock(slots, heap[b].pid) == b)
  }

  /** The pointers a process would follow when it exits. */
  ghost predicate Family(heap: map<nat, Info>, b: nat)
    requires b in heap
  {
    var xs := heap[b].children;
    Distinct(xs) && b !in xs && forall c :: c in xs ==> c in heap && heap[c].parent == heap[b].pid
  }

  ghost predicate Families(heap: map<nat, Info>) {
    forall b :: b in heap && heap[b].pid >= 2 && !heap[b].exited ==> Family(heap, b)
  }

  ghost predicate Inv(t: Table) {
    && Paired(t.heap, t.slots) && Families(t.heap)
    && 1 <= t.next <= MAX_PIDS && t.count == Taken(t.slots)
  }

  lemma SlotPut(slots: seq<nat>, i: int, b: nat)
    requires |slots| == MAX_PIDS && 1 <= i <= MAX_PIDS
    ensures var slots' := slots[i - 1 := b];
      forall j: int :: GetBlock(slots', j) == (if j == i then b else GetBlock(slots, j))
  {
    var slots' := slots[i - 1 := b];
    forall j: int
      ensures GetBlock(slots', j) == (if j == i then b else GetBlock(slots, j))
    {
    }
  }

  lemma SameSlots(s: seq<nat>, t: seq<nat>)
    requires |s| == MAX_PIDS == |t| && forall i: int :: GetBlock(s, i) == GetBlock(t, i)
    ensures s == t
  {
    forall i: nat | i < MAX_PIDS
      ensures s[i] == t[i]
    {
      assert GetBlock(s, i + 1) == GetBlock(t, i + 1);
    }
  }

  lemma {:induction false} TakenPut(slots: seq<nat>, i: nat, b: nat)
    requires i < |slots|
    ensures Taken(slots[i := b]) == Taken(slots) + (if b != 0 then 1 else 0) - (if slots[i] != 0 then 1 else 0)
  {
    if i == 0 {
      assert slots[i := b][1..] == slots[1..];
    } else {
      TakenPut(slots[1..], i - 1, b);
      assert slots[i := b][1..] == slots[1..][i - 1 := b];
    }
  }

  lemma {:induction false} TakenAll(slots: seq<nat>)
    ensures Taken(slots) == |slots| <==> forall i: nat :: i < |slots| ==> slots[i] != 0
  {
    if slots != [] {
      TakenAll(slots[1..]);
      assert forall i: nat :: i < |slots| - 1 ==> slots[1..][i] == slots[i + 1];
      if Taken(slots) == |slots| {
        forall i: nat | i < |slots|
          ensures slots[i] != 0
        {
          if i > 0 { assert slots[1..][i - 1] != 0; }
        }
      }
    }
  }

  // ---------------------------------------------------------------- the circular scan

  /** The `d`-th pid from `start` on, going round. */
  function Circ(start: int, d: nat): (i: int)
    requires 1 <= start <= MAX_PIDS
    ensures 1 <= i <= MAX_PIDS
  {
    (start - 1 + d) % MAX_PIDS + 1
  }

  lemma CircStep(start: int, d: nat)
    requires 1 <= start <= MAX_PIDS
    ensures Circ(start, d + 1) == Circ(start, d) % MAX_PIDS + 1
    ensures d <= MAX_PIDS ==> (Circ(start, d) == start <==> d == 0 || d == MAX_PIDS)
  {
  }

  /** Every pid is met on the way round. */
  lemma CircAll(start: int, i: int)
    requires 1 <= start <= MAX_PIDS && 1 <= i <= MAX_PIDS
    ensures exists d: nat :: d < MAX_PIDS && Circ(start, d) == i
  {
    var d: nat := if start <= i then i - start else i - start + MAX_PIDS;
    assert Circ(start, d) == i;
  }

  // ---------------------------------------------------------------- adding a process

  function WithChild(heap: map<nat, Info>, pb: nat, b: nat): map<nat, Info> {
    if pb in heap then
      heap[pb := Info(heap[pb].pid, heap[pb].parent, heap[pb].children + [b], heap[pb].exited, heap[pb].status)]
    else heap
  }

  /** inform_process_add once it has found pid `i` free and got a block at `b`. */
  function Added(t: Table, i: int, b: nat, parent: int): Table
    requires |t.slots| == MAX_PIDS && 1 <= i <= MAX_PIDS
  {
    var info := Info(i, parent, [], false, 0);
    var heap := WithChild(t.heap, GetBlock(t.slots, parent), b)[b := info];
    Table(heap, t.slots[i - 1 := b], t.count + 1, i % MAX_PIDS + 1)
  }

  lemma AddPaired(t: Table, i: int, b: nat, parent: int)
    requires Paired(t.heap, t.slots) && 1 <= i <= MAX_PIDS && t.slots[i - 1] == 0 && b != 0 && b !in t.heap
    ensures Paired(Added(t, i, b, parent).heap, Added(t, i, b, parent).slots)
  {
    SlotPut(t.slots, i, b);
    assert GetBlock(t.slots, i) == 0;
    hide GetBlock;
  }

  lemma AddInv(t: Table, i: int, b: nat, parent: int)
    requires Inv(t) && 1 <= i <= MAX_PIDS && t.slots[i - 1] == 0 && b != 0 && b !in t.heap
    ensures Inv(Added(t, i, b, parent))
  {
    hide Taken;
    AddPaired(t, i, b, parent);
    TakenPut(t.slots, i - 1, b);
    var t' := Added(t, i, b, parent);
    var pb := GetBlock(t.slots, parent);
    forall x | x in t'.heap && t'.heap[x].pid >= 2 && !t'.heap[x].exited
      ensures Family(t'.heap, x)
    {
      if x != b {
        AddFamily(t, i, b, parent, x);
      }
    }
  }

  lemma AddFamily(t: Table, i: int, b: nat, parent: int, x: nat)
    requires Paired(t.heap, t.slots) && 1 <= i <= MAX_PIDS && t.slots[i - 1] == 0 && b != 0 && b !in t.heap
    requires x in t.heap && Family(t.heap, x)
    ensures x in Added(t, i, b, parent).heap && Family(Added(t, i, b, parent).heap, x)
  {
    var t' := Added(t, i, b, parent);
    var xs := t.heap[x].children;
    if x == GetBlock(t.slots, parent) {
      assert t'.heap[x].children == xs + [b];
      assert t.heap[x].pid == parent;
      forall c | c in xs + [b]
        ensures c in t'.heap && t'.heap[c].parent == parent
      {
      }
    } else {
      assert t'.heap[x].children == xs;
    }
  }

  // ---------------------------------------------------------------- leaving

  function Marked(heap: map<nat, Info>, b: nat, status: int): map<nat, Info>
    requires b in heap
  {
    heap[b := Info(heap[b].pid, heap[b].parent, heap[b].children, true, status)]
  }

  /** Setting a slot to NULL and destroying its block. */
  function Freed(t: Table, b: nat): Table
    requires |t.slots| == MAX_PIDS && b in t.heap && 1 <= t.heap[b].pid <= MAX_PIDS
  {
    Table(t.heap - {b}, t.slots[t.heap[b].pid - 1 := 0], t.count - 1, t.next)
  }

  /** The table without the blocks in `gone`. */
  function Swept(t: Table, gone: set<nat>): Table
    requires |t.slots| == MAX_PIDS
  {
    Table(t.heap - gone, seq(MAX_PIDS, i requires 0 <= i < MAX_PIDS => if t.slots[i] in gone then 0 else t.slots[i]),
          t.count - |gone|, t.next)
  }

  /** Which blocks an exit of the process at `b` destroys: its exited children, and its own
      block when no living parent may still ask for it. */
  function Gone(t: Table, b: nat): set<nat>
    requires |t.slots| == MAX_PIDS && b in t.heap
  {
    var xs := t.heap[b].children;
    (set c | c in xs && c in t.heap && t.heap[c].exited) + (if KeptFor(t, b) then {} else {b})
  }

  /** A parent with a pid of 2 or more that has not exited keeps the block of a child. */
  predicate KeptFor(t: Table, b: nat)
    requires |t.slots| == MAX_PIDS && b in t.heap
  {
    var p := t.heap[b].parent;
    var pb := GetBlock(t.slots, p);
    p >= 2 && pb != b && pb in t.heap && !t.heap[pb].exited
  }

  /** The table after inform_process_exit of the process at `b`. */
  function Left(t: Table, b: nat, status: int): Table
    requires |t.slots| == MAX_PIDS && b in t.heap
  {
    Swept(Table(Marked(t.heap, b, status), t.slots, t.count, t.next), Gone(t, b))
  }

  lemma FreedPaired(t: Table, b: nat)
    requires Paired(t.heap, t.slots) && b in t.heap
    ensures 1 <= t.heap[b].pid <= MAX_PIDS && t.slots[t.heap[b].pid - 1] == b
    ensures Paired(Freed(t, b).heap, Freed(t, b).slots)
  {
    assert GetBlock(t.slots, t.heap[b].pid) == b;
    SlotPut(t.slots, t.heap[b].pid, 0);
    hide GetBlock;
  }

  lemma SweptSlots(t: Table, gone: set<nat>)
    requires |t.slots| == MAX_PIDS
    ensures forall i: int ::
      GetBlock(Swept(t, gone).slots, i) == if GetBlock(t.slots, i) in gone then 0 else GetBlock(t.slots, i)
  {
  }

  lemma SweptPaired(t: Table, gone: set<nat>)
    requires Paired(t.heap, t.slots)
    ensures Paired(Swept(t, gone).heap, Swept(t, gone).slots)
  {
    SweptSlots(t, gone);
    SweptHeap(t, gone);
    hide GetBlock, Swept;
  }

  lemma FreedSwept(t: Table, gone: set<nat>, b: nat)
    requires Paired(t.heap, t.slots) && b in t.heap && b !in gone
    ensures b in Swept(t, gone).heap && Swept(t, gone).heap[b] == t.heap[b] && 1 <= t.heap[b].pid <= MAX_PIDS
    ensures Freed(Swept(t, gone), b) == Swept(t, gone + {b})
  {
    FreedPaired(t, b);
    var u, v := Freed(Swept(t, gone), b), Swept(t, gone + {b});
    assert |gone + {b}| == |gone| + 1;
    assert u.heap == v.heap;
    SweptSlots(t, gone);
    SweptSlots(t, gone + {b});
    SlotPut(Swept(t, gone).slots, t.heap[b].pid, 0);
    assert forall i: int :: GetBlock(u.slots, i) == GetBlock(v.slots, i) by { hide GetBlock; }
    SameSlots(u.slots, v.slots);
  }

  lemma SweptNone(t: Table)
    requires |t.slots| == MAX_PIDS
    ensures Swept(t, {}) == t
  {
    assert Swept(t, {}).slots == t.slots;
    assert Swept(t, {}).heap == t.heap;
  }

  /** Sweeping keeps the count exact. */
  lemma {:induction false} SweptCount(t: Table, gone: set<nat>)
    requires Paired(t.heap, t.slots) && t.count == Taken(t.slots) && forall b :: b in gone ==> b in t.heap
    ensures Swept(t, gone).count == Taken(Swept(t, gone).slots)
  {
    hide Taken, GetBlock, Swept;
    if gone == {} {
      SweptNone(t);
    } else {
      var b :| b in gone;
      SweptCount(t, gone - {b});
      SweptPaired(t, gone - {b});
      SweptHeap(t, gone - {b});
      FreedSwept(t, gone - {b}, b);
      assert gone - {b} + {b} == gone;
      var u := Swept(t, gone - {b});
      FreedPaired(u, b);
      TakenPut(u.slots, u.heap[b].pid - 1, 0);
    }
  }

  lemma GoneHeap(t: Table, b: nat)
    requires |t.slots| == MAX_PIDS && b in t.heap
    ensures forall c :: c in Gone(t, b) ==> c in t.heap
  {
  }

  lemma LeftFamily(t: Table, b: nat, status: int, x: nat)
    requires Inv(t) && b in t.heap && Family(t.heap, b) && !t.heap[b].exited
    requires x in Left(t, b, status).heap && t.heap[x].pid >= 2 && !t.heap[x].exited && x != b
    ensures Family(Left(t, b, status).heap, x)
  {
    hide Taken, Swept, Gone, GetBlock, Distinct;
    var m := Table(Marked(t.heap, b, status), t.slots, t.count, t.next);
    SweptHeap(m, Gone(t, b));
    assert Family(t.heap, x);
    forall c | c in t.heap[x].children
      ensures c !in Gone(t, b)
    {
      ChildKept(t, b, x, c);
    }
  }

  /** An exit keeps the invariant, if the pointers the process would follow are good; for every
      process but the first the invariant says so. */
  lemma LeftInv(t: Table, b: nat, status: int)
    requires Inv(t) && b in t.heap && Family(t.heap, b) && !t.heap[b].exited
    ensures Inv(Left(t, b, status))
  {
    hide Taken, Swept, Gone, Family, GetBlock;
    var m := Table(Marked(t.heap, b, status), t.slots, t.count, t.next);
    GoneHeap(t, b);
    SweptPaired(m, Gone(t, b));
    SweptCount(m, Gone(t, b));
    var t' := Left(t, b, status);
    SweptHeap(m, Gone(t, b));
    forall x | x in t'.heap && t'.heap[x].pid >= 2 && !t'.heap[x].exited
      ensures Family(t'.heap, x)
    {
      LeftFamily(t, b, status, x);
    }
  }

  lemma FamilyOf(t: Table, b: nat)
    requires Inv(t) && b in t.heap && !t.heap[b].exited && (t.heap[b].pid == 1 ==> Family(t.heap, b))
    ensures Family(t.heap, b)
  {
    hide Taken, Family;
    assert GetBlock(t.slots, t.heap[b].pid) == b;
  }

  lemma SweptHeap(t: Table, gone: set<nat>)
    requires |t.slots| == MAX_PIDS
    ensures Swept(t, gone).heap == t.heap - gone && Swept(t, gone).next == t.next && |Swept(t, gone).slots| == MAX_PIDS
  {
  }

  /** The child of a process that has not exited outlives the exit of any other process. */
  lemma ChildKept(t: Table, b: nat, x: nat, c: nat)
    requires Inv(t) && b in t.heap && x in t.heap && x != b && Family(t.heap, b) && !t.heap[b].exited
    requires t.heap[x].pid >= 2 && !t.heap[x].exited && c in t.heap && t.heap[c].parent == t.heap[x].pid
    ensures c !in Gone(t, b)
  {
    hide Taken;
    assert GetBlock(t.slots, t.heap[c].parent) == x;
  }

  /** The first free pid from next_pid on, going round. */
  ghost predicate FirstFree(t: Table, i: int)
    requires |t.slots| == MAX_PIDS && 1 <= t.next <= MAX_PIDS
  {
    exists d: nat :: d < MAX_PIDS && i == Circ(t.next, d) && GetBlock(t.slots, i) == 0 &&
      forall e: nat :: e < d ==> GetBlock(t.slots, Circ(t.next, e)) != 0
  }

  /** The exited ones among the blocks of a list. */
  function Dead(heap: map<nat, Info>, xs: seq<nat>): set<nat> {
    set c | c in xs && c in heap && heap[c].exited
  }

  /** Inside the exit of the process at `b`, with the first `k` children dealt with: the next
      child's block is there, and is destroyed just when the child has exited. */
  lemma NextChild(t: Table, b: nat, status: int, k: nat)
    requires Inv(t) && b in t.heap && Family(t.heap, b) && !t.heap[b].exited && k < |t.heap[b].children|
    ensures var xs := t.heap[b].children;
      var m := Table(Marked(t.heap, b, status), t.slots, t.count, t.next);
      var u := Swept(m, Dead(t.heap, xs[..k]));
      && xs[k] in u.heap && xs[k] in t.heap && u.heap[xs[k]] == t.heap[xs[k]] && b in u.heap && u.heap[b].children == xs
      && xs[k] !in Dead(t.heap, xs[..k]) && xs[k] in m.heap && Paired(m.heap, m.slots)
      && GetBlock(u.slots, u.heap[xs[k]].parent) == b
      && (ShouldFree(u.heap, u.slots, xs[k]) <==> t.heap[xs[k]].exited)
      && Dead(t.heap, xs[..k + 1]) == Dead(t.heap, xs[..k]) + (if t.heap[xs[k]].exited then {xs[k]} else {})
  {
    hide Taken, Swept;
    var xs := t.heap[b].children;
    assert xs[k] in xs;
    assert xs[..k + 1] == xs[..k] + [xs[k]];
    forall c | c in xs[..k]
      ensures c != xs[k] && c != b
    {
      var j: nat :| j < k && xs[j] == c;
      assert xs[j] in xs;
    }
    var m := Table(Marked(t.heap, b, status), t.slots, t.count, t.next);
    SweptSlots(m, Dead(t.heap, xs[..k]));
    SweptHeap(m, Dead(t.heap, xs[..k]));
    hide Distinct, GetBlock;
  }

  /** After the children, the process's own block is destroyed just when no one keeps it. */
  lemma OwnBlock(t: Table, b: nat, status: int)
    requires Inv(t) && b in t.heap && Family(t.heap, b) && !t.heap[b].exited
    ensures var xs := t.heap[b].children;
      var m := Table(Marked(t.heap, b, status), t.slots, t.count, t.next);
      var u := Swept(m, Dead(t.heap, xs));
      && b in u.heap && b in m.heap && b !in Dead(t.heap, xs) && Paired(m.heap, m.slots)
      && (GetBlock(u.slots, u.heap[b].parent) == 0 || GetBlock(u.slots, u.heap[b].parent) in u.heap)
      && (ShouldFree(u.heap, u.slots, b) <==> !KeptFor(t, b))
      && Gone(t, b) == Dead(t.heap, xs) + (if KeptFor(t, b) then {} else {b})
  {
    hide Taken, Swept;
    var xs := t.heap[b].children;
    var m := Table(Marked(t.heap, b, status), t.slots, t.count, t.next);
    SweptSlots(m, Dead(t.heap, xs));
    SweptHeap(m, Dead(t.heap, xs));
    hide Distinct, GetBlock;
  }
}
