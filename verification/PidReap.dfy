/** Who gives back the blocks of processes that have exited: src/kern/thread/pid_manager.c keeps
    the block of an exited process for its parent, which destroys it when it exits itself. A
    parent is known by its pid only, and pids are reused. */
module PidReap {
  import opened Basics
  import opened PidTable
  import opened PidManager
  import opened PidRun

  /** Some process that has not exited has the block in its list of children. */
  ghost predicate Listed(t: Table, x: nat) {
    exists q :: q in t.heap && !t.heap[q].exited && t.heap[q].pid >= 2 && x in t.heap[q].children
  }

  /** The process has exited, its block is kept, and nobody is left to destroy it. */
  ghost predicate Lost(t: Table, x: nat) {
    x in t.heap && t.heap[x].exited && !Listed(t, x)
  }

  ghost predicate NoneLost(t: Table) {
    forall x :: x in t.heap ==> !Lost(t, x)
  }

  /** Either nobody keeps the block of an exiting process, or the process in its parent's slot is
      the one that started it. */
  predicate Claimed(t: Table, b: nat)
    requires |t.slots| == MAX_PIDS && b in t.heap
  {
    KeptFor(t, b) ==> b in t.heap[GetBlock(t.slots, t.heap[b].parent)].children
  }

  /** Whoever lists a block is its parent. */
  lemma ListedBy(t: Table, q: nat, x: nat)
    requires Inv(t) && q in t.heap && !t.heap[q].exited && t.heap[q].pid >= 2 && x in t.heap[q].children
    ensures x in t.heap && x != q && t.heap[x].parent == t.heap[q].pid && GetBlock(t.slots, t.heap[x].parent) == q
  {
    hide Taken, GetBlock, Distinct;
    assert Family(t.heap, q);
  }

  /** What an exit leaves of the other blocks. */
  lemma LeftHeap(t: Table, b: nat, status: int)
    requires Inv(t) && b in t.heap
    ensures |t.slots| == MAX_PIDS && Left(t, b, status).heap == Marked(t.heap, b, status) - Gone(t, b)
  {
    SweptHeap(Table(Marked(t.heap, b, status), t.slots, t.count, t.next), Gone(t, b));
  }

  /** A block that is listed, and not by the process that exits, stays listed. */
  lemma StaysListed(t: Table, b: nat, status: int, q: nat, x: nat)
    requires Inv(t) && b in t.heap && !t.heap[b].exited && q != b
    requires q in t.heap && !t.heap[q].exited && t.heap[q].pid >= 2 && x in t.heap[q].children
    ensures Listed(Left(t, b, status), x)
  {
    hide Inv, Left, KeptFor;
    LeftHeap(t, b, status);
    var t' := Left(t, b, status);
    assert q in t'.heap && t'.heap[q] == t.heap[q];
  }

  /** Nothing becomes listed by an exit. */
  lemma NotListed(t: Table, b: nat, status: int, x: nat)
    requires Inv(t) && b in t.heap && Listed(Left(t, b, status), x)
    ensures exists q :: q in t.heap && q != b && !t.heap[q].exited && t.heap[q].pid >= 2 && x in t.heap[q].children
  {
    hide Inv, Left, Gone;
    LeftHeap(t, b, status);
    var t' := Left(t, b, status);
    var q :| q in t'.heap && !t'.heap[q].exited && t'.heap[q].pid >= 2 && x in t'.heap[q].children;
    assert q in t.heap && q != b && t'.heap[q] == t.heap[q];
  }

  /** When nothing was lost before, an exit loses something just when the process in the parent's
      slot is not the one that started the exiting process; and that is the block lost. */
  lemma ExitLost(t: Table, b: nat, status: int)
    requires Inv(t) && NoneLost(t) && b in t.heap && !t.heap[b].exited && t.heap[b].pid >= 2
    ensures NoneLost(Left(t, b, status)) <==> Claimed(t, b)
    ensures !Claimed(t, b) ==> Lost(Left(t, b, status), b)
  {
    hide Inv, Left, Listed;
    LeftHeap(t, b, status);
    var t' := Left(t, b, status);
    OwnFate(t, b, status);
    forall x | x in t'.heap && x != b
      ensures !Lost(t', x)
    {
      if t.heap[x].exited { OthersFate(t, b, status, x); }
    }
  }

  lemma OthersFate(t: Table, b: nat, status: int, x: nat)
    requires Inv(t) && NoneLost(t) && b in t.heap && !t.heap[b].exited && t.heap[b].pid >= 2
    requires x in Left(t, b, status).heap && x != b && x in t.heap && t.heap[x].exited
    ensures Listed(Left(t, b, status), x)
  {
    hide Inv, Left, KeptFor;
    LeftHeap(t, b, status);
    assert !Lost(t, x);
    var q :| q in t.heap && !t.heap[q].exited && t.heap[q].pid >= 2 && x in t.heap[q].children;
    assert q != b;
    StaysListed(t, b, status, q, x);
  }

  lemma OwnFate(t: Table, b: nat, status: int)
    requires Inv(t) && b in t.heap && !t.heap[b].exited && t.heap[b].pid >= 2
    ensures Lost(Left(t, b, status), b) <==> !Claimed(t, b)
  {
    hide Inv, Left, Listed, Swept;
    LeftHeap(t, b, status);
    NotOwn(t, b);
    var t' := Left(t, b, status);
    if KeptFor(t, b) {
      var p := GetBlock(t.slots, t.heap[b].parent);
      KeeperPid(t, b);
      assert b in t'.heap && t'.heap[b].exited;
      if b in t.heap[p].children { StaysListed(t, b, status, p, b); }
      if Listed(t', b) {
        NotListed(t, b, status, b);
        var q :| q in t.heap && q != b && !t.heap[q].exited && t.heap[q].pid >= 2 && b in t.heap[q].children;
        ListedBy(t, q, b);
      }
    }
  }

  lemma NotOwn(t: Table, b: nat)
    requires Inv(t) && b in t.heap && !t.heap[b].exited && t.heap[b].pid >= 2
    ensures b !in t.heap[b].children
  {
    hide Taken, GetBlock, Distinct;
    assert Family(t.heap, b);
  }

  lemma KeeperPid(t: Table, b: nat)
    requires Inv(t) && b in t.heap && KeptFor(t, b)
    ensures var p := GetBlock(t.slots, t.heap[b].parent); p in t.heap && t.heap[p].pid == t.heap[b].parent >= 2
  {
    hide Taken, Families;
    NoNull(t);
  }

  /** A new process changes nothing of this. */
  lemma AddLost(t: Table, i: int, b: nat, parent: int, x: nat)
    requires Inv(t) && 1 <= i <= MAX_PIDS && t.slots[i - 1] == 0 && b != 0 && b !in t.heap && x in t.heap
    ensures Lost(Added(t, i, b, parent), x) <==> Lost(t, x)
  {
    hide Inv, GetBlock;
    Sizes(t);
    var t' := Added(t, i, b, parent);
    assert x in t'.heap && t'.heap[x].exited == t.heap[x].exited;
    if Listed(t, x) {
      var q :| q in t.heap && !t.heap[q].exited && t.heap[q].pid >= 2 && x in t.heap[q].children;
      assert q in t'.heap && !t'.heap[q].exited && t'.heap[q].pid >= 2 && x in t'.heap[q].children;
    }
    if Listed(t', x) {
      var q :| q in t'.heap && !t'.heap[q].exited && t'.heap[q].pid >= 2 && x in t'.heap[q].children;
      assert q in t.heap && !t.heap[q].exited && t.heap[q].pid >= 2 && x in t.heap[q].children;
    }
  }

  /** A new process is in the list of the process that started it. */
  lemma NewListed(t: Table, i: int, b: nat, parent: int)
    requires Inv(t) && 1 <= i <= MAX_PIDS && t.slots[i - 1] == 0 && b != 0 && b !in t.heap
    requires var q := GetBlock(t.slots, parent); parent >= 2 && q in t.heap && !t.heap[q].exited
    ensures Listed(Added(t, i, b, parent), b)
  {
    hide Taken, Families;
    Sizes(t);
    NoNull(t);
    var q := GetBlock(t.slots, parent);
    var t' := Added(t, i, b, parent);
    assert q in t'.heap && t'.heap[q].children == t.heap[q].children + [b] && t'.heap[q].pid == parent;
  }

  /** What is lost stays lost: no exit destroys it. */
  lemma ExitKeepsLost(t: Table, b: nat, status: int, x: nat)
    requires Inv(t) && b in t.heap && !t.heap[b].exited && t.heap[b].pid >= 2 && Lost(t, x)
    ensures Lost(Left(t, b, status), x)
  {
    hide Inv, Left, KeptFor;
    LeftHeap(t, b, status);
    assert x !in t.heap[b].children;
    if Listed(Left(t, b, status), x) { NotListed(t, b, status, x); }
  }

  // ---------------------------------------------------------------- whole runs

  /** The exit, if it is one, is of a process whose parent's slot is not held by another. */
  ghost predicate Orderly(s: Sys, op: Op)
    requires |s.t.slots| == MAX_PIDS
  {
    op.Exit? && GetBlock(s.t.slots, op.pid) in s.t.heap ==> Claimed(s.t, GetBlock(s.t.slots, op.pid))
  }

  lemma StepLost(s: Sys, op: Op)
    requires SysInv(s) && 1 <= s.t.next <= MAX_PIDS && Enabled(s, op)
    ensures NoneLost(s.t) ==> (NoneLost(Next(s, op).t) <==> Orderly(s, op))
    ensures forall x :: Lost(s.t, x) ==> Lost(Next(s, op).t, x)
  {
    hide Inv, Left, Claimed, FirstFree, GetBlock, Added, Asleep, Lost;
    match op {
      case Spawn(pid, b, parent) =>
        if s.t.count != MAX_PIDS { SpawnLost(s, pid, b, parent); }
      case Exit(pid, status) =>
        var b := GetBlock(s.t.slots, pid);
        assert Known(s, b);
        NoNull(s.t);
        BlockThere(s.t, pid);
        if NoneLost(s.t) { ExitLost(s.t, b, status); }
        forall x | Lost(s.t, x)
          ensures Lost(Left(s.t, b, status), x)
        {
          ExitKeepsLost(s.t, b, status, x);
        }
      case WaitBegin(caller, pid) =>
      case WaitEnd(caller) =>
    }
  }

  lemma SpawnLost(s: Sys, pid: int, b: nat, parent: int)
    requires SysInv(s) && 1 <= s.t.next <= MAX_PIDS && b != 0 && b !in s.t.heap && FirstFree(s.t, pid)
    ensures 1 <= pid <= MAX_PIDS
    ensures NoneLost(s.t) ==> NoneLost(Added(s.t, pid, b, parent))
    ensures forall x :: Lost(s.t, x) ==> Lost(Added(s.t, pid, b, parent), x)
  {
    hide Inv, GetBlock, Asleep, FirstFree;
    FreeRange(s.t, pid);
    var t' := Added(s.t, pid, b, parent);
    forall x | x in s.t.heap
      ensures Lost(t', x) <==> Lost(s.t, x)
    {
      AddLost(s.t, pid, b, parent, x);
    }
    assert !t'.heap[b].exited;
    hide Listed;
  }

  /** No block is lost as long as every exit is orderly; the first one that is not loses a block
      for the rest of the run. */
  lemma {:induction false} Reaped(run: seq<Sys>, ops: seq<Op>, k: nat)
    requires Runs(run, ops) && Begins(run[0]) && k < |run|
    ensures NoneLost(run[k].t) <==> forall j: nat :: j < k ==> Orderly(run[j], ops[j])
  {
    hide Enabled, Next, SysInv, Orderly, Lost;
    if k == 0 {
      assert run[0].t.heap == map[];
    } else {
      Reaped(run, ops, k - 1);
      RunInv(run, ops, k - 1);
      var s, op := run[k - 1], ops[k - 1];
      assert Enabled(s, op) && run[k - 1 + 1] == Next(s, op);
      StepLost(s, op);
      if !NoneLost(s.t) {
        var x :| x in s.t.heap && Lost(s.t, x);
        assert Lost(run[k].t, x) && x in run[k].t.heap by { LostThere(run[k].t, x); }
      }
    }
  }

  lemma LostThere(t: Table, x: nat)
    requires Lost(t, x)
    ensures x in t.heap
  {
  }

  // ---------------------------------------------------------------- a run that loses a block

  lemma FreeNow(t: Table)
    requires |t.slots| == MAX_PIDS && 1 <= t.next <= MAX_PIDS && GetBlock(t.slots, t.next) == 0
    ensures forall i: int :: FirstFree(t, i) ==> i == t.next
  {
    assert Circ(t.next, 0) == t.next;
  }

  lemma FreeAfter(t: Table)
    requires |t.slots| == MAX_PIDS && t.next == 1 && GetBlock(t.slots, 1) != 0 && GetBlock(t.slots, 2) == 0
    ensures forall i: int :: FirstFree(t, i) ==> i == 2
  {
    assert Circ(1, 0) == 1 && Circ(1, 1) == 2;
    forall i: int | FirstFree(t, i)
      ensures i == 2
    {
      var d: nat :| d < MAX_PIDS && i == Circ(t.next, d) && GetBlock(t.slots, i) == 0 &&
        forall e: nat :: e < d ==> GetBlock(t.slots, Circ(t.next, e)) != 0;
    }
  }

  /** inform_process_add when the place it takes is known. */
  method Join(m: Manager, parent: int, b: nat, ghost at: int)
    requires m.Valid() && b != 0 && b !in m.heap && 1 <= at <= MAX_PIDS && GetBlock(m.slots[..], at) == 0
    requires at == m.next || (m.next == 1 && at == 2 && GetBlock(m.slots[..], 1) != 0)
    modifies m, m.slots
    ensures m.Valid() && m.next == at % MAX_PIDS + 1
    ensures m.heap == WithChild(old(m.heap), old(GetBlock(m.slots[..], parent)), b)[b := Info(at, parent, [], false, 0)]
    ensures forall j: int :: GetBlock(m.slots[..], j) == if j == at then b else old(GetBlock(m.slots[..], j))
  {
    hide Inv, FirstFree, WithChild;
    if at == m.next { FreeNow(m.V()); } else { FreeAfter(m.V()); }
    CountFull(m.V());
    SlotPut(m.slots[..], at, b);
    var err, pid := m.Add(parent, b, true);
  }

  /** inform_process_exit when just the own block goes. */
  method Leave(m: Manager, pid: int, b: nat)
    requires m.Valid() && pid >= 2 && GetBlock(m.slots[..], pid) == b && b in m.heap && !m.heap[b].exited
    requires Gone(m.V(), b) == {b}
    modifies m, m.slots
    ensures m.Valid() && m.next == old(m.next) && m.heap == old(m.heap) - {b}
    ensures forall j: int ::
      GetBlock(m.slots[..], j) == var c := old(GetBlock(m.slots[..], j)); if c == b then 0 else c
  {
    hide Inv, Left, Gone, Family;
    OneGone(m.V(), b, 0);
    NoNull(m.V());
    var err := m.Exit(pid, 0);
  }

  /** What an exit that destroys just the block `b` leaves. */
  lemma OneGone(t: Table, b: nat, status: int)
    requires Inv(t) && b in t.heap && Gone(t, b) == {b}
    ensures |t.slots| == MAX_PIDS && Left(t, b, status).heap == t.heap - {b} && Left(t, b, status).next == t.next
    ensures forall i: int ::
      GetBlock(Left(t, b, status).slots, i) == if GetBlock(t.slots, i) == b then 0 else GetBlock(t.slots, i)
  {
    hide Inv, Gone;
    Sizes(t);
    var m := Table(Marked(t.heap, b, status), t.slots, t.count, t.next);
    SweptHeap(m, {b});
    SweptSlots(m, {b});
    assert Marked(t.heap, b, status) - {b} == t.heap - {b};
  }

  /** What an exit that destroys nothing leaves. */
  lemma NoneGone(t: Table, b: nat, status: int)
    requires Inv(t) && b in t.heap && Gone(t, b) == {}
    ensures |t.slots| == MAX_PIDS && Left(t, b, status).heap == Marked(t.heap, b, status)
    ensures Left(t, b, status).slots == t.slots && Left(t, b, status).next == t.next
  {
    hide Inv, Gone;
    Sizes(t);
    SweptNone(Table(Marked(t.heap, b, status), t.slots, t.count, t.next));
  }

  lemma NoSlots(t: Table)
    requires Inv(t) && t.heap == map[]
    ensures |t.slots| == MAX_PIDS && forall i: int :: GetBlock(t.slots, i) == 0
  {
    hide Taken, GetBlock;
  }

  /** Process 1 and an orphan with pid 3, whose parent had pid 2, and nobody else. */
  ghost predicate Orphaned(t: Table, exited: bool) {
    && |t.slots| == MAX_PIDS && t.heap.Keys == {1, 3}
    && t.heap[1] == Info(1, 0, t.heap[1].children, false, 0) && t.heap[3] == Info(3, 2, [], exited, 0)
    && forall i: int :: GetBlock(t.slots, i) == if i == 1 then 1 else if i == 3 then 3 else 0
  }

  /** Process 1 starts 2, which starts 3 and exits. */
  method Start() returns (m: Manager)
    ensures fresh(m) && fresh(m.slots) && m.Valid() && Orphaned(m.V(), false) && m.next == 4
  {
    hide Inv, GetBlock;
    m := new Manager();
    NoSlots(m.V());
    Join(m, 0, 1, 1);
    Join(m, 1, 2, 2);
    Join(m, 2, 3, 3);
    var none: seq<nat> := [];
    assert none + [2] == [2] && none + [3] == [3];
    assert m.heap[2].children == [3] && Gone(m.V(), 2) == {2};
    Leave(m, 2, 2);
    assert m.heap == map[1 := Info(1, 0, [2], false, 0), 3 := Info(3, 2, [], false, 0)];
  }

  /** Process 1 starts a process, which exits. */
  method Pass(m: Manager)
    requires m.Valid() && Orphaned(m.V(), false) && 4 <= m.next <= MAX_PIDS
    modifies m, m.slots
    ensures m.Valid() && Orphaned(m.V(), false) && m.next == old(m.next) % MAX_PIDS + 1
  {
    hide Inv, GetBlock;
    var pid := m.next;
    Join(m, 1, 4, pid);
    assert Gone(m.V(), 4) == {4};
    Leave(m, pid, 4);
    assert m.heap.Keys == {1, 3};
  }

  /** The pids go round until pid 2 is given out again. Then the orphan exits, its block is kept
      for the new process 2, which does not know it and exits too: the block is lost. */
  method LosesOrphan() returns (m: Manager)
    ensures fresh(m) && m.Valid() && Orphaned(m.V(), true) && Lost(m.V(), 3)
  {
    hide Inv, GetBlock;
    m := Start();
    var p := 4;
    while p <= MAX_PIDS
      invariant 4 <= p <= MAX_PIDS + 1 && m.Valid() && Orphaned(m.V(), false) && fresh(m) && fresh(m.slots)
      invariant m.next == if p <= MAX_PIDS then p else 1
    {
      Pass(m);
      p := p + 1;
    }
    Finish(m);
  }

  method Finish(m: Manager)
    requires m.Valid() && Orphaned(m.V(), false) && m.next == 1
    modifies m, m.slots
    ensures m.Valid() && Orphaned(m.V(), true) && Lost(m.V(), 3)
  {
    hide Inv, GetBlock, Left;
    Join(m, 1, 5, 2);
    ghost var t := m.V();
    assert Gone(t, 3) == {};
    NoneGone(t, 3, 0);
    var err := m.Exit(3, 0);
    assert Gone(m.V(), 5) == {5};
    Leave(m, 2, 5);
    assert m.heap.Keys == {1, 3};
  }
}
