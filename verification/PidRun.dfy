/** Whole runs of the process table: any interleaving of adds, exits and waits, with pids and
    block addresses reused. Every process has a serial number of its own, and `died` is the
    history of exit statuses. */
module PidRun {
  import opened PidTable
  import opened PidManager

  /** A process asleep in wait_pid, on the condition variable of a block. */
  datatype Wait = Wait(pid: int, block: nat, serial: nat, woken: bool)

  datatype Sys = Sys(t: Table, who: map<nat, nat>, born: nat, died: map<nat, int>, waits: map<nat, Wait>)

  datatype Op =
    | Spawn(pid: int, block: nat, parent: int)     // pid is what scan_free answers
    | Exit(pid: int, status: int)
    | WaitBegin(caller: int, pid: int)
    | WaitEnd(caller: int)

  ghost predicate Injective(who: map<nat, nat>) {
    forall a, b :: a in who && b in who && who[a] == who[b] ==> a == b
  }

  /** Blocks and history agree. */
  ghost predicate Known(s: Sys, b: nat) {
    && b in s.who && s.who[b] < s.born && b in s.t.heap
    && (s.t.heap[b].exited <==> s.who[b] in s.died)
    && (s.t.heap[b].exited ==> s.died[s.who[b]] == s.t.heap[b].status)
  }

  /** The block a sleeper waits for is still the one in the slot. */
  ghost predicate Awaited(s: Sys, c: nat)
    requires |s.t.slots| == MAX_PIDS && c in s.waits && c in s.t.heap
  {
    var w := s.waits[c];
    && w.block in s.t.heap && w.block in s.who && GetBlock(s.t.slots, w.pid) == w.block && s.who[w.block] == w.serial
    && s.t.heap[w.block].parent == s.t.heap[c].pid && (w.woken <==> s.t.heap[w.block].exited)
  }

  /** A sleeper has not exited, and what it waits for is there, unless it is the first
      process and the child it waited for has exited. */
  ghost predicate Asleep(s: Sys, c: nat)
    requires |s.t.slots| == MAX_PIDS
  {
    c in s.waits && c in s.t.heap && !s.t.heap[c].exited &&
      (s.t.heap[c].pid >= 2 || !s.waits[c].woken ==> Awaited(s, c))
  }

  ghost predicate SysInv(s: Sys) {
    && Inv(s.t) && |s.t.slots| == MAX_PIDS && Injective(s.who)
    && (forall b :: b in s.who ==> b in s.t.heap)
    && (forall b :: b in s.t.heap ==> Known(s, b))
    && (forall k :: k in s.died ==> k < s.born)
    && (forall c :: c in s.waits ==> Asleep(s, c))
  }

  /** The process with that pid is there, has not exited and is not asleep. */
  predicate Running(s: Sys, pid: int)
    requires |s.t.slots| == MAX_PIDS
  {
    var b := GetBlock(s.t.slots, pid);
    b in s.t.heap && !s.t.heap[b].exited && b !in s.waits
  }

  /** kmalloc hands out an address that is not in use, pid 1 never exits, only a running
      process exits or waits, and only a woken one finishes waiting. */
  ghost predicate Enabled(s: Sys, op: Op)
    requires |s.t.slots| == MAX_PIDS && 1 <= s.t.next <= MAX_PIDS
  {
    match op
    case Spawn(pid, b, _) => b != 0 && b !in s.t.heap && (s.t.count == MAX_PIDS || FirstFree(s.t, pid))
    case Exit(pid, _) => pid != 1 && Running(s, pid)
    case WaitBegin(caller, _) => Running(s, caller)
    case WaitEnd(caller) => var c := GetBlock(s.t.slots, caller); c in s.waits && s.waits[c].woken
  }

  /** Whether wait_pid goes to sleep. */
  predicate Sleeps(s: Sys, caller: int, pid: int)
    requires |s.t.slots| == MAX_PIDS
  {
    var b := GetBlock(s.t.slots, pid);
    b in s.t.heap && b in s.who && s.t.heap[b].parent == caller && !s.t.heap[b].exited
  }

  function Woken(waits: map<nat, Wait>, serial: nat): map<nat, Wait> {
    map c | c in waits ::
      Wait(waits[c].pid, waits[c].block, waits[c].serial, waits[c].woken || waits[c].serial == serial)
  }

  ghost function Next(s: Sys, op: Op): Sys
    requires |s.t.slots| == MAX_PIDS && 1 <= s.t.next <= MAX_PIDS && Enabled(s, op)
  {
    match op
    case Spawn(pid, b, parent) =>
      if s.t.count == MAX_PIDS || !(1 <= pid <= MAX_PIDS) then s
      else Sys(Added(s.t, pid, b, parent), s.who[b := s.born], s.born + 1, s.died, s.waits)
    case Exit(pid, status) =>
      var b := GetBlock(s.t.slots, pid);
      if b !in s.who then s
      else
        Sys(Left(s.t, b, status), s.who - Gone(s.t, b), s.born, s.died[s.who[b] := status], Woken(s.waits, s.who[b]))
    case WaitBegin(caller, pid) =>
      var b := GetBlock(s.t.slots, pid);
      if !Sleeps(s, caller, pid) then s
      else Sys(s.t, s.who, s.born, s.died, s.waits[GetBlock(s.t.slots, caller) := Wait(pid, b, s.who[b], false)])
    case WaitEnd(caller) =>
      Sys(s.t, s.who, s.born, s.died, s.waits - {GetBlock(s.t.slots, caller)})
  }

  // ---------------------------------------------------------------- every step keeps the invariant

  lemma SpawnAsleep(s: Sys, pid: int, b: nat, parent: int, c: nat)
    requires SysInv(s) && b != 0 && b !in s.t.heap && 1 <= pid <= MAX_PIDS && s.t.slots[pid - 1] == 0
    requires c in s.waits
    ensures var s' := Sys(Added(s.t, pid, b, parent), s.who[b := s.born], s.born + 1, s.died, s.waits); Asleep(s', c)
  {
    hide Inv, FirstFree;
    assert Asleep(s, c);
    SlotPut(s.t.slots, pid, b);
    assert GetBlock(s.t.slots, pid) == 0;
    NoNull(s.t);
    hide GetBlock;
  }

  lemma SpawnInv(s: Sys, pid: int, b: nat, parent: int)
    requires SysInv(s) && b != 0 && b !in s.t.heap && FirstFree(s.t, pid)
    ensures 1 <= pid <= MAX_PIDS
    ensures SysInv(Sys(Added(s.t, pid, b, parent), s.who[b := s.born], s.born + 1, s.died, s.waits))
  {
    hide Inv, FirstFree, Asleep, GetBlock;
    NextRange(s);
    FreeRange(s.t, pid);
    AddInv(s.t, pid, b, parent);
    var s' := Sys(Added(s.t, pid, b, parent), s.who[b := s.born], s.born + 1, s.died, s.waits);
    forall c | c in s'.waits
      ensures Asleep(s', c)
    {
      SpawnAsleep(s, pid, b, parent, c);
    }
    forall x | x in s'.t.heap
      ensures Known(s', x)
    {
      if x != b { assert Known(s, x); }
    }
    forall x, y | x in s'.who && y in s'.who && s'.who[x] == s'.who[y]
      ensures x == y
    {
      if x != b { assert Known(s, x); }
      if y != b { assert Known(s, y); }
    }
  }

  /** What an exit leaves alone, block by block. */
  lemma ExitBlocks(s: Sys, b: nat, status: int)
    requires SysInv(s) && b in s.t.heap
    ensures var t' := Left(s.t, b, status);
      && |t'.slots| == MAX_PIDS
      && (forall x :: x in t'.heap <==> x in s.t.heap && x !in Gone(s.t, b))
      && (forall x :: x in t'.heap && x != b ==> t'.heap[x] == s.t.heap[x])
      && (b in t'.heap ==> t'.heap[b] == Info(s.t.heap[b].pid, s.t.heap[b].parent, s.t.heap[b].children, true, status))
      && (forall i: int ::
            GetBlock(t'.slots, i) == if GetBlock(s.t.slots, i) in Gone(s.t, b) then 0 else GetBlock(s.t.slots, i))
  {
    hide Inv, Asleep, GetBlock, Gone, Swept, Known, Injective;
    var m := Table(Marked(s.t.heap, b, status), s.t.slots, s.t.count, s.t.next);
    SweptSlots(m, Gone(s.t, b));
    SweptHeap(m, Gone(s.t, b));
  }

  /** A sleeper's own block is not among those an exit destroys. */
  lemma SleeperKept(s: Sys, b: nat, c: nat)
    requires SysInv(s) && b in s.t.heap && c in s.waits && c != b
    ensures c in s.t.heap && c !in Gone(s.t, b)
  {
    hide Inv, Awaited;
    assert Asleep(s, c);
  }

  /** Nor is the block it waits for. */
  lemma AwaitedKept(s: Sys, b: nat, c: nat)
    requires SysInv(s) && b in s.t.heap && s.t.heap[b].pid >= 2 && !s.t.heap[b].exited && b !in s.waits
    requires c in s.waits && c in s.t.heap && s.t.heap[c].pid >= 2
    ensures s.waits[c].block !in Gone(s.t, b)
  {
    assert Asleep(s, c);
    var w := s.waits[c];
    if w.block == b {
      assert GetBlock(s.t.slots, s.t.heap[b].parent) == c by { SlotOf(s.t, c); }
      NotOwnChild(s.t, b);
      assert KeptFor(s.t, b);
    } else {
      ChildKept(s.t, b, c, w.block);
    }
  }

  lemma NotOwnChild(t: Table, b: nat)
    requires Inv(t) && b in t.heap && t.heap[b].pid >= 2 && !t.heap[b].exited
    ensures b !in t.heap[b].children
  {
    hide Taken;
    assert Family(t.heap, b);
  }

  lemma SlotOf(t: Table, b: nat)
    requires Inv(t) && b in t.heap
    ensures GetBlock(t.slots, t.heap[b].pid) == b
  {
    hide Taken, Families;
  }

  ghost function Exited(s: Sys, b: nat, status: int): Sys
    requires |s.t.slots| == MAX_PIDS && b in s.t.heap && b in s.who
  {
    Sys(Left(s.t, b, status), s.who - Gone(s.t, b), s.born, s.died[s.who[b] := status], Woken(s.waits, s.who[b]))
  }

  lemma ExitAsleep(s: Sys, b: nat, status: int, c: nat)
    requires SysInv(s) && b in s.t.heap && b in s.who && s.t.heap[b].pid >= 2 && !s.t.heap[b].exited && b !in s.waits
    requires c in s.waits
    ensures |Left(s.t, b, status).slots| == MAX_PIDS && Asleep(Exited(s, b, status), c)
  {
    hide Inv, GetBlock, Left, Gone;
    var s' := Exited(s, b, status);
    var w := s.waits[c];
    assert Asleep(s, c) && Known(s, b);
    ExitBlocks(s, b, status);
    SleeperKept(s, b, c);
    if s'.t.heap[c].pid >= 2 || !s'.waits[c].woken {
      assert Awaited(s, c);
      if s.t.heap[c].pid >= 2 {
        AwaitedKept(s, b, c);
      } else {
        UnexitedKept(s.t, b, w.block);
      }
      NoNull(s.t);
      assert w.serial == s.who[b] <==> w.block == b;
      assert Awaited(s', c);
    }
  }

  lemma UnexitedKept(t: Table, b: nat, x: nat)
    requires |t.slots| == MAX_PIDS && b in t.heap && x in t.heap && x != b && !t.heap[x].exited
    ensures x !in Gone(t, b)
  {
  }

  lemma ExitInv(s: Sys, b: nat, status: int)
    requires SysInv(s) && b in s.t.heap && b in s.who && s.t.heap[b].pid >= 2 && !s.t.heap[b].exited && b !in s.waits
    ensures SysInv(Exited(s, b, status))
  {
    hide Inv, Left, Gone, Asleep, GetBlock;
    FamilyOf(s.t, b);
    LeftInv(s.t, b, status);
    ExitBlocks(s, b, status);
    var s' := Exited(s, b, status);
    assert Known(s, b);
    forall x | x in s'.t.heap
      ensures Known(s', x)
    {
      assert Known(s, x);
    }
    forall c | c in s'.waits
      ensures Asleep(s', c)
    {
      ExitAsleep(s, b, status, c);
    }
  }

  lemma NextInv(s: Sys, op: Op)
    requires SysInv(s) && 1 <= s.t.next <= MAX_PIDS && Enabled(s, op)
    ensures SysInv(Next(s, op)) && 1 <= Next(s, op).t.next <= MAX_PIDS
  {
    hide Inv, Left, Gone, FirstFree, GetBlock;
    match op {
      case Spawn(pid, b, parent) =>
        if s.t.count != MAX_PIDS { SpawnInv(s, pid, b, parent); }
      case Exit(pid, status) =>
        var b := GetBlock(s.t.slots, pid);
        assert Known(s, b);
        NoNull(s.t);
        BlockThere(s.t, pid);
        ExitInv(s, b, status);
      case WaitBegin(caller, pid) =>
        WaitInv(s, caller, pid);
      case WaitEnd(caller) =>
    }
    NextRange(Next(s, op));
  }

  lemma WaitInv(s: Sys, caller: int, pid: int)
    requires SysInv(s) && 1 <= s.t.next <= MAX_PIDS && Enabled(s, WaitBegin(caller, pid))
    ensures SysInv(Next(s, WaitBegin(caller, pid)))
  {
    hide Inv, GetBlock;
    var s' := Next(s, WaitBegin(caller, pid));
    NoNull(s.t);
    BlockThere(s.t, caller);
    forall c | c in s'.waits
      ensures Asleep(s', c)
    {
      if c != GetBlock(s.t.slots, caller) { assert Asleep(s, c); }
    }
  }

  lemma NextRange(s: Sys)
    requires SysInv(s)
    ensures 1 <= s.t.next <= MAX_PIDS
  {
    hide Paired, Families, Taken, Asleep, Known;
  }

  // ---------------------------------------------------------------- whole runs

  ghost predicate Begins(s: Sys) {
    && s.t.heap == map[] && |s.t.slots| == MAX_PIDS && (forall i: nat :: i < MAX_PIDS ==> s.t.slots[i] == 0)
    && s.t.count == 0 && s.t.next == 1 && s.who == map[] && s.died == map[] && s.waits == map[] && s.born == 0
  }

  /** `run` is what the operations `ops` make of its first state. */
  ghost predicate Runs(run: seq<Sys>, ops: seq<Op>) {
    && |run| == |ops| + 1
    && (forall k: nat :: k < |run| ==> |run[k].t.slots| == MAX_PIDS && 1 <= run[k].t.next <= MAX_PIDS)
    && (forall k: nat :: k < |ops| ==> Enabled(run[k], ops[k]) && run[k + 1] == Next(run[k], ops[k]))
  }

  lemma {:induction false} RunInv(run: seq<Sys>, ops: seq<Op>, k: nat)
    requires Runs(run, ops) && Begins(run[0]) && k < |run|
    ensures SysInv(run[k])
  {
    hide Enabled, Next;
    if k == 0 {
      NoneTaken(run[0].t.slots);
    } else {
      RunInv(run, ops, k - 1);
      assert Enabled(run[k - 1], ops[k - 1]) && run[k - 1 + 1] == Next(run[k - 1], ops[k - 1]);
      NextInv(run[k - 1], ops[k - 1]);
    }
  }

  /** A process with a pid of 2 or more that comes back from wait_pid finds the block of the
      very child it waited for, and reads the status with which that child exited. */
  lemma WaitStatus(run: seq<Sys>, ops: seq<Op>, k: nat, caller: int)
    requires Runs(run, ops) && Begins(run[0]) && k < |ops| && ops[k] == WaitEnd(caller) && caller >= 2
    ensures var s := run[k];
      var c := GetBlock(s.t.slots, caller);
      && c in s.waits
      && var b := GetBlock(s.t.slots, s.waits[c].pid);
      && b in s.t.heap && b in s.who && s.who[b] == s.waits[c].serial && s.t.heap[b].parent == caller
      && s.who[b] in s.died && s.t.heap[b].status == s.died[s.who[b]]
  {
    hide Inv, GetBlock;
    RunInv(run, ops, k);
    var s := run[k];
    assert Enabled(s, ops[k]);
    var c := GetBlock(s.t.slots, caller);
    assert Asleep(s, c);
    NoNull(s.t);
    BlockThere(s.t, caller);
    assert Known(s, s.waits[c].block);
  }

  /** A wait that does not sleep also returns the status its child exited with. */
  lemma WaitAtOnce(run: seq<Sys>, ops: seq<Op>, k: nat, caller: int, pid: int)
    requires Runs(run, ops) && Begins(run[0]) && k < |ops| && ops[k] == WaitBegin(caller, pid)
    ensures var s := run[k];
      var b := GetBlock(s.t.slots, pid);
      b in s.t.heap && s.t.heap[b].exited ==> b in s.who && s.who[b] in s.died && s.t.heap[b].status == s.died[s.who[b]]
  {
    hide Inv, GetBlock, Asleep, Enabled, Next;
    RunInv(run, ops, k);
    var s := run[k];
    var b := GetBlock(s.t.slots, pid);
    if b in s.t.heap { assert Known(s, b); }
  }

  /** The history is written once per process: an exit never finds its process there. */
  lemma DiesOnce(run: seq<Sys>, ops: seq<Op>, k: nat, pid: int, status: int)
    requires Runs(run, ops) && Begins(run[0]) && k < |ops| && ops[k] == Exit(pid, status)
    ensures var s := run[k];
      var b := GetBlock(s.t.slots, pid);
      b in s.who && s.who[b] !in s.died && s.who[b] in run[k + 1].died && run[k + 1].died[s.who[b]] == status
  {
    hide Inv, GetBlock, Asleep, Left, Gone;
    RunInv(run, ops, k);
    var s := run[k];
    assert Enabled(s, ops[k]);
    assert Known(s, GetBlock(s.t.slots, pid));
  }

  /** When a child exits while its parent sleeps for it, the block stays for the parent just
      when the parent is not the first process. */
  lemma WaiterServed(s: Sys, c: nat, status: int)
    requires SysInv(s) && c in s.waits && !s.waits[c].woken
    requires var b := s.waits[c].block; b !in s.waits && b in s.t.heap && s.t.heap[b].pid >= 2
    ensures c in s.t.heap && c != s.waits[c].block
    ensures GetBlock(Left(s.t, s.waits[c].block, status).slots, s.waits[c].pid) == s.waits[c].block <==>
      s.t.heap[c].pid >= 2
  {
    hide Inv;
    assert Asleep(s, c);
    var b := s.waits[c].block;
    ExitBlocks(s, b, status);
    SlotOf(s.t, c);
    NotOwnChild(s.t, b);
    NoNull(s.t);
    hide Left, GetBlock;
  }

  function EmptySlots(n: nat): (z: seq<nat>)
    ensures |z| == n && forall i: nat :: i < n ==> z[i] == 0
  {
    if n == 0 then [] else EmptySlots(n - 1) + [0]
  }

  /** The table after the first process has started one child. */
  lemma TwoStarted(s0: Sys) returns (s1: Sys, s2: Sys)
    requires Begins(s0)
    ensures Enabled(s0, Spawn(1, 10, 0)) && s1 == Next(s0, Spawn(1, 10, 0))
    ensures |s1.t.slots| == MAX_PIDS && 1 <= s1.t.next <= MAX_PIDS
    ensures Enabled(s1, Spawn(2, 20, 1)) && s2 == Next(s1, Spawn(2, 20, 1))
    ensures |s2.t.slots| == MAX_PIDS && s2.t.next == 3 && s2.t.slots[0] == 10 && s2.t.slots[1] == 20
    ensures s2.t.heap == map[10 := Info(1, 0, [20], false, 0), 20 := Info(2, 1, [], false, 0)]
    ensures s2.who == map[10 := 0, 20 := 1] && s2.waits == map[]
  {
    assert Circ(1, 0) == 1 && Circ(2, 0) == 2;
    assert FirstFree(s0.t, 1);
    s1 := Next(s0, Spawn(1, 10, 0));
    assert s1.t.next == 2 && s1.t.slots[0] == 10 && s1.t.heap == map[10 := Info(1, 0, [], false, 0)];
    assert FirstFree(s1.t, 2);
    s2 := Next(s1, Spawn(2, 20, 1));
    var none: seq<nat> := [];
    assert none + [20] == [20];
  }

  /** The child leaves while the first process sleeps for it. */
  lemma ChildLeaves(s2: Sys) returns (s3: Sys, s4: Sys)
    requires |s2.t.slots| == MAX_PIDS && s2.t.next == 3 && s2.t.slots[0] == 10 && s2.t.slots[1] == 20
    requires s2.t.heap == map[10 := Info(1, 0, [20], false, 0), 20 := Info(2, 1, [], false, 0)]
    requires s2.who == map[10 := 0, 20 := 1] && s2.waits == map[]
    ensures Enabled(s2, WaitBegin(1, 2)) && s3 == Next(s2, WaitBegin(1, 2))
    ensures |s3.t.slots| == MAX_PIDS && s3.t.next == 3
    ensures Enabled(s3, Exit(2, 7)) && s4 == Next(s3, Exit(2, 7))
    ensures |s4.t.slots| == MAX_PIDS && s4.t.next == 3 && s4.t.slots[0] == 10 && s4.t.slots[1] == 0
    ensures s4.waits == map[10 := Wait(2, 20, 1, true)] && s4.t.heap == map[10 := Info(1, 0, [20], false, 0)]
  {
    s3 := Next(s2, WaitBegin(1, 2));
    assert s3.waits == map[10 := Wait(2, 20, 1, false)];
    s4 := Next(s3, Exit(2, 7));
    assert Gone(s3.t, 20) == {20};
  }

  /** A run in which the first process sleeps for its child and is woken to an empty slot. The
      child's freed block is still in its list, so process 1 must not exit either. */
  lemma FirstWaiter() returns (run: seq<Sys>, ops: seq<Op>)
    ensures Runs(run, ops) && Begins(run[0]) && |ops| == 4
    ensures Enabled(run[4], WaitEnd(1))
    ensures var c := GetBlock(run[4].t.slots, 1);
      && c in run[4].waits && GetBlock(run[4].t.slots, run[4].waits[c].pid) == 0
      && c in run[4].t.heap && run[4].t.heap[c].children == [20] && 20 !in run[4].t.heap
  {
    hide FirstFree, Next;
    var n := MAX_PIDS;
    var s0 := Sys(Table(map[], EmptySlots(n), 0, 1), map[], 0, map[], map[]);
    var s1, s2 := TwoStarted(s0);
    var s3, s4 := ChildLeaves(s2);
    assert Enabled(s4, WaitEnd(1));
    hide Enabled;
    run, ops := [s0, s1, s2, s3, s4], [Spawn(1, 10, 0), Spawn(2, 20, 1), WaitBegin(1, 2), Exit(2, 7)];
  }
}
