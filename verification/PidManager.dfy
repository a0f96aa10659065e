/** src/kern/thread/pid_manager.c: adding a process, its exit, and waiting for it. */
module PidManager {
  import opened PidTable

  datatype Errno = Ok | EAGAIN | EINVAL | ENOMEM

  class Manager {
    var heap: map<nat, Info>
    const slots: array<nat>
    var count: int                 // number_of_procs
    var next: int                  // next_pid

    ghost function V(): Table
      reads this, slots
    {
      Table(heap, slots[..], count, next)
    }

    ghost predicate Valid()
      reads this, slots
    {
      slots.Length == MAX_PIDS && Inv(V())
    }

    /** pid_manager_bootstrap, with number_of_procs at 0. */
    constructor ()
      ensures Valid() && fresh(slots) && heap == map[] && next == 1
    {
      slots := new nat[MAX_PIDS](_ => 0);
      heap, count, next := map[], 0, 1;
      new;
      NoneTaken(slots[..]);
    }

    method PidBlock(pid: int) returns (b: nat)
      requires slots.Length == MAX_PIDS
      ensures b == GetBlock(slots[..], pid)
    {
      if pid < 1 || pid > MAX_PIDS { return 0; }
      return slots[pid - 1];
    }

    /** scan_free. */
    method ScanFree() returns (i: int)
      requires Valid()
      ensures i != -1 ==> FirstFree(V(), i)
      ensures i == -1 <==> forall j: int :: 1 <= j <= MAX_PIDS ==> GetBlock(slots[..], j) != 0
      ensures i == -1 <==> count == MAX_PIDS
    {
      hide Taken, Circ, Paired, Families;
      CountFull(V());
      if count == MAX_PIDS { return -1; }
      var start := next;
      i := start;
      var considered := false;
      ghost var d := 0;
      CircStep(start, 0);
      assert Circ(start, 0) == start by { CircZero(start); }
      while GetBlock(slots[..], i) != 0 && !(i == start && considered)
        invariant d <= MAX_PIDS && i == Circ(start, d) && (considered <==> d > 0)
        invariant forall e: nat :: e < d ==> GetBlock(slots[..], Circ(start, e)) != 0
        decreases MAX_PIDS - d
      {
        CircStep(start, d);
        if i == start { considered := true; }
        i := i % MAX_PIDS + 1;
        d := d + 1;
      }
      CircStep(start, d);
      if i == start && considered {
        forall j: int | 1 <= j <= MAX_PIDS
          ensures GetBlock(slots[..], j) != 0
        {
          CircAll(start, j);
        }
        return -1;
      }
    }

    /** inform_process_add; `b` is the block kmalloc hands out, and `room` says whether the
        parent's array of children can take one more. */
    method Add(parent: int, b: nat, room: bool) returns (err: Errno, pid: int)
      requires Valid() && b != 0 && b !in heap
      modifies this, slots
      ensures Valid()
      ensures old(count) == MAX_PIDS ==> err == EAGAIN && pid == 0 && V() == old(V())
      ensures old(count) != MAX_PIDS && !room && GetBlock(old(slots[..]), parent) != 0 ==>
        err == ENOMEM && pid == 0 && V() == old(V())
      ensures old(count) != MAX_PIDS && (room || GetBlock(old(slots[..]), parent) == 0) ==>
        err == Ok && FirstFree(old(V()), pid) && 1 <= pid <= MAX_PIDS && V() == Added(old(V()), pid, b, parent)
    {
      hide Taken, Circ, Paired, Families, FirstFree;
      if count == MAX_PIDS { return EAGAIN, 0; }
      pid := ScanFree();
      if pid == -1 {
        assert false;
      }
      CountFull(V());
      FreeRange(V(), pid);
      AddInv(V(), pid, b, parent);
      var info := Info(pid, parent, [], false, 0);
      var pb := PidBlock(parent);
      if pb != 0 {
        BlockThere(V(), parent);
        if !room { return ENOMEM, 0; }
        var p := heap[pb];
        heap := heap[pb := Info(p.pid, p.parent, p.children + [b], p.exited, p.status)];
      }
      heap := heap[b := info];
      slots[pid - 1] := b;
      next := pid % MAX_PIDS + 1;
      count := count + 1;
      NoNull(old(V()));
      assert V() == Added(old(V()), pid, b, parent);
      err := Ok;
    }

    /** set_pid_block to NULL and destroy_pid_block. */
    method Destroy(b: nat)
      requires slots.Length == MAX_PIDS && b in heap && 1 <= heap[b].pid <= MAX_PIDS
      modifies this, slots
      ensures V() == Freed(old(V()), b)
    {
      slots[heap[b].pid - 1] := 0;
      heap := heap - {b};
      count := count - 1;
    }

    /** inform_process_exit: every block it looks at is allocated, and none is destroyed twice.
        For process 1 this takes that the blocks of its children are still there. */
    method Exit(pid: int, status: int) returns (err: Errno)
      requires Valid()
      requires var b := GetBlock(slots[..], pid); b in heap ==> !heap[b].exited && (pid == 1 ==> Family(heap, b))
      modifies this, slots
      ensures Valid()
      ensures var b := GetBlock(old(slots[..]), pid);
        if b == 0 then err == EINVAL && V() == old(V())
        else err == Ok && b in old(heap) && V() == Left(old(V()), b, status)
    {
      hide Taken, Paired, Families, Swept, GetBlock, Dead, KeptFor;
      var b := PidBlock(pid);
      if b == 0 { return EINVAL; }
      BlockThere(V(), pid);
      ghost var t := V();
      FamilyOf(t, b);
      ghost var m := Table(Marked(heap, b, status), slots[..], count, next);
      ghost var xs := heap[b].children;
      LeftInv(t, b, status);
      heap := heap[b := Info(heap[b].pid, heap[b].parent, heap[b].children, true, status)];
      var i := 0;
      SweptNone(m);
      assert Dead(t.heap, xs[..0]) == {} by { DeadNone(t.heap, xs[..0]); }
      OwnBlock(t, b, status);
      while i < |heap[b].children|
        invariant 0 <= i <= |xs| && V() == Swept(m, Dead(t.heap, xs[..i])) && b in heap && heap[b].children == xs
        modifies this, slots
      {
        NextChild(t, b, status, i);
        var child := heap[b].children[i];
        var mine := ShouldFree(heap, slots[..], child);
        if mine {
          FreedSwept(m, Dead(t.heap, xs[..i]), child);
          Destroy(child);
        } else {
          assert Dead(t.heap, xs[..i]) + {} == Dead(t.heap, xs[..i]);
        }
        i := i + 1;
        SweptChildren(m, Dead(t.heap, xs[..i]), b, xs);
      }
      assert xs[..i] == xs;
      var own := ShouldFree(heap, slots[..], b);
      if own {
        FreedSwept(m, Dead(t.heap, xs), b);
        Destroy(b);
      } else {
        assert Dead(t.heap, xs) + {} == Dead(t.heap, xs);
      }
      err := Ok;
    }

    /** wait_pid up to cv_wait: whether to sleep, and the status if not. */
    method WaitBegin(pid: int, caller: int) returns (err: Errno, sleeps: bool, status: int)
      requires Valid()
      ensures var b := GetBlock(slots[..], pid);
        if b == 0 || b !in heap || heap[b].parent != caller then err == EINVAL && !sleeps
        else err == Ok && sleeps == !heap[b].exited && (!sleeps ==> status == heap[b].status)
    {
      hide Taken, Families, GetBlock;
      sleeps, status := false, 0;
      var b := PidBlock(pid);
      if b == 0 { return EINVAL, false, 0; }
      BlockThere(V(), pid);
      if heap[b].parent != caller { return EINVAL, false, 0; }
      if !heap[b].exited { return Ok, true, 0; }
      return Ok, false, heap[b].status;
    }

    /** wait_pid after cv_wait. */
    method WaitEnd(pid: int) returns (status: int)
      requires slots.Length == MAX_PIDS && GetBlock(slots[..], pid) in heap
      ensures status == heap[GetBlock(slots[..], pid)].status
    {
      var b := PidBlock(pid);
      status := heap[b].status;
    }
  }

  lemma {:induction false} NoneTaken(slots: seq<nat>)
    requires forall i: nat :: i < |slots| ==> slots[i] == 0
    ensures Taken(slots) == 0
  {
    if slots != [] { NoneTaken(slots[1..]); }
  }

  lemma CountFull(t: Table)
    requires Inv(t)
    ensures t.count <= MAX_PIDS
    ensures t.count == MAX_PIDS <==> forall j: int :: 1 <= j <= MAX_PIDS ==> GetBlock(t.slots, j) != 0
  {
    hide Taken, Paired, Families;
    TakenAll(t.slots);
    assert |t.slots| == MAX_PIDS by { Sizes(t); }
    if forall j: int :: 1 <= j <= MAX_PIDS ==> GetBlock(t.slots, j) != 0 {
      forall i: nat | i < MAX_PIDS
        ensures t.slots[i] != 0
      {
        assert GetBlock(t.slots, i + 1) != 0;
      }
    }
  }

  lemma Sizes(t: Table)
    requires Inv(t)
    ensures |t.slots| == MAX_PIDS && 1 <= t.next <= MAX_PIDS
  {
    hide Taken, Families;
  }

  lemma CircZero(start: int)
    requires 1 <= start <= MAX_PIDS
    ensures Circ(start, 0) == start
  {
  }

  lemma FreeRange(t: Table, i: int)
    requires |t.slots| == MAX_PIDS && 1 <= t.next <= MAX_PIDS && FirstFree(t, i)
    ensures 1 <= i <= MAX_PIDS && t.slots[i - 1] == 0
  {
  }

  lemma BlockThere(t: Table, pid: int)
    requires Inv(t) && GetBlock(t.slots, pid) != 0
    ensures GetBlock(t.slots, pid) in t.heap && t.heap[GetBlock(t.slots, pid)].pid == pid && 1 <= pid <= MAX_PIDS
  {
    hide Taken, Families;
  }

  lemma NoNull(t: Table)
    requires Inv(t)
    ensures 0 !in t.heap
  {
    hide Taken, Families;
  }

  lemma DeadNone(heap: map<nat, Info>, xs: seq<nat>)
    requires xs == []
    ensures Dead(heap, xs) == {}
  {
  }

  lemma SweptChildren(m: Table, gone: set<nat>, b: nat, xs: seq<nat>)
    requires |m.slots| == MAX_PIDS
    ensures b in Swept(m, gone).heap && m.heap[b].children == xs ==> Swept(m, gone).heap[b].children == xs
  {
  }
}
