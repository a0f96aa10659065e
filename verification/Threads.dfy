/** The thread system: src/kern/thread/thread.c over the run queue of
    src/kern/thread/scheduler.c. Threads are numbers, 0 for NULL. A context switch is two
    steps, because no thread is current while the scheduler looks for the next one. */
module Threads {
  import opened Containers

  /** The threads of `xs` that sleep on `addr`, in order. */
  function Matching(xs: seq<nat>, on: map<nat, nat>, addr: nat): seq<nat> {
    if xs == [] then []
    else
      var n := |xs| - 1;
      Matching(xs[..n], on, addr) + (if xs[n] in on && on[xs[n]] == addr then [xs[n]] else [])
  }

  /** The others, in order. */
  function Others(xs: seq<nat>, on: map<nat, nat>, addr: nat): seq<nat> {
    if xs == [] then []
    else
      var n := |xs| - 1;
      Others(xs[..n], on, addr) + (if xs[n] in on && on[xs[n]] == addr then [] else [xs[n]])
  }

  lemma {:induction false} SplitAll(xs: seq<nat>, on: map<nat, nat>, addr: nat)
    ensures multiset(Matching(xs, on, addr)) + multiset(Others(xs, on, addr)) == multiset(xs)
    ensures |Matching(xs, on, addr)| + |Others(xs, on, addr)| == |xs|
  {
    if xs != [] {
      var n := |xs| - 1;
      var ys, x := xs[..n], xs[n];
      SplitAll(ys, on, addr);
      assert xs == ys + [x];
      var m, o := Matching(ys, on, addr), Others(ys, on, addr);
      if x in on && on[x] == addr {
        assert Matching(xs, on, addr) == m + [x] && Others(xs, on, addr) == o;
        JoinLeft(m, o, ys, x);
      } else {
        assert Matching(xs, on, addr) == m && Others(xs, on, addr) == o + [x];
        JoinLeft(o, m, ys, x);
      }
    }
  }

  lemma JoinLeft(a: seq<nat>, b: seq<nat>, c: seq<nat>, x: nat)
    requires multiset(a) + multiset(b) == multiset(c) || multiset(b) + multiset(a) == multiset(c)
    ensures multiset(a + [x]) + multiset(b) == multiset(c + [x]) && multiset(b) + multiset(a + [x]) == multiset(c + [x])
  {
  }

  lemma SplitNone(xs: seq<nat>, on: map<nat, nat>, addr: nat)
    ensures Matching(xs[..0], on, addr) == [] && Others(xs[..0], on, addr) == []
  {
  }

  /** The woken are exactly the sleepers on the address. */
  lemma {:induction false} SplitWho(xs: seq<nat>, on: map<nat, nat>, addr: nat, t: nat)
    ensures t in Matching(xs, on, addr) <==> t in xs && t in on && on[t] == addr
    ensures t in Others(xs, on, addr) <==> t in xs && !(t in on && on[t] == addr)
  {
    if xs != [] {
      var n := |xs| - 1;
      SplitWho(xs[..n], on, addr, t);
      assert xs == xs[..n] + [xs[n]];
    }
  }

  /** The woken keep their order, and so do the others. */
  lemma {:induction false} SplitOrder(xs: seq<nat>, on: map<nat, nat>, addr: nat, i: nat, j: nat)
    returns (a: nat, b: nat)
    requires i < j < |xs|
    requires (xs[i] in on && on[xs[i]] == addr) <==> (xs[j] in on && on[xs[j]] == addr)
    ensures var ys := if xs[i] in on && on[xs[i]] == addr then Matching(xs, on, addr) else Others(xs, on, addr);
      a < b < |ys| && ys[a] == xs[i] && ys[b] == xs[j]
  {
    var n := |xs| - 1;
    if j < n {
      a, b := SplitOrder(xs[..n], on, addr, i, j);
    } else {
      a := SplitAt(xs[..n], on, addr, i);
      b := if xs[i] in on && on[xs[i]] == addr then |Matching(xs[..n], on, addr)| else |Others(xs[..n], on, addr)|;
    }
  }

  lemma {:induction false} SplitAt(xs: seq<nat>, on: map<nat, nat>, addr: nat, i: nat) returns (a: nat)
    requires i < |xs|
    ensures var ys := if xs[i] in on && on[xs[i]] == addr then Matching(xs, on, addr) else Others(xs, on, addr);
      a < |ys| && ys[a] == xs[i]
  {
    var n := |xs| - 1;
    if i < n {
      a := SplitAt(xs[..n], on, addr, i);
    } else {
      a := if xs[i] in on && on[xs[i]] == addr then |Matching(xs[..n], on, addr)| else |Others(xs[..n], on, addr)|;
    }
  }

  lemma SplitNext(xs: seq<nat>, k: nat, on: map<nat, nat>, addr: nat)
    requires k < |xs|
    ensures Matching(xs[..k + 1], on, addr) ==
      Matching(xs[..k], on, addr) + (if xs[k] in on && on[xs[k]] == addr then [xs[k]] else [])
    ensures Others(xs[..k + 1], on, addr) ==
      Others(xs[..k], on, addr) + (if xs[k] in on && on[xs[k]] == addr then [] else [xs[k]])
  {
    assert xs[..k + 1][..k] == xs[..k];
  }

  /** The lists of threads and the counter. */
  datatype Lists = Lists(run: seq<nat>, sleep: seq<nat>, zomb: seq<nat>, cur: nat, num: int)

  function Only(t: nat): multiset<nat> {
    if t == 0 then multiset{} else multiset{t}
  }

  /** Every thread is in exactly one place, and the counter leaves out the zombies. */
  ghost predicate Placed(l: Lists, all: set<nat>) {
    && 0 !in all
    && multiset(l.run) + multiset(l.sleep) + multiset(l.zomb) + Only(l.cur) == multiset(all)
    && l.num == |l.run| + |l.sleep| + (if l.cur == 0 then 0 else 1)
  }

  /** What the partition means for one thread. */
  lemma OnePlace(l: Lists, all: set<nat>, t: nat)
    requires Placed(l, all) && t != 0
    ensures t in all <==> t in l.run || t in l.sleep || t in l.zomb || t == l.cur
    ensures t in l.run ==> t !in l.sleep && t !in l.zomb && t != l.cur && multiset(l.run)[t] == 1
    ensures t in l.sleep ==> t !in l.zomb && t != l.cur && multiset(l.sleep)[t] == 1
    ensures t in l.zomb ==> t != l.cur && multiset(l.zomb)[t] == 1
  {
    var m := multiset(l.run) + multiset(l.sleep) + multiset(l.zomb) + Only(l.cur);
    assert m[t] == multiset(l.run)[t] + multiset(l.sleep)[t] + multiset(l.zomb)[t] + Only(l.cur)[t];
    assert m[t] == if t in all then 1 else 0;
  }

  class ThreadSystem {
    var cur: nat                   // curthread
    const sleepers: Arr
    const zombies: Arr
    const runqueue: Queue
    var numthreads: int
    var sleepaddr: map<nat, nat>   // t_sleepaddr of each thread
    var all: set<nat>              // the thread structures that exist
    var forked: bool               // whether some thread has been forked

    ghost predicate Apart()
      reads this, sleepers, zombies, runqueue
    {
      && sleepers != zombies && runqueue.data != sleepers.v && runqueue.data != zombies.v
      && (sleepers.v != null ==> sleepers.v != zombies.v)
    }

    ghost predicate Shape()
      reads this, sleepers, zombies, runqueue, sleepers.v, zombies.v, runqueue.data
    {
      Apart() && sleepers.Valid() && zombies.Valid() && runqueue.Valid()
    }

    ghost function V(): Lists
      requires Shape()
      reads this, sleepers, zombies, runqueue, sleepers.v, zombies.v, runqueue.data
    {
      Lists(runqueue.Contents(), sleepers.Contents(), zombies.Contents(), cur, numthreads)
    }

    /** After the first fork the storage of the sleepers and of the run queue has a place for
        every thread, of which the run queue can use all but one. */
    ghost predicate Valid()
      reads this, sleepers, zombies, runqueue, sleepers.v, zombies.v, runqueue.data
    {
      && Shape() && Placed(V(), all) && numthreads + 2 < LIMIT
      && (forked ==> numthreads <= sleepers.max && numthreads <= runqueue.size)
    }

    /** thread_bootstrap and scheduler_bootstrap. */
    constructor (me: nat)
      requires me != 0
      ensures Valid() && fresh(sleepers) && fresh(zombies) && fresh(runqueue) && fresh(runqueue.data)
      ensures sleepers.v == null && zombies.v == null
      ensures V() == Lists([], [], [], me, 1) && all == {me} && !forked && runqueue.size == 32
    {
      sleepers := new Arr();
      zombies := new Arr();
      runqueue := new Queue(32);
      cur, numthreads, sleepaddr := me, 1, map[me := 0];
      all, forked := {me}, false;
    }

    /** make_runnable. */
    method MakeRunnable(t: nat, room: bool) returns (ok: bool)
      requires Shape() && |runqueue.Contents()| + 1 < LIMIT
      modifies runqueue, runqueue.data
      ensures Shape() && (runqueue.data == old(runqueue.data) || fresh(runqueue.data))
      ensures ok <==> room || |old(runqueue.Contents())| < old(runqueue.size) - 1
      ensures runqueue.size >= old(runqueue.size)
      ensures !room || |old(runqueue.Contents())| < old(runqueue.size) - 1 ==>
        runqueue.data == old(runqueue.data) && runqueue.size == old(runqueue.size)
      ensures V() ==
        Lists(if ok then old(V()).run + [t] else old(V()).run, old(V()).sleep, old(V()).zomb, cur, numthreads)
    {
      hide Ring, Span;
      ok := runqueue.AddTail(t, room);
    }

    /** The preallocations of thread_fork. */
    method Reserve(rooms: seq<bool>) returns (ok: bool)
      requires Valid() && numthreads + 3 < LIMIT && |rooms| == 3
      modifies sleepers, zombies, runqueue, sleepers.v, zombies.v, runqueue.data
      ensures Valid() && V() == old(V()) && (ok ==> numthreads < sleepers.max && numthreads < runqueue.size)
      ensures numthreads < old(runqueue.size) ==> runqueue.size == old(runqueue.size)
      ensures sleepers.v == old(sleepers.v) || fresh(sleepers.v)
      ensures zombies.v == old(zombies.v) || fresh(zombies.v)
      ensures runqueue.data == old(runqueue.data) || fresh(runqueue.data)
      ensures (forall k: nat :: k < 3 ==> rooms[k]) ==> ok
    {
      hide Ring, Span, Grown, Placed;
      PlacedLengths(V(), all);
      ok := sleepers.Preallocate(numthreads + 1, rooms[0]);
      if !ok { return; }
      ok := zombies.Preallocate(numthreads + 1, rooms[1]);
      if !ok { return; }
      ok := runqueue.Preallocate(numthreads + 1, rooms[2]);
    }

    /** The new thread becomes runnable and is counted. */
    method Launch(newguy: nat, room: bool) returns (ok: bool)
      requires Valid() && newguy != 0 && newguy !in all && numthreads + 3 < LIMIT
      requires numthreads < sleepers.max && numthreads < runqueue.size
      modifies this, runqueue, runqueue.data
      ensures Valid() && (room ==> ok) && (ok ==> forked) &&
        (runqueue.data == old(runqueue.data) || fresh(runqueue.data))
      ensures ok ==> V() == Lists(old(V()).run + [newguy], old(V()).sleep, old(V()).zomb, old(cur), old(numthreads) + 1)
      ensures !ok ==> V() == old(V())
      ensures all == if ok then old(all) + {newguy} else old(all)
      ensures !ok ==> forked == old(forked)
      ensures cur != 0 ==> runqueue.size == old(runqueue.size)
    {
      hide Ring, Span, Grown, Placed;
      ghost var l := V();
      PlacedLengths(l, all);
      ok := MakeRunnable(newguy, room);
      if ok {
        sleepaddr := sleepaddr[newguy := 0];
        numthreads := numthreads + 1;
        NewPlace(l, all, newguy);
        all, forked := all + {newguy}, true;
      }
    }

    /** The part of thread_fork with interrupts off; `pid` says whether the new thread got a
        pid, and `rooms` which of the four allocations would succeed. */
    method Fork(newguy: nat, pid: bool, rooms: seq<bool>) returns (ok: bool)
      requires Valid() && newguy != 0 && newguy !in all && numthreads + 3 < LIMIT && |rooms| == 4
      modifies this, sleepers, zombies, runqueue, sleepers.v, zombies.v, runqueue.data
      ensures Valid() && (sleepers.v == old(sleepers.v) || fresh(sleepers.v))
      ensures zombies.v == old(zombies.v) || fresh(zombies.v)
      ensures runqueue.data == old(runqueue.data) || fresh(runqueue.data)
      ensures ok ==> V() == Lists(old(V()).run + [newguy], old(V()).sleep, old(V()).zomb, cur, old(numthreads) + 1)
      ensures ok ==> all == old(all) + {newguy} && forked && cur == old(cur)
      ensures !ok ==> V() == old(V()) && all == old(all) && forked == old(forked)
      ensures pid && (forall k: nat :: k < 4 ==> rooms[k]) ==> ok
      ensures cur != 0 && old(numthreads) < old(runqueue.size) ==> runqueue.size == old(runqueue.size)
    {
      hide Ring, Span, Grown, Placed;
      if !pid { return false; }
      ok := Reserve(rooms[..3]);
      if ok { ok := Launch(newguy, rooms[3]); }
    }

    /** mi_switch up to the call of the scheduler, for a thread that stays ready; the source stops
        when the run queue is full and cannot grow. After a fork it is full just when all threads
        are ready and there are as many as it has places: a ring cannot use its last one. */
    method StashReady(room: bool) returns (ok: bool)
      requires Valid() && cur != 0
      modifies this`cur, runqueue, runqueue.data
      ensures ok <==> room || !old(runqueue.Full())
      ensures forked ==> (old(runqueue.Full()) <==> old(numthreads == runqueue.size && V().sleep == []))
      ensures ok ==>
        Valid() && (runqueue.data == old(runqueue.data) || fresh(runqueue.data)) &&
        V() == Lists(old(V()).run + [old(cur)], old(V()).sleep, old(V()).zomb, 0, old(numthreads))
    {
      hide Ring, Span, Grown, Placed;
      ghost var l := V();
      PlacedLengths(l, all);
      var t := cur;
      cur := 0;
      ok := MakeRunnable(t, room);
      if ok { ReadyPlace(l, all); }
    }

    /** thread_sleep up to the call of the scheduler; the source stops when the sleepers' array is
        full and cannot grow. Once a thread has been forked, going to sleep never allocates. */
    method Sleep(addr: nat, room: bool) returns (ok: bool)
      requires Valid() && cur != 0
      modifies this`cur, this`sleepaddr, sleepers, sleepers.v
      ensures ok <==> room || old(sleepers.num) < old(sleepers.max)
      ensures forked ==> ok && sleepers.v == old(sleepers.v) && sleepers.max == old(sleepers.max)
      ensures sleepers.v == old(sleepers.v) || fresh(sleepers.v)
      ensures ok ==>
        Valid() && sleepaddr == old(sleepaddr)[old(cur) := addr] &&
        V() == Lists(old(V()).run, old(V()).sleep + [old(cur)], old(V()).zomb, 0, old(numthreads))
    {
      hide Ring, Span, Grown, Placed;
      ghost var l := V();
      PlacedLengths(l, all);
      GrownCases(sleepers.max, sleepers.num + 1);
      sleepaddr := sleepaddr[cur := addr];
      var t := cur;
      cur := 0;
      ok := sleepers.Add(t, room);
      if ok { SleepPlace(l, all); }
    }

    /** The end of thread_exit: the counter goes down before the switch. The source stops when the
        zombies' array is full and cannot grow. */
    method ExitThread(room: bool) returns (ok: bool)
      requires Valid() && cur != 0
      modifies this`cur, this`numthreads, zombies, zombies.v
      ensures ok <==> room || old(zombies.num) < old(zombies.max)
      ensures zombies.v == old(zombies.v) || fresh(zombies.v)
      ensures ok ==>
        Valid() && V() == Lists(old(V()).run, old(V()).sleep, old(V()).zomb + [old(cur)], 0, old(numthreads) - 1)
    {
      hide Ring, Span, Grown, Placed;
      ghost var l := V();
      PlacedLengths(l, all);
      numthreads := numthreads - 1;
      ok := BecomeZombie(room);
      if ok { ZombPlace(l, all); }
    }

    /** mi_switch up to the call of the scheduler, for a thread that has exited. */
    method BecomeZombie(room: bool) returns (ok: bool)
      requires Shape()
      modifies this`cur, zombies, zombies.v
      ensures ok <==> room || old(zombies.num) < old(zombies.max)
      ensures Shape() && (zombies.v == old(zombies.v) || fresh(zombies.v))
      ensures ok ==> V() == Lists(old(V()).run, old(V()).sleep, old(V()).zomb + [old(cur)], 0, numthreads)
    {
      hide Ring, Span, Grown;
      var t := cur;
      cur := 0;
      ok := zombies.Add(t, room);
    }

    /** scheduler, once something is ready, and the update of curthread. */
    method Pick()
      requires Valid() && cur == 0 && runqueue.Contents() != []
      modifies this`cur, runqueue`nextread
      ensures Valid() && all == old(all) && forked == old(forked)
      ensures cur == old(V()).run[0] != 0 &&
        V() == Lists(old(V()).run[1..], old(V()).sleep, old(V()).zomb, cur, old(numthreads))
    {
      hide Ring, Span, Placed;
      ghost var l := V();
      var t := runqueue.RemHead();
      cur := t;
      PickPlace(l, all);
      assert runqueue.Contents() == l.run[1..];
    }

    /** The end of thread_sleep, in the thread that was woken. */
    method AfterSleep()
      requires Valid() && cur != 0
      modifies this`sleepaddr
      ensures Valid() && V() == old(V()) && sleepaddr == old(sleepaddr)[cur := 0]
    {
      hide Ring, Span, Placed;
      sleepaddr := sleepaddr[cur := 0];
    }

    /** exorcise: no zombie is the current thread. */
    method Exorcise()
      requires Valid()
      modifies this`all, zombies
      ensures Valid() && forked == old(forked) && all == old(all) - (set z | z in old(V()).zomb)
      ensures zombies.v == old(zombies.v) || zombies.v == null
      ensures V() == Lists(old(V()).run, old(V()).sleep, [], cur, numthreads)
    {
      hide Ring, Span, Grown, Placed, Matching, Others;
      ghost var l := V();
      var i, gone: set<nat> := 0, {};
      while i < zombies.num
        invariant i <= zombies.num && forall z :: z in gone <==> z in l.zomb[..i]
        modifies {}
      {
        var z := zombies.GetGuy(i);
        PlacedThere(l, all, z);
        assert z != cur;
        assert l.zomb[..i + 1] == l.zomb[..i] + [z];
        gone := gone + {z};
        i := i + 1;
      }
      assert l.zomb[..i] == l.zomb;
      var ok := zombies.SetSize(0, false);
      assert ok && zombies.Contents() == [];
      BurnPlace(l, all, gone);
      all := all - gone;
    }

    /** A sleeper goes to the tail of the run queue; the source stops when the queue is full and
        cannot grow. */
    method Move(i: nat, room: bool) returns (ok: bool)
      requires Valid() && i < sleepers.num
      modifies sleepers`num, sleepers.v, runqueue, runqueue.data
      ensures ok <==> room || !old(runqueue.Full())
      ensures runqueue.data == old(runqueue.data) || fresh(runqueue.data)
      ensures !room || !old(runqueue.Full()) ==>
        runqueue.data == old(runqueue.data) && runqueue.size == old(runqueue.size)
      ensures ok ==>
        Valid() &&
        V() == Lists(old(V()).run + [old(V()).sleep[i]], old(V()).sleep[..i] + old(V()).sleep[i + 1..],
                     old(V()).zomb, cur, numthreads)
    {
      hide Ring, Span, Grown, Placed;
      ghost var l := V();
      PlacedLengths(l, all);
      MovePlace(l, all, i);
      var t := sleepers.GetGuy(i);
      sleepers.Remove(i);
      ok := MakeRunnable(t, room);
    }

    /** thread_wakeup: all sleepers on `addr` go to the tail of the run queue in order. The source
        stops when there are not places enough and the queue cannot grow; after a fork that is so
        just when no thread is current, everybody asleep is woken, and there are as many threads
        as places. */
    method Wakeup(addr: nat, room: bool) returns (ok: bool)
      requires Valid()
      modifies sleepers`num, sleepers.v, runqueue, runqueue.data
      ensures runqueue.data == old(runqueue.data) || fresh(runqueue.data)
      ensures var n := |old(V()).run| + |Matching(old(V()).sleep, sleepaddr, addr)|;
        && (ok <==> room || n < old(runqueue.size))
        && (n < old(runqueue.size) ==> runqueue.data == old(runqueue.data))
        && (forked ==> (n < old(runqueue.size) <==>
              cur != 0 || Others(old(V()).sleep, sleepaddr, addr) != [] || numthreads < old(runqueue.size)))
      ensures ok ==>
        Valid() &&
        V() == Lists(old(V()).run + Matching(old(V()).sleep, sleepaddr, addr),
                     Others(old(V()).sleep, sleepaddr, addr), old(V()).zomb, cur, numthreads)
    {
      hide Ring, Span, Placed, Matching, Others, Woken, Only;
      ghost var l, on, size := V(), sleepaddr, runqueue.size;
      Enough(l, all, on, addr, size);
      var i: int := 0;
      ghost var k := 0;
      WokenNone(l, on, addr);
      while i < sleepers.num
        invariant Valid() && k <= |l.sleep| && i == |Others(l.sleep[..k], on, addr)|
        invariant V() == Woken(l, k, on, addr)
        invariant runqueue.data == old(runqueue.data) || fresh(runqueue.data)
        invariant !room || |l.run| + |Matching(l.sleep, on, addr)| < size ==>
          runqueue.data == old(runqueue.data) && runqueue.size == size
        decreases |l.sleep| - k
      {
        var moved;
        ok, moved := WakeNext(i, addr, room, l, k);
        if !ok {
          return;
        }
        if moved { i := i - 1; }
        i := i + 1;
        k := k + 1;
      }
      WokenAll(l, k, on, addr);
      ok := true;
    }

    /** One turn of that loop, for the sleeper that was the `k`-th at first. */
    method WakeNext(i: nat, addr: nat, room: bool, ghost l: Lists, ghost k: nat) returns (ok: bool, moved: bool)
      requires Valid() && k <= |l.sleep| && i == |Others(l.sleep[..k], sleepaddr, addr)| && i < sleepers.num
      requires V() == Woken(l, k, sleepaddr, addr)
      modifies sleepers`num, sleepers.v, runqueue, runqueue.data
      ensures runqueue.data == old(runqueue.data) || fresh(runqueue.data)
      ensures !ok ==> !room && |l.run| + |Matching(l.sleep, sleepaddr, addr)| >= old(runqueue.size)
      ensures !room || |l.run| + |Matching(l.sleep, sleepaddr, addr)| < old(runqueue.size) ==>
        runqueue.data == old(runqueue.data) && runqueue.size == old(runqueue.size)
      ensures ok ==>
        && Valid() && k < |l.sleep| && V() == Woken(l, k + 1, sleepaddr, addr)
        && |Others(l.sleep[..k + 1], sleepaddr, addr)| == if moved then i else i + 1
    {
      hide Ring, Span, Placed, Matching, Others, Woken, Only;
      WokenStep(l, k, sleepaddr, addr);
      var t := sleepers.GetGuy(i);
      ok, moved := true, false;
      if t in sleepaddr && sleepaddr[t] == addr {
        MorePlaces(l, k, sleepaddr, addr);
        ok := Move(i, room);
        moved := true;
      }
    }

    /** The search all three wakeup functions make. */
    method FirstSleeper(addr: nat) returns (i: nat)
      requires Valid()
      ensures var xs := V().sleep;
        var w := Matching(xs, sleepaddr, addr);
        i <= |xs| && if w == [] then i == |xs| else i < |xs| && xs[i] == w[0]
    {
      hide Ring, Span, Placed, Matching;
      ghost var xs, on := V().sleep, sleepaddr;
      i := 0;
      SplitNone(xs, on, addr);
      while i < sleepers.num
        invariant i <= |xs| && Matching(xs[..i], on, addr) == []
      {
        SplitNext(xs, i, on, addr);
        var t := sleepers.GetGuy(i);
        if t in sleepaddr && sleepaddr[t] == addr {
          MatchingPrefix(xs, i + 1, on, addr);
          return;
        }
        i := i + 1;
      }
      assert xs[..i] == xs;
    }

    /** thread_wake_one: the first sleeper on `addr`, if any. After a fork the run queue is full
        just when no thread is current, nobody else sleeps, and there are as many threads as
        places. */
    method WakeOne(addr: nat, room: bool) returns (ok: bool)
      requires Valid()
      modifies sleepers`num, sleepers.v, runqueue, runqueue.data
      ensures runqueue.data == old(runqueue.data) || fresh(runqueue.data)
      ensures !old(runqueue.Full()) ==> runqueue.data == old(runqueue.data)
      ensures var xs := old(V()).sleep;
        var w := Matching(xs, sleepaddr, addr);
        && (ok <==> w == [] || room || !old(runqueue.Full()))
        && (forked && w != [] ==>
              (old(runqueue.Full()) <==> cur == 0 && |xs| == 1 && numthreads == old(runqueue.size)))
        && (ok ==> Valid())
        && (ok && w == [] ==> V() == old(V()))
        && (ok && w != [] ==> exists i: nat ::
              i < |xs| && xs[i] == w[0] &&
              V() == Lists(old(V()).run + [w[0]], xs[..i] + xs[i + 1..], old(V()).zomb, cur, numthreads))
    {
      hide Ring, Span, Placed, Matching;
      PlacedLengths(V(), all);
      var i := FirstSleeper(addr);
      ok := true;
      if i < sleepers.num { ok := Move(i, room); }
    }

    /** thread_hassleepers. */
    method HasSleepers(addr: nat) returns (b: bool)
      requires Valid()
      ensures b <==> exists t :: t in V().sleep && t in sleepaddr && sleepaddr[t] == addr
    {
      hide Ring, Span, Placed, Matching;
      var i := FirstSleeper(addr);
      b := i < sleepers.num;
      ghost var xs, on := V().sleep, sleepaddr;
      ghost var w := Matching(xs, on, addr);
      forall t: nat
        ensures t in w <==> t in xs && t in on && on[t] == addr
      {
        SplitWho(xs, on, addr, t);
      }
      if w != [] { assert w[0] in w; }
    }
  }

  datatype Op = ForkOp(t: nat, pid: bool, rooms: seq<bool>) | YieldOp(room: bool) | SleepOp(addr: nat, room: bool)
    | ExitOp(room: bool) | PickOp | ResumeOp | BurnOp | WakeOp(addr: nat, room: bool) | WakeOneOp(addr: nat, room: bool)

  /** After any run of calls every thread is in exactly one place and the counter is right. A
      call is left out when there is no thread to make it or when an allocation that it may
      need is refused. */
  method Run(s: ThreadSystem, ops: seq<Op>)
    requires s.Valid()
    modifies s, s.sleepers, s.zombies, s.runqueue, s.sleepers.v, s.zombies.v, s.runqueue.data
    ensures s.Valid() && InOnePlace(s.V(), s.all)
    ensures s.numthreads == |s.V().run| + |s.V().sleep| + (if s.cur == 0 then 0 else 1)
  {
    hide Ring, Span, Grown, Placed, Matching, Others, InOnePlace;
    var k := 0;
    while k < |ops|
      invariant k <= |ops| && s.Valid()
      invariant s.sleepers.v == old(s.sleepers.v) || fresh(s.sleepers.v)
      invariant s.zombies.v == old(s.zombies.v) || s.zombies.v == null || fresh(s.zombies.v)
      invariant s.runqueue.data == old(s.runqueue.data) || fresh(s.runqueue.data)
    {
      Step(s, ops[k]);
      k := k + 1;
    }
    PlacedLengths(s.V(), s.all);
    EveryPlace(s.V(), s.all);
  }

  method Step(s: ThreadSystem, op: Op)
    requires s.Valid()
    modifies s, s.sleepers, s.zombies, s.runqueue, s.sleepers.v, s.zombies.v, s.runqueue.data
    ensures s.Valid()
    ensures s.sleepers.v == old(s.sleepers.v) || fresh(s.sleepers.v)
    ensures s.zombies.v == old(s.zombies.v) || s.zombies.v == null || fresh(s.zombies.v)
    ensures s.runqueue.data == old(s.runqueue.data) || fresh(s.runqueue.data)
  {
    hide Ring, Span, Grown, Placed, Matching, Others;
    match op {
      case ForkOp(t, pid, rooms) =>
        if t != 0 && t !in s.all && s.numthreads + 3 < LIMIT && |rooms| == 4 { var ok := s.Fork(t, pid, rooms); }
      case YieldOp(room) =>
        var full := s.runqueue.IsFull();
        if s.cur != 0 && (room || !full) { var ok := s.StashReady(room); }
      case SleepOp(addr, room) => if s.cur != 0 && (room || s.forked) { var ok := s.Sleep(addr, room); }
      case ExitOp(room) => if s.cur != 0 && (room || s.zombies.num < s.zombies.max) { var ok := s.ExitThread(room); }
      case PickOp =>
        var none := s.runqueue.IsEmpty();
        if s.cur == 0 && !none { s.Pick(); }
      case ResumeOp => if s.cur != 0 { s.AfterSleep(); }
      case BurnOp => s.Exorcise();
      case WakeOp(addr, room) =>
        if room || (s.forked && (s.cur != 0 || s.numthreads < s.runqueue.size)) { var ok := s.Wakeup(addr, room); }
      case WakeOneOp(addr, room) =>
        if room || (s.forked && (s.cur != 0 || s.numthreads < s.runqueue.size)) { var ok := s.WakeOne(addr, room); }
    }
  }

  /** Each thread is ready, asleep, a zombie or current, and only one of these, once. */
  ghost predicate InOnePlace(l: Lists, all: set<nat>) {
    forall t: nat :: t != 0 ==>
      && (t in all <==> t in l.run || t in l.sleep || t in l.zomb || t == l.cur)
      && (t in l.run ==> t !in l.sleep && t !in l.zomb && t != l.cur && multiset(l.run)[t] == 1)
      && (t in l.sleep ==> t !in l.zomb && t != l.cur && multiset(l.sleep)[t] == 1)
      && (t in l.zomb ==> t != l.cur && multiset(l.zomb)[t] == 1)
  }

  lemma EveryPlace(l: Lists, all: set<nat>)
    requires Placed(l, all)
    ensures InOnePlace(l, all)
  {
    hide Placed;
    forall t: nat | t != 0
      ensures t in all <==> t in l.run || t in l.sleep || t in l.zomb || t == l.cur
      ensures t in l.run ==> t !in l.sleep && t !in l.zomb && t != l.cur && multiset(l.run)[t] == 1
      ensures t in l.sleep ==> t !in l.zomb && t != l.cur && multiset(l.sleep)[t] == 1
      ensures t in l.zomb ==> t != l.cur && multiset(l.zomb)[t] == 1
    {
      OnePlace(l, all, t);
    }
  }

  /** Thirty-two threads, all ready but the current one: thread_fork has found the storage of
      the run queue large enough each time, and there is no place left for thread_yield. */
  method AllReady() returns (s: ThreadSystem)
    ensures fresh(s) && fresh(s.sleepers) && fresh(s.zombies) && fresh(s.runqueue) && fresh(s.runqueue.data)
    ensures (s.sleepers.v == null || fresh(s.sleepers.v)) && (s.zombies.v == null || fresh(s.zombies.v))
    ensures s.Valid() && s.forked && s.cur != 0 && s.runqueue.Full()
    ensures s.numthreads == 32 && s.runqueue.size == 32 && s.V().sleep == []
  {
    hide Ring, Span, Grown, Placed, Matching, Others;
    s := new ThreadSystem(1);
    var t := 2;
    while t <= 32
      invariant 2 <= t <= 33 && s.Valid() && s.cur == 1 && s.numthreads == t - 1 && s.runqueue.size == 32
      invariant |s.V().run| == t - 2 && s.V().sleep == [] && (forall u :: u in s.all ==> u < t) && (t > 2 ==> s.forked)
      invariant fresh(s) && fresh(s.sleepers) && fresh(s.zombies) && fresh(s.runqueue)
      invariant fresh(s.runqueue.data) && (s.sleepers.v == null || fresh(s.sleepers.v))
      invariant s.zombies.v == null || fresh(s.zombies.v)
    {
      var ok := s.Fork(t, true, [true, true, true, true]);
      t := t + 1;
    }
  }

  lemma {:induction false} AllMatch(xs: seq<nat>, on: map<nat, nat>, addr: nat)
    requires forall t :: t in xs ==> t in on && on[t] == addr
    ensures Matching(xs, on, addr) == xs
  {
    if xs != [] {
      AllMatch(xs[..|xs| - 1], on, addr);
      assert xs == xs[..|xs| - 1] + [xs[|xs| - 1]];
    }
  }

  /** Of 32 threads, `n` are ready or current and the others asleep on `addr`. */
  ghost predicate Sleeping(s: ThreadSystem, addr: nat, n: nat)
    reads s, s.sleepers, s.zombies, s.runqueue, s.sleepers.v, s.zombies.v, s.runqueue.data
  {
    && s.Valid() && s.forked && s.numthreads == 32 && s.runqueue.size == 32
    && |s.V().sleep| == 32 - n && (s.cur != 0 <==> n > 0)
    && forall t :: t in s.V().sleep ==> t in s.sleepaddr && s.sleepaddr[t] == addr
  }

  method SleepNext(s: ThreadSystem, addr: nat, n: nat)
    requires 0 < n <= 32 && Sleeping(s, addr, n)
    modifies s`cur, s`sleepaddr, s.sleepers, s.sleepers.v, s.runqueue`nextread
    ensures Sleeping(s, addr, n - 1) && s.sleepers.v == old(s.sleepers.v)
  {
    hide Ring, Span, Grown, Placed, Only;
    PlacedLengths(s.V(), s.all);
    var ok := s.Sleep(addr, false);
    if n > 1 { s.Pick(); }
  }

  /** The same threads all asleep on one address, and nobody current when an interrupt wakes
      them: the last one finds the run queue full. */
  method AllAsleep(addr: nat) returns (s: ThreadSystem, ok: bool)
    ensures fresh(s) && s.forked && s.cur == 0 && !ok
  {
    hide Ring, Span, Grown, Placed, Matching, Others, Only;
    s := AllReady();
    var n := 32;
    while n > 0
      invariant 0 <= n <= 32 && Sleeping(s, addr, n)
      invariant fresh(s) && fresh(s.sleepers) && fresh(s.runqueue)
      invariant fresh(s.runqueue.data) && (s.sleepers.v == null || fresh(s.sleepers.v))
    {
      SleepNext(s, addr, n);
      n := n - 1;
    }
    AllMatch(s.V().sleep, s.sleepaddr, addr);
    ok := s.Wakeup(addr, false);
  }

  /** The lists when thread_wakeup has looked at the first `k` sleepers. */
  function Woken(l: Lists, k: nat, on: map<nat, nat>, addr: nat): Lists
    requires k <= |l.sleep|
  {
    Lists(l.run + Matching(l.sleep[..k], on, addr), Others(l.sleep[..k], on, addr) + l.sleep[k..], l.zomb, l.cur, l.num)
  }

  /** A match that is still to come counts. */
  lemma MorePlaces(l: Lists, k: nat, on: map<nat, nat>, addr: nat)
    requires k < |l.sleep| && l.sleep[k] in on && on[l.sleep[k]] == addr
    ensures |Woken(l, k, on, addr).run| < |l.run| + |Matching(l.sleep, on, addr)|
  {
    SplitNext(l.sleep, k, on, addr);
    MatchingPrefix(l.sleep, k + 1, on, addr);
    hide Matching, Others;
  }

  /** Whether the places of the run queue are enough for the woken. */
  lemma Enough(l: Lists, all: set<nat>, on: map<nat, nat>, addr: nat, size: nat)
    requires Placed(l, all)
    ensures l.num <= size ==>
      (|l.run| + |Matching(l.sleep, on, addr)| < size <==>
         l.cur != 0 || Others(l.sleep, on, addr) != [] || l.num < size)
  {
    hide Matching, Others;
    SplitAll(l.sleep, on, addr);
  }

  lemma WokenNone(l: Lists, on: map<nat, nat>, addr: nat)
    ensures Woken(l, 0, on, addr) == l && |Others(l.sleep[..0], on, addr)| == 0
  {
    SplitNone(l.sleep, on, addr);
  }

  lemma WokenAll(l: Lists, k: nat, on: map<nat, nat>, addr: nat)
    requires k <= |l.sleep| && |Woken(l, k, on, addr).sleep| <= |Others(l.sleep[..k], on, addr)|
    ensures Woken(l, k, on, addr) ==
      Lists(l.run + Matching(l.sleep, on, addr), Others(l.sleep, on, addr), l.zomb, l.cur, l.num)
  {
    assert l.sleep[..k] == l.sleep;
  }

  lemma WokenStep(l: Lists, k: nat, on: map<nat, nat>, addr: nat)
    requires k <= |l.sleep| && |Others(l.sleep[..k], on, addr)| < |Woken(l, k, on, addr).sleep|
    ensures k < |l.sleep|
    ensures var u, v := Woken(l, k, on, addr), Woken(l, k + 1, on, addr);
      var i := |Others(l.sleep[..k], on, addr)|;
      && u.sleep[i] == l.sleep[k] && v.zomb == u.zomb && v.cur == u.cur && v.num == u.num
      && if l.sleep[k] in on && on[l.sleep[k]] == addr
         then |Others(l.sleep[..k + 1], on, addr)| == i && v.run == u.run + [u.sleep[i]] &&
           v.sleep == u.sleep[..i] + u.sleep[i + 1..]
         else |Others(l.sleep[..k + 1], on, addr)| == i + 1 && v.run == u.run && v.sleep == u.sleep
  {
    SplitNext(l.sleep, k, on, addr);
    hide Matching, Others;
  }

  lemma {:induction false} MatchingPrefix(xs: seq<nat>, k: nat, on: map<nat, nat>, addr: nat)
    requires k <= |xs|
    ensures Matching(xs[..k], on, addr) <= Matching(xs, on, addr)
    decreases |xs| - k
  {
    if k == |xs| {
      assert xs[..k] == xs;
    } else {
      SplitNext(xs, k, on, addr);
      MatchingPrefix(xs, k + 1, on, addr);
    }
  }

  lemma MovePlace(l: Lists, all: set<nat>, i: nat)
    requires Placed(l, all) && i < |l.sleep|
    ensures Placed(Lists(l.run + [l.sleep[i]], l.sleep[..i] + l.sleep[i + 1..], l.zomb, l.cur, l.num), all)
  {
    assert l.sleep == l.sleep[..i] + [l.sleep[i]] + l.sleep[i + 1..];
  }

  lemma PlacedLengths(l: Lists, all: set<nat>)
    requires Placed(l, all)
    ensures |l.run| <= l.num && |l.sleep| <= l.num && |l.run| + |l.sleep| <= l.num
    ensures l.num == |l.run| + |l.sleep| + (if l.cur == 0 then 0 else 1)
    ensures l.cur != 0 ==> |l.sleep| < l.num && |l.run| < l.num
  {
  }

  lemma NoZero(l: Lists, all: set<nat>)
    requires Placed(l, all)
    ensures 0 !in l.run && 0 !in l.sleep && 0 !in l.zomb
  {
    var m := multiset(l.run) + multiset(l.sleep) + multiset(l.zomb) + Only(l.cur);
    assert m[0] == multiset(all)[0] == 0;
    assert m[0] >= multiset(l.run)[0] + multiset(l.sleep)[0] + multiset(l.zomb)[0];
  }

  lemma PlacedThere(l: Lists, all: set<nat>, z: nat)
    requires Placed(l, all) && z in l.zomb
    ensures z != l.cur
  {
    NoZero(l, all);
    OnePlace(l, all, z);
  }

  lemma NewPlace(l: Lists, all: set<nat>, t: nat)
    requires Placed(l, all) && t != 0 && t !in all
    ensures Placed(Lists(l.run + [t], l.sleep, l.zomb, l.cur, l.num + 1), all + {t})
  {
    assert multiset(all + {t}) == multiset(all) + multiset{t};
  }

  lemma ReadyPlace(l: Lists, all: set<nat>)
    requires Placed(l, all) && l.cur != 0
    ensures Placed(Lists(l.run + [l.cur], l.sleep, l.zomb, 0, l.num), all)
  {
  }

  lemma SleepPlace(l: Lists, all: set<nat>)
    requires Placed(l, all) && l.cur != 0
    ensures Placed(Lists(l.run, l.sleep + [l.cur], l.zomb, 0, l.num), all)
  {
  }

  lemma ZombPlace(l: Lists, all: set<nat>)
    requires Placed(l, all) && l.cur != 0
    ensures Placed(Lists(l.run, l.sleep, l.zomb + [l.cur], 0, l.num - 1), all)
  {
  }

  lemma PickPlace(l: Lists, all: set<nat>)
    requires Placed(l, all) && l.cur == 0 && l.run != []
    ensures l.run[0] != 0 && Placed(Lists(l.run[1..], l.sleep, l.zomb, l.run[0], l.num), all)
  {
    assert l.run == [l.run[0]] + l.run[1..];
    NoZero(l, all);
  }

  lemma BurnPlace(l: Lists, all: set<nat>, gone: set<nat>)
    requires Placed(l, all) && forall z :: z in gone <==> z in l.zomb
    ensures Placed(Lists(l.run, l.sleep, [], l.cur, l.num), all - gone)
  {
    var rest: set<nat> := all - gone;
    NoZero(l, all);
    forall t: nat
      ensures (multiset(l.run) + multiset(l.sleep) + Only(l.cur))[t] == multiset(rest)[t]
    {
      if t != 0 { OnePlace(l, all, t); }
    }
    assert multiset(l.run) + multiset(l.sleep) + multiset([]) + Only(l.cur) == multiset(rest);
  }

  lemma GrownCases(max: nat, n: nat)
    ensures Grown(max, n) >= max && (n <= max ==> Grown(max, n) == max)
  {
  }
}
