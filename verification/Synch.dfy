/** Semaphores, locks and condition variables, src/kern/thread/synch.c, in every interleaving
    of any number of threads on one processor. The functions are cut into the instructions
    that touch shared state; interrupts come only when the spl is 0, a thread that sleeps
    hands the processor on with the spl still high, and which ready thread runs next, and
    which sleeper a single wakeup takes, is left open. Thread 0 is none. */
module Synch {
  import opened Basics

  /** What a thread can sleep on. */
  datatype Addr = SemAt(s: nat) | LockAt(l: nat) | CvAt(c: nat)

  /** A call of one of the functions of synch.c. */
  datatype Op =
    | Idle
    | P(s: nat)
    | V(s: nat)
    | Acquire(l: nat)
    | Release(l: nat)
    | Wait(c: nat, l: nat)
    | Signal(c: nat, l: nat)
    | Broadcast(c: nat, l: nat)

  datatype Instr =
    | SplHigh
    | SplX
    | TakeCount(s: nat)     // while (count == 0) sleep; count--
    | AddCount(s: nat)
    | TakeOwner(l: nat)     // while (owner) sleep; owner = curthread
    | ClearOwner(l: nat)
    | WakeAll(a: Addr)
    | WakeOne(a: Addr)
    | GoToSleep(a: Addr)

  function Code(op: Op): seq<Instr> {
    match op
    case Idle => []
    case P(s) => [SplHigh, TakeCount(s), SplX]
    case V(s) => [SplHigh, AddCount(s), WakeAll(SemAt(s)), SplX]
    case Acquire(l) => [SplHigh, TakeOwner(l), SplX]
    case Release(l) => [SplHigh, ClearOwner(l), WakeAll(LockAt(l)), SplX]
    case Wait(c, l) =>
      [SplHigh, SplHigh, ClearOwner(l), WakeAll(LockAt(l)), SplX, GoToSleep(CvAt(c)), SplHigh, TakeOwner(l), SplX, SplX]
    case Signal(c, _) => [SplHigh, WakeOne(CvAt(c)), SplX]
    case Broadcast(c, _) => [SplHigh, WakeAll(CvAt(c)), SplX]
  }

  /** cv_wait runs the code of lock_release, sleeps, and runs the code of lock_acquire, all
      inside its own spl pair. */
  lemma WaitCode(c: nat, l: nat)
    ensures Code(Wait(c, l)) == [SplHigh] + Code(Release(l)) + [GoToSleep(CvAt(c))] + Code(Acquire(l)) + [SplX]
  {
  }

  datatype Where = Running | Ready | Asleep(a: Addr)

  /** A thread: the call it is in and how far, the saved spl levels, and whether it was
      preempted and still has to restore the spl. */
  datatype Thread = Thread(at: Where, op: Op, k: nat, saved: seq<nat>, yielded: bool)

  /** The whole system. `ps` and `vs` count the calls of P and V on each semaphore that have
      returned, `inside` holds (thread, lock) from the return of lock_acquire or cv_wait to the
      call of lock_release or cv_wait, and `waiting` holds (thread, cv) from the release inside
      cv_wait to the wakeup. */
  datatype State = State(cur: nat, spl: nat, th: map<nat, Thread>, count: map<nat, nat>, owner: map<nat, nat>,
                         ps: map<nat, nat>, vs: map<nat, nat>, inside: set<(nat, nat)>, waiting: set<(nat, nat)>)

  function Get(m: map<nat, nat>, i: nat): nat {
    if i in m then m[i] else 0
  }

  function OneMore(m: map<nat, nat>, i: nat): map<nat, nat> {
    m[i := Get(m, i) + 1]
  }

  datatype Event = Exec(pick: nat) | Call(op: Op) | Preempt | Dispatch(t: nat) | Fork(t: nat)

  // ---------------------------------------------------------------- the steps

  function WakeThreads(th: map<nat, Thread>, a: Addr): map<nat, Thread> {
    map t | t in th ::
      if th[t].at == Asleep(a) then Thread(Ready, th[t].op, th[t].k, th[t].saved, th[t].yielded) else th[t]
  }

  function WakeThread(th: map<nat, Thread>, t: nat): map<nat, Thread>
    requires t in th
  {
    th[t := Thread(Ready, th[t].op, th[t].k, th[t].saved, th[t].yielded)]
  }

  /** Thread `t` goes on to instruction `k` of its call. */
  function MovedTo(th: map<nat, Thread>, t: nat, k: nat): map<nat, Thread>
    requires t in th
  {
    th[t := Thread(th[t].at, th[t].op, k, th[t].saved, th[t].yielded)]
  }

  function PutToSleep(th: map<nat, Thread>, t: nat, k: nat, a: Addr): map<nat, Thread>
    requires t in th
  {
    th[t := Thread(Asleep(a), th[t].op, k, th[t].saved, th[t].yielded)]
  }

  function Awaken(waiting: set<(nat, nat)>, th: map<nat, Thread>, a: Addr): set<(nat, nat)> {
    set w | w in waiting && !(w.0 in th && th[w.0].at == Asleep(a))
  }

  /** A lock held when a call of `op` by `t` has returned. */
  function Entered(op: Op, t: nat): set<(nat, nat)> {
    match op
    case Acquire(l) => {(t, l)}
    case Wait(_, l) => {(t, l)}
    case _ => {}
  }

  /** A lock given up by the call of `op`. */
  function Leaving(op: Op, t: nat): set<(nat, nat)> {
    match op
    case Release(l) => {(t, l)}
    case Wait(_, l) => {(t, l)}
    case _ => {}
  }

  /** The current thread is inside a call and not about to return from a preemption. */
  predicate Busy(s: State) {
    s.cur in s.th && s.cur != 0 && !s.th[s.cur].yielded && s.th[s.cur].k < |Code(s.th[s.cur].op)|
  }

  /** The instruction the current thread is about to execute. */
  function Current(s: State): Instr
    requires Busy(s)
  {
    Code(s.th[s.cur].op)[s.th[s.cur].k]
  }

  function ExecHigh(s: State): State
    requires Busy(s)
  {
    var t, x := s.cur, s.th[s.cur];
    State(t, HIGH, s.th[t := Thread(x.at, x.op, x.k + 1, x.saved + [s.spl], false)], s.count, s.owner,
          s.ps, s.vs, s.inside, s.waiting)
  }

  function ExecX(s: State): State
    requires Busy(s) && s.th[s.cur].saved != []
  {
    var t, x := s.cur, s.th[s.cur];
    var n := |x.saved| - 1;
    if x.k + 1 == |Code(x.op)| then
      State(t, x.saved[n], s.th[t := Thread(x.at, Idle, 0, x.saved[..n], false)], s.count, s.owner,
            if x.op.P? then OneMore(s.ps, x.op.s) else s.ps, if x.op.V? then OneMore(s.vs, x.op.s) else s.vs,
            s.inside + Entered(x.op, t), s.waiting)
    else
      State(t, x.saved[n], s.th[t := Thread(x.at, x.op, x.k + 1, x.saved[..n], false)], s.count, s.owner,
            s.ps, s.vs, s.inside, s.waiting)
  }

  function ExecTakeCount(s: State, i: nat): State
    requires Busy(s)
  {
    var t, x := s.cur, s.th[s.cur];
    if Get(s.count, i) == 0 then
      State(0, s.spl, PutToSleep(s.th, t, x.k, SemAt(i)), s.count, s.owner, s.ps, s.vs, s.inside, s.waiting)
    else
      State(t, s.spl, MovedTo(s.th, t, x.k + 1), s.count[i := Get(s.count, i) - 1], s.owner,
            s.ps, s.vs, s.inside, s.waiting)
  }

  function ExecAddCount(s: State, i: nat): State
    requires Busy(s)
  {
    var t, x := s.cur, s.th[s.cur];
    State(t, s.spl, MovedTo(s.th, t, x.k + 1), OneMore(s.count, i), s.owner,
          s.ps, s.vs, s.inside, s.waiting)
  }

  function ExecTakeOwner(s: State, l: nat): State
    requires Busy(s)
  {
    var t, x := s.cur, s.th[s.cur];
    if Get(s.owner, l) != 0 then
      State(0, s.spl, PutToSleep(s.th, t, x.k, LockAt(l)), s.count, s.owner, s.ps, s.vs, s.inside, s.waiting)
    else
      State(t, s.spl, MovedTo(s.th, t, x.k + 1), s.count, s.owner[l := t], s.ps, s.vs, s.inside, s.waiting)
  }

  function ExecClearOwner(s: State, l: nat): State
    requires Busy(s)
  {
    var t, x := s.cur, s.th[s.cur];
    State(t, s.spl, MovedTo(s.th, t, x.k + 1), s.count, s.owner[l := 0], s.ps, s.vs, s.inside,
          if x.op.Wait? then s.waiting + {(t, x.op.c)} else s.waiting)
  }

  function ExecWakeAll(s: State, a: Addr): State
    requires Busy(s)
  {
    var t, x := s.cur, s.th[s.cur];
    State(t, s.spl, WakeThreads(MovedTo(s.th, t, x.k + 1), a), s.count, s.owner, s.ps, s.vs, s.inside,
          Awaken(s.waiting, s.th, a))
  }

  /** `pick` is the sleeper thread_wake_one takes, when there is one. */
  function ExecWakeOne(s: State, a: Addr, pick: nat): State
    requires Busy(s)
  {
    var t, x := s.cur, s.th[s.cur];
    var th := MovedTo(s.th, t, x.k + 1);
    if pick in th && th[pick].at == Asleep(a) then
      State(t, s.spl, WakeThread(th, pick), s.count, s.owner, s.ps, s.vs, s.inside,
            set w | w in s.waiting && w.0 != pick)
    else
      State(t, s.spl, th, s.count, s.owner, s.ps, s.vs, s.inside, s.waiting)
  }

  function ExecSleep(s: State, a: Addr): State
    requires Busy(s)
  {
    State(0, s.spl, PutToSleep(s.th, s.cur, s.th[s.cur].k + 1, a), s.count, s.owner, s.ps, s.vs, s.inside, s.waiting)
  }

  /** A sleeper is taken whenever there is one. */
  predicate FairPick(s: State, a: Addr, pick: nat) {
    (exists t :: t in s.th && s.th[t].at == Asleep(a)) ==> pick in s.th && s.th[pick].at == Asleep(a)
  }

  /** What synch.c asserts of its callers, and when the machine can move. */
  predicate Enabled(s: State, e: Event) {
    match e
    case Exec(pick) =>
      && s.cur in s.th && s.cur != 0 && (s.th[s.cur].yielded || s.th[s.cur].k < |Code(s.th[s.cur].op)|)
      && (Busy(s) && Current(s).WakeOne? ==> FairPick(s, Current(s).a, pick))
    case Call(op) =>
      && s.cur in s.th && s.cur != 0 && s.th[s.cur].op == Idle && !s.th[s.cur].yielded
      && (op.Acquire? ==> Get(s.owner, op.l) != s.cur)
      && (op.Release? || op.Wait? || op.Signal? || op.Broadcast? ==> Get(s.owner, op.l) == s.cur)
    case Preempt => s.cur in s.th && s.cur != 0 && s.spl == 0
    case Dispatch(t) => s.cur == 0 && t in s.th && t != 0 && s.th[t].at == Ready
    case Fork(t) => t != 0 && t !in s.th
  }

  function ExecNext(s: State, pick: nat): State
    requires Busy(s)
  {
    match Current(s)
    case SplHigh => ExecHigh(s)
    case SplX => if s.th[s.cur].saved == [] then s else ExecX(s)
    case TakeCount(i) => ExecTakeCount(s, i)
    case AddCount(i) => ExecAddCount(s, i)
    case TakeOwner(l) => ExecTakeOwner(s, l)
    case ClearOwner(l) => ExecClearOwner(s, l)
    case WakeAll(a) => ExecWakeAll(s, a)
    case WakeOne(a) => ExecWakeOne(s, a, pick)
    case GoToSleep(a) => ExecSleep(s, a)
  }

  /** The end of thread_yield, or the start of a new thread. */
  function Resumed(s: State): State
    requires s.cur in s.th && s.th[s.cur].saved != []
  {
    var t, x := s.cur, s.th[s.cur];
    var n := |x.saved| - 1;
    State(t, x.saved[n], s.th[t := Thread(x.at, x.op, x.k, x.saved[..n], false)], s.count, s.owner,
          s.ps, s.vs, s.inside, s.waiting)
  }

  function Next(s: State, e: Event): State
    requires Enabled(s, e)
  {
    match e
    case Exec(pick) =>
      if s.th[s.cur].yielded then (if s.th[s.cur].saved == [] then s else Resumed(s)) else ExecNext(s, pick)
    case Call(op) =>
      var x := s.th[s.cur];
      State(s.cur, s.spl, s.th[s.cur := Thread(x.at, op, 0, x.saved, false)], s.count, s.owner, s.ps, s.vs,
            s.inside - Leaving(op, s.cur), s.waiting)
    case Preempt =>
      var x := s.th[s.cur];
      State(0, HIGH, s.th[s.cur := Thread(Ready, x.op, x.k, x.saved + [s.spl], true)], s.count, s.owner, s.ps, s.vs,
            s.inside, s.waiting)
    case Dispatch(t) =>
      var x := s.th[t];
      State(t, s.spl, s.th[t := Thread(Running, x.op, x.k, x.saved, x.yielded)], s.count, s.owner, s.ps, s.vs,
            s.inside, s.waiting)
    case Fork(t) =>
      State(s.cur, s.spl, s.th[t := Thread(Ready, Idle, 0, [0], true)], s.count, s.owner, s.ps, s.vs, s.inside,
        s.waiting)
  }

  // ---------------------------------------------------------------- the invariant

  /** How many spl levels a call has saved before instruction `k`. */
  function Depth(op: Op, k: nat): nat {
    match op
    case Idle => 0
    case Wait(_, _) =>
      if k == 0 then 0 else if k == 1 then 1 else if k <= 4 then 2 else if k <= 6 then 1 else if k <= 8 then 2 else 1
    case _ => if k == 0 then 0 else 1
  }

  /** Where a thread may be ready without having been preempted: where it woke up. */
  predicate WakePoint(op: Op, k: nat) {
    match op
    case P(_) => k == 1
    case Acquire(_) => k == 1
    case Wait(_, _) => k == 6 || k == 7
    case _ => false
  }

  /** Where a thread sleeps, and on what. */
  predicate SleepPoint(op: Op, k: nat, a: Addr) {
    match op
    case P(i) => k == 1 && a == SemAt(i)
    case Acquire(l) => k == 1 && a == LockAt(l)
    case Wait(c, l) => (k == 6 && a == CvAt(c)) || (k == 7 && a == LockAt(l))
    case _ => false
  }

  /** At instruction `k` of the call the lock is still, or already, the thread's own. */
  predicate Owns(op: Op, k: nat, l: nat) {
    match op
    case Acquire(m) => m == l && k == 2
    case Release(m) => m == l && k <= 1
    case Wait(_, m) => m == l && (k <= 2 || k >= 8)
    case Signal(_, m) => m == l
    case Broadcast(_, m) => m == l
    case _ => false
  }

  /** The lock has been released inside cv_wait and the wakeup has not come. */
  predicate Pending(x: Thread, c: nat) {
    x.op.Wait? && x.op.c == c && (3 <= x.k <= 5 || (x.k == 6 && x.at.Asleep?))
  }

  predicate Levels(saved: seq<nat>) {
    forall i: nat :: i < |saved| ==> saved[i] == if i == 0 then 0 else HIGH
  }

  predicate PcOk(x: Thread) {
    && (if x.op == Idle then x.k == 0 else x.k < |Code(x.op)|)
    && |x.saved| == Depth(x.op, x.k) + (if x.yielded then 1 else 0) && Levels(x.saved)
    && (x.yielded ==> Depth(x.op, x.k) == 0)
    && (x.at == Ready ==> x.yielded || WakePoint(x.op, x.k))
    && (x.at.Asleep? ==> !x.yielded && SleepPoint(x.op, x.k, x.at.a))
  }

  predicate AboutTo(s: State, i: Instr) {
    Busy(s) && Current(s) == i
  }

  /** What a sleeper sleeps for is not there, unless the wakeup is the very next step. */
  predicate NotLost(s: State, a: Addr) {
    || AboutTo(s, WakeAll(a))
    || match a
       case SemAt(i) => Get(s.count, i) == 0
       case LockAt(l) => Get(s.owner, l) != 0
       case CvAt(_) => true
  }

  ghost predicate ThreadInv(s: State, t: nat)
    requires t in s.th
  {
    var x := s.th[t];
    && PcOk(x) && (x.at == Running <==> t == s.cur)
    && (t == s.cur ==> s.spl == if x.saved == [] then 0 else HIGH)
    && (forall l: nat :: Owns(x.op, x.k, l) ==> Get(s.owner, l) == t)
    && (x.at.Asleep? ==> NotLost(s, x.at.a))
  }

  ghost predicate Inv(s: State, init: map<nat, nat>) {
    && 0 !in s.th && (s.cur == 0 || s.cur in s.th) && (s.cur == 0 ==> s.spl == HIGH)
    && (forall t :: t in s.th ==> ThreadInv(s, t))
    && InsideInv(s) && WaitingInv(s) && Conserved(s, init)
  }

  /** A thread between lock_acquire and lock_release is the owner. */
  ghost predicate InsideInv(s: State) {
    forall t: nat, l: nat :: (t, l) in s.inside ==>
      t in s.th && Get(s.owner, l) == t && (t, l) !in Leaving(s.th[t].op, t)
  }

  ghost predicate WaitingInv(s: State) {
    forall t: nat, c: nat :: (t, c) in s.waiting <==> t in s.th && Pending(s.th[t], c)
  }

  /** What a call has done to the count of semaphore `i` before it returns: a P that is past its
      decrement has taken one, a V that is past its increment has given one. */
  function Flow(op: Op, k: nat, i: nat): int {
    if op == P(i) && k == 2 then 1 else if op == V(i) && k >= 2 then -1 else 0
  }

  function InFlight(s: State, i: nat): int {
    if s.cur in s.th then Flow(s.th[s.cur].op, s.th[s.cur].k, i) else 0
  }

  /** What the calls that returned and the one in flight took is what was there and was given. */
  ghost predicate Conserved(s: State, init: map<nat, nat>) {
    forall i: nat :: Get(s.count, i) + Get(s.ps, i) + InFlight(s, i) == Get(init, i) + Get(s.vs, i)
  }

  // ---------------------------------------------------------------- what the instructions are for

  /** What is owned at `m` was owned at `k`. */
  ghost predicate OwnsLess(op: Op, k: nat, m: nat) {
    forall l: nat :: Owns(op, m, l) ==> Owns(op, k, l)
  }

  ghost predicate OwnsNone(op: Op, k: nat) {
    forall l: nat :: !Owns(op, k, l)
  }

  ghost predicate NoFlow(op: Op, k: nat) {
    forall i: nat :: Flow(op, k, i) == 0
  }

  lemma AtIdle()
    ensures NoFlow(Idle, 0)
    ensures |Code(Idle)| == 0 && Depth(Idle, 0) == 0 && OwnsNone(Idle, 0) && forall t: nat :: Leaving(Idle, t) == {}
  {
  }

  /** A call begins outside every spl pair. */
  lemma AtStart(op: Op)
    requires op != Idle
    ensures |Code(op)| > 0 && Code(op)[0] == SplHigh && Depth(op, 0) == 0 && NoFlow(op, 0)
    ensures forall l: nat :: Owns(op, 0, l) <==> (op.Release? || op.Wait? || op.Signal? || op.Broadcast?) && op.l == l
  {
  }

  /** Outside every spl pair a call has not begun. */
  lemma AtBottom(op: Op, k: nat)
    requires k < |Code(op)| && Depth(op, k) == 0
    ensures k == 0 && Code(op)[k] == SplHigh && NoFlow(op, k)
  {
  }

  lemma AtHigh(op: Op, k: nat)
    requires k < |Code(op)| && Code(op)[k] == SplHigh
    ensures op != Idle && k + 1 < |Code(op)| && Depth(op, k + 1) == Depth(op, k) + 1 && OwnsLess(op, k, k + 1)
    ensures op.Wait? ==> k == 0 || k == 1 || k == 6
    ensures NoFlow(op, k) && NoFlow(op, k + 1)
  {
  }

  lemma AtX(op: Op, k: nat)
    requires k < |Code(op)| && Code(op)[k] == SplX
    ensures op != Idle && Depth(op, k) > 0
    ensures k + 1 < |Code(op)| ==> Depth(op, k + 1) == Depth(op, k) - 1 && OwnsLess(op, k, k + 1)
    ensures k + 1 == |Code(op)| ==> Depth(op, k) == 1
    ensures k + 1 == |Code(op)| ==>
      forall t: nat, u: nat, l: nat :: (u, l) in Entered(op, t) ==> u == t && Owns(op, k, l)
    ensures op.Wait? ==> k == 4 || k == 8 || k == 9
    ensures if op.P? then k == 2 else op.V? ==> k == 3
    ensures op.P? || op.V? ==> k + 1 == |Code(op)|
  {
  }

  lemma AtTake(op: Op, k: nat)
    requires k < |Code(op)| && (Code(op)[k].TakeCount? || Code(op)[k].TakeOwner?)
    ensures op != Idle && k + 1 < |Code(op)| && Depth(op, k) > 0 && Depth(op, k + 1) == Depth(op, k) && WakePoint(op, k)
    ensures Code(op)[k].TakeCount? ==> SleepPoint(op, k, SemAt(Code(op)[k].s)) && OwnsNone(op, k + 1)
    ensures Code(op)[k].TakeOwner? ==> SleepPoint(op, k, LockAt(Code(op)[k].l))
    ensures Code(op)[k].TakeOwner? ==> forall l: nat, m: nat :: m == k + 1 && Owns(op, m, l) ==> l == Code(op)[k].l
    ensures OwnsNone(op, k) && (op.Wait? ==> k == 7) && !op.V? && NoFlow(op, k)
    ensures Code(op)[k].TakeCount? ==> k == 1 && op == P(Code(op)[k].s)
    ensures Code(op)[k].TakeOwner? ==> !op.P?
  {
  }

  lemma AtAdd(op: Op, k: nat)
    requires k < |Code(op)| && Code(op)[k].AddCount?
    ensures op != Idle && k + 1 < |Code(op)| && Depth(op, k) > 0 && Depth(op, k + 1) == Depth(op, k)
    ensures Code(op)[k + 1] == WakeAll(SemAt(Code(op)[k].s)) && k == 1 && op == V(Code(op)[k].s) && OwnsNone(op, k + 1)
  {
  }

  lemma AtClear(op: Op, k: nat)
    requires k < |Code(op)| && Code(op)[k].ClearOwner?
    ensures op != Idle && k + 1 < |Code(op)| && Depth(op, k) > 0 && Depth(op, k + 1) == Depth(op, k)
    ensures Code(op)[k + 1] == WakeAll(LockAt(Code(op)[k].l)) && Owns(op, k, Code(op)[k].l) && OwnsNone(op, k + 1)
    ensures forall t: nat :: Leaving(op, t) == {(t, Code(op)[k].l)}
    ensures !op.P? && !op.V? && (op.Wait? ==> k == 2)
  {
  }

  lemma AtWake(op: Op, k: nat)
    requires k < |Code(op)| && (Code(op)[k].WakeAll? || Code(op)[k].WakeOne?)
    ensures op != Idle && k + 1 < |Code(op)| && Depth(op, k) > 0 && Depth(op, k + 1) == Depth(op, k) &&
      OwnsLess(op, k, k + 1)
    ensures op.Wait? ==> k == 3 && Code(op)[k].WakeAll? && Code(op)[k].a.LockAt?
    ensures Code(op)[k].WakeOne? ==> Code(op)[k].a.CvAt?
  {
  }

  /** A wakeup does not change what is in flight. */
  lemma WakeFlow(op: Op, k: nat)
    requires k < |Code(op)| && (Code(op)[k].WakeAll? || Code(op)[k].WakeOne?)
    ensures !op.P? && (op.V? ==> k == 2)
  {
  }

  lemma AtSleep(op: Op, k: nat)
    requires k < |Code(op)| && Code(op)[k].GoToSleep?
    ensures op != Idle && k + 1 < |Code(op)| && Depth(op, k) > 0 && Depth(op, k + 1) == Depth(op, k)
    ensures op.Wait? && k == 5 && SleepPoint(op, k + 1, Code(op)[k].a) && Code(op)[k].a == CvAt(op.c)
    ensures OwnsNone(op, k + 1)
  {
  }

  // ---------------------------------------------------------------- every step keeps the invariant

  /** A step of the current thread leaves the others as they are. */
  lemma OtherThread(s: State, s': State, t: nat)
    requires t in s.th && t in s'.th && s'.th[t] == s.th[t] && t != s.cur && t != s'.cur && ThreadInv(s, t)
    requires forall l: nat :: Get(s.owner, l) == t ==> Get(s'.owner, l) == t
    requires s.th[t].at.Asleep? && NotLost(s, s.th[t].at.a) ==> NotLost(s', s.th[t].at.a)
    ensures ThreadInv(s', t)
  {
    hide PcOk, NotLost, Get, Owns;
  }

  lemma StillNotLost(s: State, s': State, a: Addr)
    requires Busy(s) && !Current(s).WakeAll? && NotLost(s, a)
    requires forall i: nat :: Get(s.count, i) == 0 ==> Get(s'.count, i) == 0
    requires forall l: nat :: Get(s.owner, l) != 0 ==> Get(s'.owner, l) != 0
    ensures NotLost(s', a)
  {
    hide Code, Get;
  }

  lemma HighInv(s: State, init: map<nat, nat>)
    requires Inv(s, init) && Busy(s) && Current(s) == SplHigh
    ensures Inv(ExecHigh(s), init)
  {
    hide Code, Depth, Owns, SleepPoint, WakePoint, Get, Leaving;
    var s', x := ExecHigh(s), s.th[s.cur];
    AtHigh(x.op, x.k);
    assert ThreadInv(s, s.cur);
    forall t | t in s'.th
      ensures ThreadInv(s', t)
    {
      assert ThreadInv(s, t);
    }
  }

  lemma XMoreInv(s: State, init: map<nat, nat>)
    requires Inv(s, init) && Busy(s) && Current(s) == SplX && s.th[s.cur].k + 1 != |Code(s.th[s.cur].op)|
    ensures s.th[s.cur].saved != [] && Inv(ExecX(s), init)
  {
    hide Code, Depth, Owns, SleepPoint, WakePoint, Get, Leaving, Entered;
    var x := s.th[s.cur];
    assert ThreadInv(s, s.cur);
    AtX(x.op, x.k);
    var s' := ExecX(s);
    forall t | t in s'.th
      ensures ThreadInv(s', t)
    {
      assert ThreadInv(s, t);
    }
  }

  lemma XReturnInv(s: State, init: map<nat, nat>)
    requires Inv(s, init) && Busy(s) && Current(s) == SplX && s.th[s.cur].k + 1 == |Code(s.th[s.cur].op)|
    ensures s.th[s.cur].saved != [] && Inv(ExecX(s), init)
  {
    hide Code, Depth, Owns, SleepPoint, WakePoint, Get, Leaving, Entered;
    var x := s.th[s.cur];
    assert ThreadInv(s, s.cur);
    AtX(x.op, x.k);
    AtIdle();
    var s' := ExecX(s);
    forall t | t in s'.th
      ensures ThreadInv(s', t)
    {
      assert ThreadInv(s, t);
    }
    forall t: nat, l: nat | (t, l) in s'.inside
      ensures t in s'.th && Get(s'.owner, l) == t && (t, l) !in Leaving(s'.th[t].op, t)
    {
      if (t, l) !in s.inside { assert (t, l) in Entered(x.op, s.cur); }
    }
    assert WaitingInv(s') by { ReturnWaiting(s); }
    assert Conserved(s', init) by { ReturnConserved(s, init); }
  }

  lemma ReturnWaiting(s: State)
    requires WaitingInv(s) && Busy(s) && Current(s) == SplX && s.th[s.cur].saved != [] &&
      s.th[s.cur].k + 1 == |Code(s.th[s.cur].op)|
    ensures WaitingInv(ExecX(s))
  {
    AtX(s.th[s.cur].op, s.th[s.cur].k);
    hide Code, Entered;
  }

  lemma TakeCountInv(s: State, init: map<nat, nat>, i: nat)
    requires Inv(s, init) && Busy(s) && Current(s) == TakeCount(i)
    ensures Inv(ExecTakeCount(s, i), init)
  {
    hide Code, Depth, Owns, SleepPoint, WakePoint, Conserved, InsideInv, WaitingInv, ThreadInv;
    var s' := ExecTakeCount(s, i);
    assert ThreadInv(s', s.cur) by { TakeCountCur(s, init, i); }
    forall t | t in s'.th
      ensures ThreadInv(s', t)
    {
      if t != s.cur {
        if s.th[t].at.Asleep? && NotLost(s, s.th[t].at.a) { StillNotLost(s, s', s.th[t].at.a); }
        OtherThread(s, s', t);
      }
    }
    assert ThreadInv(s, s.cur);
    AtTake(s.th[s.cur].op, s.th[s.cur].k);
    TakeConserved(s, init, i);
    MovedRest(s, s');
    CurHigh(s, init);
  }

  /** Inside a spl pair the spl is high. */
  lemma CurHigh(s: State, init: map<nat, nat>)
    requires Inv(s, init) && Busy(s)
    ensures s.cur in s.th && s.cur != 0 && ThreadInv(s, s.cur)
    ensures Depth(s.th[s.cur].op, s.th[s.cur].k) > 0 ==> s.spl == HIGH
  {
    hide Depth, Code;
    assert ThreadInv(s, s.cur);
  }

  lemma TakeCountCur(s: State, init: map<nat, nat>, i: nat)
    requires Inv(s, init) && Busy(s) && Current(s) == TakeCount(i)
    ensures s.cur in ExecTakeCount(s, i).th && ThreadInv(ExecTakeCount(s, i), s.cur)
  {
    hide Code, Depth, Owns, SleepPoint, WakePoint, Conserved, InsideInv, WaitingInv;
    assert ThreadInv(s, s.cur);
    AtTake(s.th[s.cur].op, s.th[s.cur].k);
  }

  lemma TakeConserved(s: State, init: map<nat, nat>, i: nat)
    requires Conserved(s, init) && Busy(s) && s.th[s.cur].op == P(i) && s.th[s.cur].k == 1 && 0 !in s.th
    ensures Conserved(ExecTakeCount(s, i), init)
  {
    hide Code;
  }

  lemma AddConserved(s: State, init: map<nat, nat>, i: nat)
    requires Conserved(s, init) && Busy(s) && s.th[s.cur].op == V(i) && s.th[s.cur].k == 1
    ensures Conserved(ExecAddCount(s, i), init)
  {
    hide Code;
  }

  /** A call that returns is counted for what it did. */
  lemma ReturnConserved(s: State, init: map<nat, nat>)
    requires Conserved(s, init) && Busy(s) && s.th[s.cur].saved != [] && s.th[s.cur].k + 1 == |Code(s.th[s.cur].op)|
    requires if s.th[s.cur].op.P? then s.th[s.cur].k == 2 else s.th[s.cur].op.V? ==> s.th[s.cur].k == 3
    ensures Conserved(ExecX(s), init)
  {
    hide Code;
  }

  lemma SameConserved(s: State, s': State, init: map<nat, nat>)
    requires Conserved(s, init) && s'.count == s.count && s'.ps == s.ps && s'.vs == s.vs
    requires forall i: nat :: InFlight(s', i) == InFlight(s, i)
    ensures Conserved(s', init)
  {
    hide InFlight;
  }

  /** Nobody's place in cv_wait or between acquire and release changes. */
  lemma MovedRest(s: State, s': State)
    requires InsideInv(s) && WaitingInv(s) && s'.inside == s.inside && s'.waiting == s.waiting
    requires forall t :: t in s'.th <==> t in s.th
    requires forall t :: t in s.th ==> s'.th[t].op == s.th[t].op
    requires forall t :: t in s.th ==> s'.th[t] == s.th[t] || !s.th[t].op.Wait? || (s.th[t].k == 7 && s'.th[t].k >= 7)
    requires forall l: nat :: Get(s.owner, l) != 0 ==> Get(s'.owner, l) == Get(s.owner, l)
    requires 0 !in s.th
    ensures InsideInv(s') && WaitingInv(s')
  {
    hide Code, Get, Leaving;
  }

  lemma AddCountInv(s: State, init: map<nat, nat>, i: nat)
    requires Inv(s, init) && Busy(s) && Current(s) == AddCount(i)
    ensures Inv(ExecAddCount(s, i), init)
  {
    hide Code, Depth, Owns, SleepPoint, WakePoint, Leaving, Conserved, InsideInv, WaitingInv, Pending, Levels;
    var x, s' := s.th[s.cur], ExecAddCount(s, i);
    assert ThreadInv(s, s.cur);
    AtAdd(x.op, x.k);
    assert AboutTo(s', WakeAll(SemAt(i)));
    forall t | t in s'.th
      ensures ThreadInv(s', t)
    {
      assert ThreadInv(s, t);
    }
    assert Conserved(s', init) by { AddConserved(s, init, i); }
    MovedRest(s, s');
  }

  lemma TakeOwnerInv(s: State, init: map<nat, nat>, l: nat)
    requires Inv(s, init) && Busy(s) && Current(s) == TakeOwner(l)
    ensures Inv(ExecTakeOwner(s, l), init)
  {
    hide Code, Depth, Owns, SleepPoint, WakePoint, Conserved, InsideInv, WaitingInv, ThreadInv;
    var s' := ExecTakeOwner(s, l);
    assert ThreadInv(s', s.cur) by { TakeOwnerCur(s, init, l); }
    forall t | t in s'.th
      ensures ThreadInv(s', t)
    {
      if t != s.cur {
        if s.th[t].at.Asleep? && NotLost(s, s.th[t].at.a) { StillNotLost(s, s', s.th[t].at.a); }
        OtherThread(s, s', t);
      }
    }
    TakeOwnerRest(s, init, l);
  }

  lemma TakeOwnerRest(s: State, init: map<nat, nat>, l: nat)
    requires Inv(s, init) && Busy(s) && Current(s) == TakeOwner(l)
    ensures var s' := ExecTakeOwner(s, l);
      s.spl == HIGH && Conserved(s', init) && InsideInv(s') && WaitingInv(s')
  {
    hide Code, Depth, Conserved, InsideInv, WaitingInv, ThreadInv;
    var s' := ExecTakeOwner(s, l);
    CurHigh(s, init);
    AtTake(s.th[s.cur].op, s.th[s.cur].k);
    SameConserved(s, s', init);
    MovedRest(s, s');
  }

  lemma TakeOwnerCur(s: State, init: map<nat, nat>, l: nat)
    requires Inv(s, init) && Busy(s) && Current(s) == TakeOwner(l)
    ensures s.cur in ExecTakeOwner(s, l).th && ThreadInv(ExecTakeOwner(s, l), s.cur)
  {
    hide Code, Depth, Owns, SleepPoint, WakePoint, Conserved, InsideInv, WaitingInv;
    assert ThreadInv(s, s.cur);
    AtTake(s.th[s.cur].op, s.th[s.cur].k);
  }

  lemma ClearOwnerInv(s: State, init: map<nat, nat>, l: nat)
    requires Inv(s, init) && Busy(s) && Current(s) == ClearOwner(l)
    ensures Inv(ExecClearOwner(s, l), init)
  {
    hide Code, Depth, Owns, SleepPoint, WakePoint, Leaving;
    var x, s' := s.th[s.cur], ExecClearOwner(s, l);
    assert ThreadInv(s, s.cur);
    AtClear(x.op, x.k);
    assert AboutTo(s', WakeAll(LockAt(l)));
    forall t | t in s'.th
      ensures ThreadInv(s', t)
    {
      assert ThreadInv(s, t);
    }
  }

  lemma SleepThenWake(op: Op, k: nat, a: Addr)
    requires SleepPoint(op, k, a)
    ensures WakePoint(op, k) && (a.CvAt? <==> op.Wait? && k == 6) && (a.CvAt? ==> a.c == op.c)
  {
  }

  lemma WakeAllInv(s: State, init: map<nat, nat>, a: Addr)
    requires Inv(s, init) && Busy(s) && Current(s) == WakeAll(a)
    ensures Inv(ExecWakeAll(s, a), init)
  {
    hide Code, Depth, Owns, SleepPoint, WakePoint, Leaving, Conserved;
    var x, s' := s.th[s.cur], ExecWakeAll(s, a);
    assert ThreadInv(s, s.cur);
    AtWake(x.op, x.k);
    assert Conserved(s', init) by {
      WakeFlow(x.op, x.k);
      SameConserved(s, s', init);
    }
    forall t | t in s'.th
      ensures ThreadInv(s', t)
    {
      assert ThreadInv(s, t);
      if s.th[t].at == Asleep(a) { SleepThenWake(s.th[t].op, s.th[t].k, a); }
    }
    assert WaitingInv(s') by { WakeAllWaiting(s, init, a); }
  }

  lemma WakeAllWaiting(s: State, init: map<nat, nat>, a: Addr)
    requires Inv(s, init) && Busy(s) && Current(s) == WakeAll(a)
    ensures WaitingInv(ExecWakeAll(s, a))
  {
    hide Code, Depth, Owns, SleepPoint, WakePoint, Leaving, InsideInv, Conserved;
    var x, s' := s.th[s.cur], ExecWakeAll(s, a);
    assert ThreadInv(s, s.cur);
    AtWake(x.op, x.k);
    forall t: nat, c: nat
      ensures (t, c) in s'.waiting <==> t in s'.th && Pending(s'.th[t], c)
    {
      if t in s.th {
        assert ThreadInv(s, t);
        if s.th[t].at == Asleep(a) { SleepThenWake(s.th[t].op, s.th[t].k, a); }
      }
    }
  }

  lemma WakeOneInv(s: State, init: map<nat, nat>, a: Addr, pick: nat)
    requires Inv(s, init) && Busy(s) && Current(s) == WakeOne(a)
    ensures Inv(ExecWakeOne(s, a, pick), init)
  {
    hide Code, Depth, Owns, SleepPoint, WakePoint, Leaving, Conserved, InsideInv, WaitingInv, Pending, Get, ThreadInv;
    var s' := ExecWakeOne(s, a, pick);
    WakeOneCur(s, init, a, pick);
    if pick in s.th && s.th[pick].at == Asleep(a) { WakeOnePick(s, init, a, pick); }
    forall t | t in s'.th
      ensures ThreadInv(s', t)
    {
      if t != s.cur && !(t == pick && s.th[t].at == Asleep(a)) {
        if s.th[t].at.Asleep? && NotLost(s, s.th[t].at.a) { StillNotLost(s, s', s.th[t].at.a); }
        OtherThread(s, s', t);
      }
    }
    assert Conserved(s', init) by {
      WakeFlow(s.th[s.cur].op, s.th[s.cur].k);
      SameConserved(s, s', init);
    }
    WakeOneRest(s, init, a, pick);
  }

  lemma WakeOneCur(s: State, init: map<nat, nat>, a: Addr, pick: nat)
    requires Inv(s, init) && Busy(s) && Current(s) == WakeOne(a)
    ensures var s' := ExecWakeOne(s, a, pick); s.cur in s'.th && ThreadInv(s', s.cur)
  {
    hide Code, Depth, Owns, SleepPoint, WakePoint, Leaving, Conserved, InsideInv, WaitingInv, Pending, Get, Flow,
      InFlight;
    assert ThreadInv(s, s.cur);
    AtWake(s.th[s.cur].op, s.th[s.cur].k);
  }

  lemma WakeOnePick(s: State, init: map<nat, nat>, a: Addr, pick: nat)
    requires Inv(s, init) && Busy(s) && Current(s) == WakeOne(a) && pick in s.th && s.th[pick].at == Asleep(a)
    ensures var s' := ExecWakeOne(s, a, pick); pick in s'.th && ThreadInv(s', pick)
  {
    hide Code, Depth, Owns, SleepPoint, WakePoint, Leaving, Conserved, InsideInv, WaitingInv, Pending, Get, Flow,
      InFlight;
    assert ThreadInv(s, s.cur) && ThreadInv(s, pick);
    SleepThenWake(s.th[pick].op, s.th[pick].k, a);
  }

  /** `inside` only looks at calls and owners. */
  lemma SameInside(s: State, s': State)
    requires InsideInv(s) && s'.inside == s.inside && s'.owner == s.owner
    requires forall t :: t in s.th ==> t in s'.th && s'.th[t].op == s.th[t].op
    ensures InsideInv(s')
  {
    hide Get, Leaving;
  }

  lemma WakeOneRest(s: State, init: map<nat, nat>, a: Addr, pick: nat)
    requires Inv(s, init) && Busy(s) && Current(s) == WakeOne(a)
    ensures InsideInv(ExecWakeOne(s, a, pick)) && WaitingInv(ExecWakeOne(s, a, pick))
  {
    hide Code, Depth, Owns, OwnsLess, Get, Conserved, InsideInv, WaitingInv, ThreadInv;
    AtWake(s.th[s.cur].op, s.th[s.cur].k);
    var s' := ExecWakeOne(s, a, pick);
    SameInside(s, s');
    if pick in s.th && s.th[pick].at == Asleep(a) {
      assert ThreadInv(s, s.cur);
      NotAsleep(s);
      AsleepOnCv(s, init, pick);
      WakeOneWaiting(s, s', pick);
    } else {
      MovedRest(s, s');
    }
  }

  lemma WakeOneWaiting(s: State, s': State, pick: nat)
    requires WaitingInv(s) && pick in s.th && s.th[pick].op.Wait? && s.th[pick].k == 6 && s.th[pick].at.Asleep?
    requires pick in s'.th && s'.th[pick].op == s.th[pick].op && s'.th[pick].k == 6 && s'.th[pick].at == Ready
    requires forall t :: t in s'.th <==> t in s.th
    requires forall t :: t in s.th && t != pick ==>
      s'.th[t] == s.th[t] || (!s.th[t].op.Wait? && s'.th[t].op == s.th[t].op)
    requires s'.waiting == set w | w in s.waiting && w.0 != pick
    ensures WaitingInv(s')
  {
    forall t: nat, c: nat
      ensures (t, c) in s'.waiting <==> t in s'.th && Pending(s'.th[t], c)
    {
      assert (t, c) in s.waiting <==> t in s.th && Pending(s.th[t], c);
    }
  }

  lemma NotAsleep(s: State)
    requires s.cur in s.th && ThreadInv(s, s.cur)
    ensures !s.th[s.cur].at.Asleep?
  {
  }

  lemma AsleepOnCv(s: State, init: map<nat, nat>, t: nat)
    requires Inv(s, init) && t in s.th && s.th[t].at.Asleep? && s.th[t].at.a.CvAt?
    ensures s.th[t].op.Wait? && s.th[t].k == 6 && s.th[t].op.c == s.th[t].at.a.c
  {
    assert ThreadInv(s, t);
    SleepThenWake(s.th[t].op, s.th[t].k, s.th[t].at.a);
  }

  lemma SleepInv(s: State, init: map<nat, nat>, a: Addr)
    requires Inv(s, init) && Busy(s) && Current(s) == GoToSleep(a)
    ensures Inv(ExecSleep(s, a), init)
  {
    hide Code, Depth, Owns, SleepPoint, WakePoint, Leaving;
    var x, s' := s.th[s.cur], ExecSleep(s, a);
    assert ThreadInv(s, s.cur);
    AtSleep(x.op, x.k);
    forall t | t in s'.th
      ensures ThreadInv(s', t)
    {
      assert ThreadInv(s, t);
    }
  }

  lemma ExecInv(s: State, init: map<nat, nat>, pick: nat)
    requires Inv(s, init) && Busy(s)
    ensures Inv(ExecNext(s, pick), init)
  {
    hide Inv, ExecHigh, ExecX, ExecTakeCount, ExecAddCount, ExecTakeOwner, ExecClearOwner, ExecWakeAll, ExecWakeOne,
      ExecSleep;
    match Current(s) {
      case SplHigh => HighInv(s, init);
      case SplX => if s.th[s.cur].k + 1 == |Code(s.th[s.cur].op)| { XReturnInv(s, init); } else { XMoreInv(s, init); }
      case TakeCount(i) => TakeCountInv(s, init, i);
      case AddCount(i) => AddCountInv(s, init, i);
      case TakeOwner(l) => TakeOwnerInv(s, init, l);
      case ClearOwner(l) => ClearOwnerInv(s, init, l);
      case WakeAll(a) => WakeAllInv(s, init, a);
      case WakeOne(a) => WakeOneInv(s, init, a, pick);
      case GoToSleep(a) => SleepInv(s, init, a);
    }
  }

  lemma ResumeInv(s: State, init: map<nat, nat>)
    requires Inv(s, init) && s.cur in s.th && s.th[s.cur].yielded
    ensures s.th[s.cur].saved != [] && Inv(Resumed(s), init)
  {
    hide Code, Depth, Owns, SleepPoint, WakePoint, Leaving, Get;
    assert ThreadInv(s, s.cur);
    var s' := Resumed(s);
    forall t | t in s'.th
      ensures ThreadInv(s', t)
    {
      assert ThreadInv(s, t);
    }
  }

  lemma CallInv(s: State, init: map<nat, nat>, op: Op)
    requires Inv(s, init) && Enabled(s, Call(op))
    ensures Inv(Next(s, Call(op)), init)
  {
    hide Code, Depth, Owns, SleepPoint, WakePoint, Get, Levels;
    var s' := Next(s, Call(op));
    assert ThreadInv(s, s.cur);
    AtIdle();
    if op != Idle { AtStart(op); }
    forall t | t in s'.th
      ensures ThreadInv(s', t)
    {
      assert ThreadInv(s, t);
    }
  }

  lemma PreemptInv(s: State, init: map<nat, nat>)
    requires Inv(s, init) && Enabled(s, Preempt)
    ensures Inv(Next(s, Preempt), init)
  {
    hide Code, Depth, Owns, SleepPoint, WakePoint, Get, Leaving;
    var s', x := Next(s, Preempt), s.th[s.cur];
    assert ThreadInv(s, s.cur);
    if x.k < |Code(x.op)| { AtBottom(x.op, x.k); }
    forall t | t in s'.th
      ensures ThreadInv(s', t)
    {
      assert ThreadInv(s, t);
    }
    assert !Pending(x, 0);
  }

  lemma DispatchInv(s: State, init: map<nat, nat>, d: nat)
    requires Inv(s, init) && Enabled(s, Dispatch(d))
    ensures Inv(Next(s, Dispatch(d)), init)
  {
    hide Code, Depth, Owns, SleepPoint, Get, Leaving, Conserved, Flow;
    var s' := Next(s, Dispatch(d));
    assert ThreadInv(s, d);
    AtIdle();
    if !s.th[d].yielded {
      AtReady(s.th[d].op, s.th[d].k);
    } else if s.th[d].op != Idle {
      AtBottom(s.th[d].op, s.th[d].k);
    }
    SameConserved(s, s', init);
    forall t | t in s'.th
      ensures ThreadInv(s', t)
    {
      assert ThreadInv(s, t);
    }
  }

  lemma AtReady(op: Op, k: nat)
    requires WakePoint(op, k)
    ensures Depth(op, k) > 0 && NoFlow(op, k)
  {
  }

  lemma ForkInv(s: State, init: map<nat, nat>, d: nat)
    requires Inv(s, init) && Enabled(s, Fork(d))
    ensures Inv(Next(s, Fork(d)), init)
  {
    hide Code, Depth, Owns, SleepPoint, WakePoint, Get, Leaving, Conserved, Flow;
    var s' := Next(s, Fork(d));
    AtIdle();
    SameConserved(s, s', init);
    forall t | t in s'.th
      ensures ThreadInv(s', t)
    {
      if t != d { assert ThreadInv(s, t); }
    }
  }

  lemma NextInv(s: State, init: map<nat, nat>, e: Event)
    requires Inv(s, init) && Enabled(s, e)
    ensures Inv(Next(s, e), init)
  {
    hide Inv, ExecNext, Resumed, Code, Current;
    match e {
      case Exec(pick) => if s.th[s.cur].yielded { ResumeInv(s, init); } else { ExecInv(s, init, pick); }
      case Call(op) => CallInv(s, init, op);
      case Preempt => PreemptInv(s, init);
      case Dispatch(t) => DispatchInv(s, init, t);
      case Fork(t) => ForkInv(s, init, t);
    }
  }

  // ---------------------------------------------------------------- whole runs

  /** One thread is running with interrupts on, nobody holds a lock, and the semaphores have
      their initial counts. */
  predicate Begins(s: State, init: map<nat, nat>) {
    && s.cur != 0 && s.th == map[s.cur := Thread(Running, Idle, 0, [], false)] && s.spl == 0 && s.count == init
    && s.owner == map[] && s.ps == map[] && s.vs == map[] && s.inside == {} && s.waiting == {}
  }

  ghost predicate Runs(run: seq<State>, events: seq<Event>) {
    && |run| == |events| + 1
    && forall k: nat :: k < |events| ==> Enabled(run[k], events[k]) && run[k + 1] == Next(run[k], events[k])
  }

  lemma BeginsInv(s: State, init: map<nat, nat>)
    requires Begins(s, init)
    ensures Inv(s, init)
  {
    AtIdle();
    assert ThreadInv(s, s.cur);
  }

  lemma {:induction false} RunInv(run: seq<State>, events: seq<Event>, init: map<nat, nat>, k: nat)
    requires Runs(run, events) && Begins(run[0], init) && k < |run|
    ensures Inv(run[k], init)
  {
    hide Inv, Enabled, Next;
    if k == 0 {
      BeginsInv(run[0], init);
    } else {
      RunInv(run, events, init, k - 1);
      assert Enabled(run[k - 1], events[k - 1]) && run[k - 1 + 1] == Next(run[k - 1], events[k - 1]);
      NextInv(run[k - 1], init, events[k - 1]);
    }
  }

  /** No wakeup is lost: whenever interrupts are on, or the current thread is anywhere but at
      the wakeup itself, a semaphore with a positive count has no sleepers and neither has a
      lock without an owner. */
  lemma NoLostWakeup(run: seq<State>, events: seq<Event>, init: map<nat, nat>, k: nat, t: nat)
    requires Runs(run, events) && Begins(run[0], init) && k < |run|
    requires t in run[k].th && run[k].th[t].at.Asleep?
    ensures var s, a := run[k], run[k].th[t].at.a;
      AboutTo(s, WakeAll(a)) || match a
        case SemAt(i) => Get(s.count, i) == 0
        case LockAt(l) => Get(s.owner, l) != 0
        case CvAt(_) => true
    ensures run[k].spl == 0 ==> !AboutTo(run[k], WakeAll(run[k].th[t].at.a))
  {
    RunInv(run, events, init, k);
    var s := run[k];
    assert ThreadInv(s, t);
    if s.spl == 0 && Busy(s) {
      assert ThreadInv(s, s.cur);
      hide Code, Depth;
      AtBottom(s.th[s.cur].op, s.th[s.cur].k);
    }
  }

  /** At most one thread is between acquiring and releasing a lock. */
  lemma MutualExclusion(run: seq<State>, events: seq<Event>, init: map<nat, nat>, k: nat, t: nat, u: nat, l: nat)
    requires Runs(run, events) && Begins(run[0], init) && k < |run| && (t, l) in run[k].inside &&
      (u, l) in run[k].inside
    ensures t == u && Get(run[k].owner, l) == t
  {
    hide ThreadInv, WaitingInv, Conserved;
    RunInv(run, events, init, k);
  }

  /** The calls of P on a semaphore that have taken their unit and not returned. */
  ghost function Takers(s: State, i: nat): set<nat> {
    set t | t in s.th && s.th[t].op == P(i) && s.th[t].k == 2
  }

  /** The calls of V that have given their unit and not returned. */
  ghost function Givers(s: State, i: nat): set<nat> {
    set t | t in s.th && s.th[t].op == V(i) && s.th[t].k >= 2
  }

  /** Counts are conserved: what is left, what returned P have taken and what is being taken is
      what was there, what returned V have given and what is being given. At most one such call
      is under way, and none while interrupts are on. */
  lemma Conservation(run: seq<State>, events: seq<Event>, init: map<nat, nat>, k: nat, i: nat)
    requires Runs(run, events) && Begins(run[0], init) && k < |run|
    ensures var s := run[k];
      && Get(s.count, i) + Get(s.ps, i) + |Takers(s, i)| == Get(init, i) + Get(s.vs, i) + |Givers(s, i)|
      && |Takers(s, i)| + |Givers(s, i)| <= 1
      && (s.spl == 0 ==> Get(s.count, i) + Get(s.ps, i) == Get(init, i) + Get(s.vs, i))
  {
    hide Code, Depth, Runs, Begins;
    RunInv(run, events, init, k);
    var s := run[k];
    InFlightSets(s, init, i);
  }

  /** Past its decrement or increment a call cannot be preempted, so it is the current one. */
  lemma InFlightSets(s: State, init: map<nat, nat>, i: nat)
    requires Inv(s, init)
    ensures Takers(s, i) == (if InFlight(s, i) == 1 then {s.cur} else {})
    ensures Givers(s, i) == (if InFlight(s, i) == -1 then {s.cur} else {})
    ensures -1 <= InFlight(s, i) <= 1 && (s.spl == 0 ==> InFlight(s, i) == 0)
  {
    forall t | t in Takers(s, i) + Givers(s, i)
      ensures t == s.cur && s.spl == HIGH
    {
      assert ThreadInv(s, t);
    }
    if s.cur in s.th { assert ThreadInv(s, s.cur); }
  }

  /** Releasing the lock and going to sleep in cv_wait is one step to everybody else: any
      thread but the current one that has released and has not been woken is asleep. */
  lemma ReleaseAndSleep(run: seq<State>, events: seq<Event>, init: map<nat, nat>, k: nat, t: nat, c: nat)
    requires Runs(run, events) && Begins(run[0], init) && k < |run| && (t, c) in run[k].waiting && t != run[k].cur
    ensures t in run[k].th && run[k].th[t].at == Asleep(CvAt(c))
  {
    RunInv(run, events, init, k);
    assert ThreadInv(run[k], t);
  }

  /** A signal sent while some thread waits wakes exactly one of the waiting threads. */
  lemma SignalReaches(run: seq<State>, events: seq<Event>, init: map<nat, nat>, k: nat, c: nat, pick: nat)
    requires Runs(run, events) && Begins(run[0], init) && k < |events| && events[k] == Exec(pick)
    requires AboutTo(run[k], WakeOne(CvAt(c))) && exists t: nat :: (t, c) in run[k].waiting
    ensures (pick, c) in run[k].waiting && run[k + 1].waiting == run[k].waiting - {(pick, c)}
    ensures pick in run[k + 1].th && run[k + 1].th[pick].at == Ready
  {
    hide Inv, ExecHigh, ExecX, ExecTakeCount, ExecAddCount, ExecTakeOwner, ExecClearOwner, ExecWakeAll, ExecSleep;
    RunInv(run, events, init, k);
    var s := run[k];
    assert Enabled(s, events[k]) && run[k + 1] == Next(s, events[k]);
    var t: nat :| (t, c) in s.waiting;
    assert t != s.cur by { SignallerNotWaiting(s, init, c, t); }
    ReleaseAndSleep(run, events, init, k, t, c);
    assert pick in s.th && s.th[pick].at == Asleep(CvAt(c));
    OnlyOn(s, init, pick, c);
  }

  lemma SignallerNotWaiting(s: State, init: map<nat, nat>, c: nat, t: nat)
    requires Inv(s, init) && Busy(s) && (Current(s) == WakeOne(CvAt(c)) || Current(s) == WakeAll(CvAt(c))) &&
      (t, c) in s.waiting
    ensures t != s.cur
  {
    hide ThreadInv, InsideInv, Conserved;
    if t == s.cur { AtWake(s.th[t].op, s.th[t].k); }
  }

  /** A thread asleep on a condition variable waits for that one and no other. */
  lemma OnlyOn(s: State, init: map<nat, nat>, t: nat, c: nat)
    requires Inv(s, init) && t in s.th && s.th[t].at == Asleep(CvAt(c))
    ensures (t, c) in s.waiting && forall d: nat :: (t, d) in s.waiting ==> d == c
  {
    hide InsideInv, Conserved;
    AsleepOnCv(s, init, t);
  }

  /** A broadcast wakes all of them. */
  lemma BroadcastReaches(run: seq<State>, events: seq<Event>, init: map<nat, nat>, k: nat, c: nat, pick: nat, t: nat)
    requires Runs(run, events) && Begins(run[0], init) && k < |events| && events[k] == Exec(pick)
    requires AboutTo(run[k], WakeAll(CvAt(c))) && (t, c) in run[k].waiting
    ensures (t, c) !in run[k + 1].waiting && t in run[k + 1].th && run[k + 1].th[t].at == Ready
  {
    hide Inv, ExecHigh, ExecX, ExecTakeCount, ExecAddCount, ExecTakeOwner, ExecClearOwner, ExecWakeOne, ExecSleep;
    RunInv(run, events, init, k);
    var s := run[k];
    assert Enabled(s, events[k]) && run[k + 1] == Next(s, events[k]);
    SignallerNotWaiting(s, init, c, t);
    ReleaseAndSleep(run, events, init, k, t, c);
  }

  // ---------------------------------------------------------------- whole calls

  /** Thread `t` executes its next instruction in this step. */
  predicate Executes(s: State, e: Event, t: nat) {
    e.Exec? && s.cur == t && Busy(s)
  }

  /** From state `a` on, and before state `b`, thread `t` is in a call that began at `a` and has
      returned at `b`. */
  ghost predicate CallSpan(run: seq<State>, t: nat, op: Op, a: nat, b: nat) {
    && a < b < |run| && (forall j: nat :: a <= j <= b ==> t in run[j].th)
    && run[a].th[t].op == op && run[a].th[t].k == 0 && run[b].th[t].op == Idle
    && forall j: nat :: a <= j < b ==> run[j].th[t].op == op
  }

  /** A thread moves inside cv_signal or cv_broadcast only by executing instructions, one after
      the other. */
  lemma OwnStep(s: State, init: map<nat, nat>, e: Event, t: nat)
    requires Inv(s, init) && Enabled(s, e) && t in s.th && (s.th[t].op.Signal? || s.th[t].op.Broadcast?)
    ensures t in Next(s, e).th
    ensures var x, y := s.th[t], Next(s, e).th[t];
      if Executes(s, e, t) then if x.k + 1 < |Code(x.op)| then y.op == x.op && y.k == x.k + 1 else y.op == Idle
      else y.op == x.op && y.k == x.k
  {
    hide Inv, Code, Current, ExecNext;
    if e.Exec? && Busy(s) {
      OtherStep(s, e.pick);
      if t == s.cur { CurrentStep(s, init, e.pick); }
    }
  }

  /** The calls of the other threads, and where they are in them, stay as they are. */
  ghost predicate OthersStay(s: State, th: map<nat, Thread>) {
    forall t :: t in s.th && t != s.cur ==> t in th && th[t].op == s.th[t].op && th[t].k == s.th[t].k
  }

  lemma OthersPut(s: State, y: Thread)
    ensures OthersStay(s, s.th[s.cur := y])
  {
  }

  lemma OthersWoken(s: State, y: Thread, a: Addr)
    ensures OthersStay(s, WakeThreads(s.th[s.cur := y], a))
  {
  }

  lemma OthersPicked(s: State, y: Thread, pick: nat)
    requires pick in s.th[s.cur := y]
    ensures OthersStay(s, WakeThread(s.th[s.cur := y], pick))
  {
  }

  lemma OtherStep(s: State, pick: nat)
    requires Busy(s)
    ensures OthersStay(s, ExecNext(s, pick).th)
  {
    hide OthersStay, Code, Get, Entered, Awaken, WakeThreads, WakeThread, ExecTakeCount, ExecTakeOwner, ExecWakeOne;
    var s', t := ExecNext(s, pick), s.cur;
    match Current(s) {
      case WakeAll(a) => OthersWoken(s, MovedTo(s.th, t, s.th[t].k + 1)[t], a);
      case WakeOne(a) => OtherSignal(s, a, pick);
      case TakeCount(i) => OtherTake(s, i, 0);
      case TakeOwner(l) => OtherTake(s, 0, l);
      case _ =>
        assert s'.th == s.th[t := s'.th[t]];
        OthersPut(s, s'.th[t]);
    }
  }

  lemma OtherSignal(s: State, a: Addr, pick: nat)
    requires Busy(s)
    ensures OthersStay(s, ExecWakeOne(s, a, pick).th)
  {
    hide OthersStay, Code, WakeThread;
    var th := MovedTo(s.th, s.cur, s.th[s.cur].k + 1);
    OthersPut(s, th[s.cur]);
    if pick in th && th[pick].at == Asleep(a) { OthersPicked(s, th[s.cur], pick); }
  }

  lemma OtherTake(s: State, i: nat, l: nat)
    requires Busy(s)
    ensures OthersStay(s, ExecTakeCount(s, i).th) && OthersStay(s, ExecTakeOwner(s, l).th)
  {
    hide OthersStay, Code, Get;
    OthersPut(s, ExecTakeCount(s, i).th[s.cur]);
    OthersPut(s, ExecTakeOwner(s, l).th[s.cur]);
  }

  /** A thread in cv_signal or cv_broadcast executes one instruction after the other. */
  lemma CurrentStep(s: State, init: map<nat, nat>, pick: nat)
    requires Inv(s, init) && Busy(s) && (s.th[s.cur].op.Signal? || s.th[s.cur].op.Broadcast?)
    ensures s.cur in ExecNext(s, pick).th
    ensures var x, y := s.th[s.cur], ExecNext(s, pick).th[s.cur];
      if x.k + 1 < |Code(x.op)| then y.op == x.op && y.k == x.k + 1 else y.op == Idle
  {
    CurrentThere(s, init);
    var x := s.th[s.cur];
    if Current(s) == SplX {
      hide Inv, Code, Entered;
    } else {
      OnlyXLast(x.op, x.k);
      assert Current(s) == SplHigh || Current(s).WakeOne? || Current(s).WakeAll?;
      hide Inv, Code;
      match Current(s) {
        case WakeOne(a) => SignalStep(s, a, pick);
        case WakeAll(a) => BroadcastStep(s, a);
        case _ =>
      }
    }
  }

  lemma SignalStep(s: State, a: Addr, pick: nat)
    requires Busy(s) && s.th[s.cur].at == Running
    ensures var th := ExecWakeOne(s, a, pick).th;
      s.cur in th && th[s.cur].op == s.th[s.cur].op && th[s.cur].k == s.th[s.cur].k + 1
  {
    hide Code;
  }

  lemma BroadcastStep(s: State, a: Addr)
    requires Busy(s) && s.th[s.cur].at == Running
    ensures var th := ExecWakeAll(s, a).th;
      s.cur in th && th[s.cur].op == s.th[s.cur].op && th[s.cur].k == s.th[s.cur].k + 1
  {
    hide Code, Awaken;
  }

  lemma CurrentThere(s: State, init: map<nat, nat>)
    requires Inv(s, init) && Busy(s)
    ensures s.th[s.cur].at == Running && (Current(s) == SplX ==> s.th[s.cur].saved != [])
  {
    hide Code, Depth, Owns, NotLost, InsideInv, WaitingInv, Conserved;
    assert ThreadInv(s, s.cur);
    if Current(s) == SplX { SavedThere(s.th[s.cur].op, s.th[s.cur].k, s.th[s.cur]); }
  }

  /** Every call ends with the restoration of the spl. */
  lemma OnlyXLast(op: Op, k: nat)
    requires k < |Code(op)| && Code(op)[k] != SplX
    ensures k + 1 < |Code(op)|
  {
  }

  lemma SavedThere(op: Op, k: nat, x: Thread)
    requires k < |Code(op)| && Code(op)[k] == SplX && PcOk(x) && x.op == op && x.k == k
    ensures x.saved != []
  {
    AtX(op, k);
  }

  /** In state `s` thread `t` has only the restoration of the spl left of its call. */
  predicate AtEnd(s: State, t: nat, op: Op, waiting: set<(nat, nat)>) {
    s.cur == t && t in s.th && s.th[t].op == op && s.th[t].k == 2 && s.waiting == waiting
  }

  /** Nothing comes between the wakeup and the return. */
  lemma EndStep(s: State, init: map<nat, nat>, e: Event, t: nat, op: Op)
    requires Inv(s, init) && Enabled(s, e) && t != 0 && AtEnd(s, t, op, s.waiting) && (op.Signal? || op.Broadcast?)
    ensures t in Next(s, e).th && Next(s, e).waiting == s.waiting
    ensures Next(s, e).th[t].op == Idle || AtEnd(Next(s, e), t, op, s.waiting)
  {
    OwnStep(s, init, e, t);
    assert ThreadInv(s, t);
    assert Code(op)[2] == SplX && |Code(op)| == 3 && Depth(op, 2) == 1;
    hide InsideInv, WaitingInv, Conserved, Owns, NotLost, Entered, Code, Depth;
  }

  /** Before it, the thread's own steps change nobody's waiting. */
  lemma EarlyStep(s: State, init: map<nat, nat>, e: Event, t: nat, op: Op)
    requires Inv(s, init) && Enabled(s, e) && t in s.th && s.th[t].op == op && s.th[t].k != 1 && Executes(s, e, t)
    requires op.Signal? || op.Broadcast?
    ensures Next(s, e).waiting == s.waiting
  {
    CurrentThere(s, init);
    hide Inv, Entered;
  }

  /** The step of a call of cv_signal or cv_broadcast in which it wakes. */
  lemma WakeupOf(run: seq<State>, events: seq<Event>, init: map<nat, nat>, t: nat, op: Op, a: nat, b: nat)
    returns (m: nat)
    requires Runs(run, events) && Begins(run[0], init) && CallSpan(run, t, op, a, b) && (op.Signal? || op.Broadcast?)
    ensures a <= m < b && run[m].th[t].k == 1 && Executes(run[m], events[m], t)
    ensures forall j: nat :: a <= j < b && j != m && Executes(run[j], events[j], t) ==>
      run[j + 1].waiting == run[j].waiting
    ensures run[b].waiting == run[m + 1].waiting
  {
    hide Inv, Enabled, Next, Code, Begins, Executes;
    m := a;
    while !(run[m].th[t].k == 1 && Executes(run[m], events[m], t))
      invariant a <= m < b && run[m].th[t].k <= 1
      invariant forall j: nat :: a <= j < m && Executes(run[j], events[j], t) ==> run[j + 1].waiting == run[j].waiting
      decreases b - m
    {
      StepOf(run, events, init, m);
      OwnStep(run[m], init, events[m], t);
      CodeLength(op);
      if Executes(run[m], events[m], t) { EarlyStep(run[m], init, events[m], t, op); }
      m := m + 1;
    }
    AfterWakeup(run, events, init, t, op, a, b, m);
  }

  lemma CodeLength(op: Op)
    requires op.Signal? || op.Broadcast?
    ensures |Code(op)| == 3
  {
  }

  lemma StepOf(run: seq<State>, events: seq<Event>, init: map<nat, nat>, j: nat)
    requires Runs(run, events) && Begins(run[0], init) && j < |events|
    ensures Inv(run[j], init) && Enabled(run[j], events[j]) && run[j + 1] == Next(run[j], events[j])
  {
    RunInv(run, events, init, j);
  }

  lemma AfterWakeup(run: seq<State>, events: seq<Event>, init: map<nat, nat>, t: nat, op: Op, a: nat, b: nat, m: nat)
    requires Runs(run, events) && Begins(run[0], init) && CallSpan(run, t, op, a, b) && (op.Signal? || op.Broadcast?)
    requires a <= m < b && run[m].th[t].k == 1 && Executes(run[m], events[m], t)
    ensures forall j: nat :: m < j < b && Executes(run[j], events[j], t) ==> run[j + 1].waiting == run[j].waiting
    ensures run[b].waiting == run[m + 1].waiting
  {
    hide Inv, Enabled, Next, Code, Begins;
    StepOf(run, events, init, m);
    OwnStep(run[m], init, events[m], t);
    CodeLength(op);
    WakesInPlace(run[m], init, events[m], t, op);
    var w, n := run[m + 1].waiting, m + 1;
    while n < b
      invariant m < n <= b && run[n].waiting == w && (n < b ==> AtEnd(run[n], t, op, w))
      invariant forall j: nat :: m < j < n ==> run[j + 1].waiting == run[j].waiting
    {
      StepOf(run, events, init, n);
      EndStep(run[n], init, events[n], t, op);
      n := n + 1;
    }
  }

  lemma WakesInPlace(s: State, init: map<nat, nat>, e: Event, t: nat, op: Op)
    requires Inv(s, init) && Enabled(s, e) && Executes(s, e, t) && s.th[t].op == op && s.th[t].k == 1
    requires op.Signal? || op.Broadcast?
    ensures Next(s, e).cur == t
  {
    hide Inv, Awaken, WakeThreads, WakeThread;
  }

  /** Over a whole call of cv_signal the caller wakes exactly one thread that waits on the
      condition variable, if there is one, and changes nobody else's waiting. */
  lemma SignalCall(run: seq<State>, events: seq<Event>, init: map<nat, nat>, t: nat, c: nat, l: nat, a: nat, b: nat)
    returns (m: nat)
    requires Runs(run, events) && Begins(run[0], init) && CallSpan(run, t, Signal(c, l), a, b)
    ensures a <= m < b && Executes(run[m], events[m], t) && run[b].waiting == run[m + 1].waiting
    ensures forall j: nat :: a <= j < b && j != m && Executes(run[j], events[j], t) ==>
      run[j + 1].waiting == run[j].waiting
    ensures if exists u: nat :: (u, c) in run[m].waiting
      then exists u: nat :: (u, c) in run[m].waiting && run[m + 1].waiting == run[m].waiting - {(u, c)}
                            && u in run[m + 1].th && run[m + 1].th[u].at == Ready
      else run[m + 1].waiting == run[m].waiting
  {
    hide Inv, Enabled, Next, Begins;
    m := WakeupOf(run, events, init, t, Signal(c, l), a, b);
    var pick := events[m].pick;
    if exists u: nat :: (u, c) in run[m].waiting {
      SignalReaches(run, events, init, m, c, pick);
    } else {
      StepOf(run, events, init, m);
      NobodyWaits(run[m], init, c, pick);
    }
  }

  lemma NobodyWaits(s: State, init: map<nat, nat>, c: nat, pick: nat)
    requires Inv(s, init) && Enabled(s, Exec(pick)) && AboutTo(s, WakeOne(CvAt(c)))
    requires forall u: nat :: (u, c) !in s.waiting
    ensures Next(s, Exec(pick)).waiting == s.waiting
  {
    if pick in s.th && s.th[pick].at == Asleep(CvAt(c)) { OnlyOn(s, init, pick, c); }
    CurrentThere(s, init);
    hide Inv, Code;
  }

  /** When a call of cv_broadcast returns, nobody waits on the condition variable; the threads
      that wait on others still do. */
  lemma BroadcastCall(run: seq<State>, events: seq<Event>, init: map<nat, nat>, t: nat, c: nat, l: nat, a: nat, b: nat)
    returns (m: nat)
    requires Runs(run, events) && Begins(run[0], init) && CallSpan(run, t, Broadcast(c, l), a, b)
    ensures a <= m < b && Executes(run[m], events[m], t)
    ensures forall j: nat :: a <= j < b && j != m && Executes(run[j], events[j], t) ==>
      run[j + 1].waiting == run[j].waiting
    ensures forall u: nat, d: nat :: (u, d) in run[b].waiting <==> (u, d) in run[m].waiting && d != c
    ensures forall u: nat :: (u, c) in run[m].waiting ==> u in run[m + 1].th && run[m + 1].th[u].at == Ready
  {
    hide Inv, Enabled, Next, Begins;
    m := WakeupOf(run, events, init, t, Broadcast(c, l), a, b);
    var pick := events[m].pick;
    forall u: nat | (u, c) in run[m].waiting
      ensures (u, c) !in run[m + 1].waiting && u in run[m + 1].th && run[m + 1].th[u].at == Ready
    {
      BroadcastReaches(run, events, init, m, c, pick, u);
    }
    StepOf(run, events, init, m);
    OthersWait(run[m], init, c, pick);
  }

  lemma OthersWait(s: State, init: map<nat, nat>, c: nat, pick: nat)
    requires Inv(s, init) && Enabled(s, Exec(pick)) && AboutTo(s, WakeAll(CvAt(c)))
    ensures forall u: nat, d: nat :: d != c ==> ((u, d) in Next(s, Exec(pick)).waiting <==> (u, d) in s.waiting)
    ensures forall u: nat :: (u, c) in Next(s, Exec(pick)).waiting ==> (u, c) in s.waiting
  {
    forall u: nat, d: nat | (u, d) in s.waiting && u in s.th && s.th[u].at == Asleep(CvAt(c))
      ensures d == c
    {
      OnlyOn(s, init, u, c);
    }
    hide Inv, Code, WakeThreads;
  }
}
