/** The cat and mouse turn protocol: src/kern/asst1/catlock.c, as a state machine whose
    steps are the regions run under the lock. Any number of cats and mice, any turn
    length and any number of dishes not below it. */
module CatMouse {
  datatype Kind = Cat | Mouse

  function Other(k: Kind): Kind { if k == Cat then Mouse else Cat }

  /** Where an animal stands: not arrived; waiting for a turn in cv_wait, or woken from it;
      admitted and waiting for a dish, or woken from that; eating; done. */
  datatype Place = Away | Asleep | Awake | DishAsleep | DishAwake | Eating(dish: nat) | Done

  datatype Turn = NoTurn | Of(kind: Kind)

  /** The counters of one kind. */
  datatype Side = Side(waiting: int, admitted: int, left: int, done: int)

  /** `dishes[d]` is the kind eating there, as the array of codes in the source. */
  datatype State = State(place: seq<Place>, turn: Turn, cats: Side, mice: Side, dishes: seq<Turn>)
  {
    function Counts(k: Kind): Side { if k == Cat then cats else mice }
    function With(k: Kind, s: Side): State {
      if k == Cat then State(place, turn, s, mice, dishes) else State(place, turn, cats, s, dishes)
    }
    function Put(i: nat, p: Place): State
      requires i < |place|
    {
      State(place[i := p], turn, cats, mice, dishes)
    }
  }

  /** The animals, TURN_COUNT and NFOODBOWLS. */
  datatype Setting = Setting(kinds: seq<Kind>, turnCount: nat, bowls: nat)
  {
    predicate Valid() { 1 <= turnCount <= bowls }
  }

  function Init(c: Setting): State {
    State(seq(|c.kinds|, _ => Away), NoTurn, Side(0, 0, 0, 0), Side(0, 0, 0, 0), seq(c.bowls, _ => NoTurn))
  }

  // ---------------------------------------------------------------- the locked regions

  /** get_empty_dish: the first empty dish, or the number of dishes if there is none. */
  function FirstEmpty(dishes: seq<Turn>): (d: nat)
    ensures d <= |dishes|
    ensures d < |dishes| ==> dishes[d] == NoTurn
  {
    if dishes == [] || dishes[0] == NoTurn then 0 else 1 + FirstEmpty(dishes[1..])
  }

  /** The end of petition_guardian: take a dish, or wait for one. */
  function TakeDish(c: Setting, s: State, i: nat): State
    requires i < |s.place| == |c.kinds|
  {
    var d := FirstEmpty(s.dishes);
    if d == |s.dishes| then s.Put(i, DishAsleep)
    else State(s.place[i := Eating(d)], s.turn, s.cats, s.mice, s.dishes[d := Of(c.kinds[i])])
  }

  /** cat_turn_logic and mouse_turn_logic from the test of the loop on: sleep, or be admitted. */
  function TryEnter(c: Setting, s: State, i: nat): State
    requires i < |s.place| == |c.kinds|
  {
    var k := c.kinds[i];
    var a := s.Counts(k);
    if s.turn != Of(k) || a.admitted >= c.turnCount then s.Put(i, Asleep)
    else TakeDish(c, s.With(k, Side(a.waiting - 1, a.admitted + 1, a.left, a.done)), i)
  }

  /** petition_guardian up to the first wait. */
  function Arrive(c: Setting, s: State, i: nat): State
    requires i < |s.place| == |c.kinds|
  {
    var k := c.kinds[i];
    var s1 := if s.turn == NoTurn then State(s.place, Of(k), s.cats, s.mice, s.dishes) else s;
    var a := s1.Counts(k);
    TryEnter(c, s1.With(k, Side(a.waiting + 1, a.admitted, a.left, a.done)), i)
  }

  /** cv_broadcast on the turn variable of kind `k`. */
  function Woken(kinds: seq<Kind>, place: seq<Place>, k: Kind): (r: seq<Place>)
    requires |kinds| == |place|
    ensures |r| == |place|
    ensures forall i :: 0 <= i < |place| ==> r[i] == if kinds[i] == k && place[i] == Asleep then Awake else place[i]
  {
    seq(|place|, i requires 0 <= i < |place| =>
      if kinds[i] == k && place[i] == Asleep then Awake else place[i])
  }

  function Cleared(a: Side): Side { Side(a.waiting, 0, 0, a.done) }

  /** cat_end_turn_logic and mouse_end_turn_logic. */
  function EndTurn(c: Setting, s: State, k: Kind): (t: State)
    requires |c.kinds| == |s.place|
    ensures |t.place| == |s.place| && t.dishes == s.dishes
  {
    var a := s.Counts(k);
    var a1 := Side(a.waiting, a.admitted, a.left + 1, a.done);
    var s1 := s.With(k, a1);
    if a1.left < a1.admitted then s1
    else if a1.left < c.turnCount && a1.waiting > 0 then s1
    else if s.Counts(Other(k)).waiting != 0 then
      State(Woken(c.kinds, s.place, Other(k)), Of(Other(k)), Cleared(s1.cats), Cleared(s1.mice), s.dishes)
    else if a.waiting != 0 then
      State(Woken(c.kinds, s.place, k), s.turn, Cleared(s1.cats), Cleared(s1.mice), s.dishes)
    else
      State(s.place, NoTurn, Cleared(s1.cats), Cleared(s1.mice), s.dishes)
  }

  /** return_dish_to_guardian; `w` is the animal cv_signal wakes if any waits for a dish. */
  function Leave(c: Setting, s: State, i: nat, w: nat): State
    requires i < |s.place| == |c.kinds| && w < |s.place| && s.place[i].Eating? && s.place[i].dish < |s.dishes|
  {
    var k := c.kinds[i];
    var s1 := State(s.place[i := Done], s.turn, s.cats, s.mice, s.dishes[s.place[i].dish := NoTurn]);
    var s2 := EndTurn(c, s1, k);
    var s3 := if s2.place[w] == DishAsleep then s2.Put(w, DishAwake) else s2;
    var a := s3.Counts(k);
    s3.With(k, Side(a.waiting, a.admitted, a.left, a.done + 1))
  }

  // ---------------------------------------------------------------- the machine

  datatype Step = DoArrive(i: nat) | DoRetry(i: nat) | DoRetryDish(i: nat) | DoLeave(i: nat, w: nat)

  predicate Enabled(c: Setting, s: State, t: Step) {
    && |c.kinds| == |s.place| && t.i < |s.place|
    && match t
       case DoArrive(i) => s.place[i] == Away
       case DoRetry(i) => s.place[i] == Awake
       case DoRetryDish(i) => s.place[i] == DishAwake
       case DoLeave(i, w) => s.place[i].Eating? && s.place[i].dish < |s.dishes| && w < |s.place|
  }

  function Next(c: Setting, s: State, t: Step): State
    requires Enabled(c, s, t)
  {
    match t
    case DoArrive(i) => Arrive(c, s, i)
    case DoRetry(i) => TryEnter(c, s, i)
    case DoRetryDish(i) => TakeDish(c, s, i)
    case DoLeave(i, w) => Leave(c, s, i, w)
  }

  /** `t` is reached from `s` by the given steps. */
  ghost predicate Runs(c: Setting, s: State, steps: seq<Step>, t: State)
    decreases |steps|
  {
    if steps == [] then s == t
    else Enabled(c, s, steps[0]) && Runs(c, Next(c, s, steps[0]), steps[1..], t)
  }

  // ---------------------------------------------------------------- counting

  datatype Class = Waiting | AtDish | Fed | Woke | Out

  predicate In(p: Place, l: Class) {
    match l
    case Waiting => p == Asleep || p == Awake
    case AtDish => p.Eating?
    case Fed => p == Done
    case Woke => p == Awake
    case Out => p == Away
  }

  /** How many animals of kind `k` are in class `l`. */
  function Tally(kinds: seq<Kind>, place: seq<Place>, k: Kind, l: Class): (n: nat)
    requires |kinds| == |place|
    ensures n <= |place|
  {
    if place == [] then 0
    else (if kinds[0] == k && In(place[0], l) then 1 else 0) + Tally(kinds[1..], place[1..], k, l)
  }

  lemma {:induction false} TallyPut(kinds: seq<Kind>, place: seq<Place>, k: Kind, l: Class, i: nat, p: Place)
    requires |kinds| == |place| && i < |place|
    ensures Tally(kinds, place[i := p], k, l) ==
            Tally(kinds, place, k, l)
            - (if kinds[i] == k && In(place[i], l) then 1 else 0)
            + (if kinds[i] == k && In(p, l) then 1 else 0)
  {
    if i > 0 {
      assert place[i := p][1..] == place[1..][i - 1 := p];
      TallyPut(kinds[1..], place[1..], k, l, i - 1, p);
    } else {
      assert place[0 := p][1..] == place[1..];
    }
  }

  lemma {:induction false} TallyZero(kinds: seq<Kind>, place: seq<Place>, k: Kind, l: Class)
    requires |kinds| == |place|
    ensures Tally(kinds, place, k, l) == 0 <==>
            forall i: nat :: i < |place| && kinds[i] == k ==> !In(place[i], l)
  {
    if place != [] {
      TallyZero(kinds[1..], place[1..], k, l);
      if forall i: nat :: i < |place| && kinds[i] == k ==> !In(place[i], l) {
        forall i: nat | i < |place[1..]| && kinds[1..][i] == k
          ensures !In(place[1..][i], l)
        {
          assert kinds[i + 1] == k;
        }
      }
      if Tally(kinds, place, k, l) == 0 {
        forall i: nat | i < |place| && kinds[i] == k
          ensures !In(place[i], l)
        {
          if i > 0 { assert kinds[1..][i - 1] == k; }
        }
      }
    }
  }

  /** Waking the sleepers of a kind changes no class but Woke. */
  lemma {:induction false} TallyWoken(kinds: seq<Kind>, place: seq<Place>, k: Kind, j: Kind, l: Class)
    requires |kinds| == |place| && l != Woke
    ensures Tally(kinds, Woken(kinds, place, j), k, l) == Tally(kinds, place, k, l)
  {
    if place != [] {
      assert Woken(kinds, place, j)[1..] == Woken(kinds[1..], place[1..], j);
      TallyWoken(kinds[1..], place[1..], k, j, l);
    }
  }

  /** How many dishes are in use. */
  function Occupied(dishes: seq<Turn>): (n: nat)
    ensures n <= |dishes|
  {
    if dishes == [] then 0 else (if dishes[0] == NoTurn then 0 else 1) + Occupied(dishes[1..])
  }

  lemma {:induction false} OccupiedPut(dishes: seq<Turn>, d: nat, v: Turn)
    requires d < |dishes|
    ensures Occupied(dishes[d := v]) ==
            Occupied(dishes) - (if dishes[d] == NoTurn then 0 else 1) + (if v == NoTurn then 0 else 1)
  {
    if d > 0 {
      assert dishes[d := v][1..] == dishes[1..][d - 1 := v];
      OccupiedPut(dishes[1..], d - 1, v);
    } else {
      assert dishes[0 := v][1..] == dishes[1..];
    }
  }

  lemma {:induction false} AllOccupied(dishes: seq<Turn>)
    requires FirstEmpty(dishes) == |dishes|
    ensures Occupied(dishes) == |dishes|
  {
    if dishes != [] { AllOccupied(dishes[1..]); }
  }

  // ---------------------------------------------------------------- the invariant

  function T(c: Setting, s: State, k: Kind, l: Class): nat
    requires |c.kinds| == |s.place|
  {
    Tally(c.kinds, s.place, k, l)
  }

  /** The counters of kind `k` mean what their names say, its turn is respected, and no
      animal of the kind sleeps while it could be admitted. */
  ghost predicate SideInv(c: Setting, s: State, k: Kind)
    requires |c.kinds| == |s.place|
  {
    var a := s.Counts(k);
    && a.waiting == T(c, s, k, Waiting) && a.done == T(c, s, k, Fed)
    && a.admitted - a.left == T(c, s, k, AtDish)
    && 0 <= a.left <= a.admitted <= c.turnCount
    && (s.turn != Of(k) ==> a.admitted == 0)
    && (s.turn == Of(k) && a.admitted < c.turnCount ==> NoneAsleep(c, s, k))
    && (s.turn == Of(k) ==> T(c, s, k, AtDish) > 0 || (a.waiting > 0 && a.admitted < c.turnCount))
    && (s.turn == NoTurn ==> a.waiting == 0)
  }

  ghost predicate NoneAsleep(c: Setting, s: State, k: Kind)
    requires |c.kinds| == |s.place|
  {
    forall i: nat :: i < |s.place| && c.kinds[i] == k ==> s.place[i] != Asleep
  }

  /** Every eater sits alone at a dish that carries its kind; nobody waits for a dish. */
  ghost predicate DishInv(c: Setting, s: State)
    requires |c.kinds| == |s.place|
  {
    && |s.dishes| == c.bowls
    && Occupied(s.dishes) == T(c, s, Cat, AtDish) + T(c, s, Mouse, AtDish)
    && (forall i: nat :: i < |s.place| && s.place[i].Eating? ==>
         s.place[i].dish < |s.dishes| && s.dishes[s.place[i].dish] == Of(c.kinds[i]))
    && (forall i: nat, j: nat :: i < j < |s.place| && s.place[i].Eating? && s.place[j].Eating? ==>
         s.place[i].dish != s.place[j].dish)
    && (forall i: nat :: i < |s.place| ==> s.place[i] != DishAsleep && s.place[i] != DishAwake)
  }

  ghost predicate Inv(c: Setting, s: State) {
    c.Valid() && |c.kinds| == |s.place| && SideInv(c, s, Cat) && SideInv(c, s, Mouse) && DishInv(c, s)
  }

  lemma {:induction false} TallyInit(kinds: seq<Kind>, k: Kind, l: Class)
    requires l != Out
    ensures Tally(kinds, seq(|kinds|, _ => Away), k, l) == 0
  {
    var place: seq<Place> := seq(|kinds|, _ => Away);
    TallyZero(kinds, place, k, l);
  }

  lemma {:induction false} OccupiedNone(n: nat)
    ensures Occupied(seq(n, _ => NoTurn)) == 0
  {
    if n > 0 {
      assert seq(n, _ => NoTurn)[1..] == seq(n - 1, _ => NoTurn);
      OccupiedNone(n - 1);
    }
  }

  lemma InitInv(c: Setting)
    requires c.Valid()
    ensures Inv(c, Init(c))
  {
    forall k: Kind, l: Class | l != Out
      ensures T(c, Init(c), k, l) == 0
    {
      TallyInit(c.kinds, k, l);
    }
    OccupiedNone(c.bowls);
  }

  // ---------------------------------------------------------------- every step keeps it

  lemma PutTallies(c: Setting, s: State, i: nat, p: Place)
    requires |c.kinds| == |s.place| && i < |s.place|
    ensures forall k: Kind, l: Class ::
      Tally(c.kinds, s.place[i := p], k, l) ==
        T(c, s, k, l) - (if c.kinds[i] == k && In(s.place[i], l) then 1 else 0)
        + (if c.kinds[i] == k && In(p, l) then 1 else 0)
  {
    forall k: Kind, l: Class {
      TallyPut(c.kinds, s.place, k, l, i, p);
    }
  }

  /** Arriving is joining the waiting animals, claiming the turn if nobody has it, and then
      trying to enter as a woken animal does. */
  function Joined(c: Setting, s: State, i: nat): State
    requires i < |s.place| == |c.kinds|
  {
    var k := c.kinds[i];
    var s1 := if s.turn == NoTurn then State(s.place, Of(k), s.cats, s.mice, s.dishes) else s;
    var a := s1.Counts(k);
    s1.With(k, Side(a.waiting + 1, a.admitted, a.left, a.done)).Put(i, Awake)
  }

  lemma ArriveIsRetry(c: Setting, s: State, i: nat)
    requires i < |s.place| == |c.kinds|
    ensures Arrive(c, s, i) == TryEnter(c, Joined(c, s, i), i)
  {
    var d := FirstEmpty(s.dishes);
    assert s.place[i := Awake][i := Asleep] == s.place[i := Asleep];
    assert s.place[i := Awake][i := DishAsleep] == s.place[i := DishAsleep];
    assert s.place[i := Awake][i := Eating(d)] == s.place[i := Eating(d)];
  }

  lemma JoinedSide(c: Setting, s: State, i: nat, j: Kind)
    requires Inv(c, s) && i < |s.place| && s.place[i] == Away
    ensures SideInv(c, Joined(c, s, i), j)
  {
    PutTallies(c, s, i, Awake);
    if s.turn == NoTurn { TallyZero(c.kinds, s.place, c.kinds[i], Waiting); }
    hide Tally, DishInv;
  }

  lemma JoinedInv(c: Setting, s: State, i: nat)
    requires Inv(c, s) && i < |s.place| && s.place[i] == Away
    ensures Inv(c, Joined(c, s, i))
  {
    JoinedSide(c, s, i, Cat);
    JoinedSide(c, s, i, Mouse);
    PutTallies(c, s, i, Awake);
    hide Tally, Occupied, SideInv;
  }

  lemma SleepInv(c: Setting, s: State, i: nat)
    requires Inv(c, s) && i < |s.place| && s.place[i] == Awake
    requires s.turn != Of(c.kinds[i]) || s.Counts(c.kinds[i]).admitted >= c.turnCount
    ensures Inv(c, s.Put(i, Asleep))
  {
    PutTallies(c, s, i, Asleep);
    hide Tally, Occupied;
  }

  /** Whoever is admitted finds an empty dish. */
  lemma DishForAdmitted(c: Setting, s: State, k: Kind)
    requires Inv(c, s) && s.turn == Of(k) && s.Counts(k).admitted < c.turnCount
    ensures FirstEmpty(s.dishes) < |s.dishes|
  {
    if FirstEmpty(s.dishes) == |s.dishes| { AllOccupied(s.dishes); }
  }

  lemma EnterSide(c: Setting, s: State, i: nat, j: Kind)
    requires Inv(c, s) && i < |s.place| && s.place[i] == Awake
    requires s.turn == Of(c.kinds[i]) && s.Counts(c.kinds[i]).admitted < c.turnCount
    ensures SideInv(c, TryEnter(c, s, i), j)
  {
    DishForAdmitted(c, s, c.kinds[i]);
    PutTallies(c, s, i, Eating(FirstEmpty(s.dishes)));
    hide Tally, FirstEmpty, DishInv;
  }

  lemma EnterInv(c: Setting, s: State, i: nat)
    requires Inv(c, s) && i < |s.place| && s.place[i] == Awake
    requires s.turn == Of(c.kinds[i]) && s.Counts(c.kinds[i]).admitted < c.turnCount
    ensures Inv(c, TryEnter(c, s, i))
    ensures TryEnter(c, s, i).place[i].Eating?
  {
    EnterSide(c, s, i, Cat);
    EnterSide(c, s, i, Mouse);
    EnterDishes(c, s, i);
    hide SideInv, DishInv, FirstEmpty, Tally;
  }

  lemma EnterDishes(c: Setting, s: State, i: nat)
    requires Inv(c, s) && i < |s.place| && s.place[i] == Awake
    requires s.turn == Of(c.kinds[i]) && s.Counts(c.kinds[i]).admitted < c.turnCount
    ensures DishInv(c, TryEnter(c, s, i)) && TryEnter(c, s, i).place[i].Eating?
  {
    DishForAdmitted(c, s, c.kinds[i]);
    var d := FirstEmpty(s.dishes);
    PutTallies(c, s, i, Eating(d));
    OccupiedPut(s.dishes, d, Of(c.kinds[i]));
    hide Tally, Occupied, FirstEmpty, SideInv;
  }

  /** An eater of the kind whose turn it is not does not exist. */
  lemma EaterHasTurn(c: Setting, s: State, i: nat)
    requires Inv(c, s) && i < |s.place| && s.place[i].Eating?
    ensures s.turn == Of(c.kinds[i])
  {
    TallyZero(c.kinds, s.place, c.kinds[i], AtDish);
    assert In(s.place[i], AtDish);
  }

  /** The state in which return_dish_to_guardian calls the end-of-turn logic. */
  function Stood(s: State, i: nat): State
    requires i < |s.place| && s.place[i].Eating? && s.place[i].dish < |s.dishes|
  {
    State(s.place[i := Done], s.turn, s.cats, s.mice, s.dishes[s.place[i].dish := NoTurn])
  }

  lemma StoodDishes(c: Setting, s: State, i: nat)
    requires Inv(c, s) && i < |s.place| && s.place[i].Eating?
    ensures s.place[i].dish < |s.dishes| && DishInv(c, Stood(s, i))
  {
    PutTallies(c, s, i, Done);
    OccupiedPut(s.dishes, s.place[i].dish, NoTurn);
    hide Tally, Occupied;
  }

  /** The counters after an animal of kind `k` has left. */
  function LeftSide(a: Side): Side { Side(a.waiting, a.admitted, a.left + 1, a.done + 1) }

  lemma LeaveStaysSide(c: Setting, s: State, i: nat, j: Kind)
    requires Inv(c, s) && i < |s.place| && s.place[i].Eating? && s.place[i].dish < |s.dishes|
    requires var a := s.Counts(c.kinds[i]);
      a.left + 1 < a.admitted || (a.left + 1 < c.turnCount && a.waiting > 0)
    ensures var k := c.kinds[i]; SideInv(c, Stood(s, i).With(k, LeftSide(s.Counts(k))), j)
  {
    EaterHasTurn(c, s, i);
    PutTallies(c, s, i, Done);
    hide Tally, DishInv;
  }

  lemma LeaveStays(c: Setting, s: State, i: nat)
    requires Inv(c, s) && i < |s.place| && s.place[i].Eating?
    requires var a := s.Counts(c.kinds[i]);
      a.left + 1 < a.admitted || (a.left + 1 < c.turnCount && a.waiting > 0)
    ensures s.place[i].dish < |s.dishes|
    ensures var k := c.kinds[i]; Inv(c, Stood(s, i).With(k, LeftSide(s.Counts(k))))
  {
    StoodDishes(c, s, i);
    LeaveStaysSide(c, s, i, Cat);
    LeaveStaysSide(c, s, i, Mouse);
    hide Tally, Occupied, SideInv;
  }

  /** The turn ends: `next` gets it, or nobody. */
  function Passed(c: Setting, s: State, next: Turn, k: Kind): State
    requires |c.kinds| == |s.place|
  {
    var p := if next == NoTurn then s.place else Woken(c.kinds, s.place, next.kind);
    var t := State(p, next, Cleared(s.cats), Cleared(s.mice), s.dishes);
    var a := t.Counts(k);
    t.With(k, Side(a.waiting, a.admitted, a.left, a.done + 1))
  }

  lemma PassedDishes(c: Setting, s: State, next: Turn, k: Kind)
    requires |c.kinds| == |s.place| && DishInv(c, s)
    ensures DishInv(c, Passed(c, s, next, k))
  {
    if next != NoTurn {
      TallyWoken(c.kinds, s.place, Cat, next.kind, AtDish);
      TallyWoken(c.kinds, s.place, Mouse, next.kind, AtDish);
    }
    hide Tally, Occupied;
  }

  lemma PassedTallies(c: Setting, s: State, i: nat, next: Turn, k: Kind)
    requires |c.kinds| == |s.place| && i < |s.place| && s.place[i].Eating? && s.place[i].dish < |s.dishes|
    requires c.kinds[i] == k
    ensures var t := Passed(c, Stood(s, i), next, k);
      && T(c, t, k, AtDish) == T(c, s, k, AtDish) - 1 && T(c, t, k, Fed) == T(c, s, k, Fed) + 1
      && T(c, t, k, Waiting) == T(c, s, k, Waiting)
      && forall l :: l == AtDish || l == Fed || l == Waiting ==> T(c, t, Other(k), l) == T(c, s, Other(k), l)
  {
    PutTallies(c, s, i, Done);
    if next != NoTurn {
      forall j: Kind, l: Class | l != Woke {
        TallyWoken(c.kinds, Stood(s, i).place, j, next.kind, l);
      }
    }
    hide Tally;
  }

  lemma LeavePassesSide(c: Setting, s: State, i: nat, next: Turn, j: Kind)
    requires Inv(c, s) && i < |s.place| && s.place[i].Eating? && s.place[i].dish < |s.dishes|
    requires var a := s.Counts(c.kinds[i]); a.left + 1 == a.admitted
    requires next == NoTurn ==> s.cats.waiting == 0 && s.mice.waiting == 0
    requires next != NoTurn ==> s.Counts(next.kind).waiting != 0
    ensures SideInv(c, Passed(c, Stood(s, i), next, c.kinds[i]), j)
  {
    EaterHasTurn(c, s, i);
    PassedTallies(c, s, i, next, c.kinds[i]);
    hide Tally, DishInv;
    assert j == c.kinds[i] || j == Other(c.kinds[i]);
  }

  lemma LeavePasses(c: Setting, s: State, i: nat, next: Turn)
    requires Inv(c, s) && i < |s.place| && s.place[i].Eating?
    requires var a := s.Counts(c.kinds[i]); a.left + 1 == a.admitted
    requires next == NoTurn ==> s.cats.waiting == 0 && s.mice.waiting == 0
    requires next != NoTurn ==> s.Counts(next.kind).waiting != 0
    ensures s.place[i].dish < |s.dishes|
    ensures Inv(c, Passed(c, Stood(s, i), next, c.kinds[i]))
  {
    StoodDishes(c, s, i);
    PassedDishes(c, Stood(s, i), next, c.kinds[i]);
    LeavePassesSide(c, s, i, next, Cat);
    LeavePassesSide(c, s, i, next, Mouse);
    hide SideInv, DishInv;
  }

  /** What return_dish_to_guardian does to a state in which the invariant holds. */
  lemma LeaveCases(c: Setting, s: State, i: nat, w: nat)
    requires Inv(c, s) && i < |s.place| && w < |s.place| && s.place[i].Eating?
    ensures s.place[i].dish < |s.dishes|
    ensures var k := c.kinds[i];
      var a := s.Counts(k);
      Leave(c, s, i, w) ==
        if a.left + 1 < a.admitted || (a.left + 1 < c.turnCount && a.waiting > 0)
        then Stood(s, i).With(k, LeftSide(a))
        else Passed(c, Stood(s, i),
                    if s.Counts(Other(k)).waiting != 0 then Of(Other(k))
                    else if a.waiting != 0 then Of(k) else NoTurn, k)
    ensures s.Counts(c.kinds[i]).left < s.Counts(c.kinds[i]).admitted
  {
    hide Inv;
    EaterHasTurn(c, s, i);
    EaterCounted(c, s, i);
    NoDishWaiter(c, s, i, w);
  }

  lemma EaterCounted(c: Setting, s: State, i: nat)
    requires Inv(c, s) && i < |s.place| && s.place[i].Eating?
    ensures |s.place| == |c.kinds| && s.place[i].dish < |s.dishes|
    ensures s.Counts(c.kinds[i]).left < s.Counts(c.kinds[i]).admitted
  {
    TallyZero(c.kinds, s.place, c.kinds[i], AtDish);
    assert In(s.place[i], AtDish);
  }

  lemma NoDishWaiter(c: Setting, s: State, i: nat, w: nat)
    requires Inv(c, s) && i < |s.place| && w < |s.place| && s.place[i].Eating?
    ensures |s.place| == |c.kinds| && s.place[i].dish < |s.dishes|
    ensures EndTurn(c, Stood(s, i), c.kinds[i]).place[w] != DishAsleep
  {
    hide SideInv;
  }

  /** Every step keeps the invariant, and nobody ever waits for a dish. */
  lemma StepInv(c: Setting, s: State, t: Step)
    requires Inv(c, s) && Enabled(c, s, t)
    ensures Inv(c, Next(c, s, t)) && !t.DoRetryDish?
  {
    match t {
      case DoArrive(i) =>
        JoinedInv(c, s, i);
        ArriveIsRetry(c, s, i);
        TryEnterInv(c, Joined(c, s, i), i);
      case DoRetry(i) =>
        TryEnterInv(c, s, i);
      case DoRetryDish(i) =>
      case DoLeave(i, w) =>
        LeaveCases(c, s, i, w);
        LeaveInv(c, s, i, w);
    }
  }

  lemma TryEnterInv(c: Setting, s: State, i: nat)
    requires Inv(c, s) && i < |s.place| && s.place[i] == Awake
    ensures Inv(c, TryEnter(c, s, i))
  {
    if s.turn != Of(c.kinds[i]) || s.Counts(c.kinds[i]).admitted >= c.turnCount {
      SleepInv(c, s, i);
    } else {
      EnterInv(c, s, i);
    }
  }

  lemma LeaveInv(c: Setting, s: State, i: nat, w: nat)
    requires Inv(c, s) && i < |s.place| && w < |s.place| && s.place[i].Eating?
    ensures s.place[i].dish < |s.dishes| && Inv(c, Leave(c, s, i, w))
  {
    LeaveCases(c, s, i, w);
    var k := c.kinds[i];
    var a := s.Counts(k);
    if a.left + 1 < a.admitted || (a.left + 1 < c.turnCount && a.waiting > 0) {
      LeaveStays(c, s, i);
    } else {
      var next := if s.Counts(Other(k)).waiting != 0 then Of(Other(k)) else if a.waiting != 0 then Of(k) else NoTurn;
      assert k == Cat || k == Mouse;
      LeavePasses(c, s, i, next);
    }
  }

  // ---------------------------------------------------------------- theorems about runs

  lemma {:induction false} RunInv(c: Setting, s: State, steps: seq<Step>, t: State)
    requires Inv(c, s) && Runs(c, s, steps, t)
    ensures Inv(c, t)
    decreases |steps|
  {
    hide Inv, Next, Enabled;
    if steps != [] {
      StepInv(c, s, steps[0]);
      RunInv(c, Next(c, s, steps[0]), steps[1..], t);
    }
  }

  /** In every reachable state all who eat are of one kind, no two share a dish, and nobody
      who was admitted waits for one. */
  lemma Safety(c: Setting, steps: seq<Step>, s: State)
    requires c.Valid() && Runs(c, Init(c), steps, s)
    ensures |s.place| == |c.kinds|
    ensures forall i: nat, j: nat :: i < |s.place| && j < |s.place| && s.place[i].Eating? && s.place[j].Eating? ==>
      c.kinds[i] == c.kinds[j] && (i != j ==> s.place[i].dish != s.place[j].dish)
    ensures forall i: nat :: i < |s.place| ==> s.place[i] != DishAsleep && s.place[i] != DishAwake
  {
    InitInv(c);
    RunInv(c, Init(c), steps, s);
    forall i: nat, j: nat | i < |s.place| && j < |s.place| && s.place[i].Eating? && s.place[j].Eating?
      ensures c.kinds[i] == c.kinds[j] && (i != j ==> s.place[i].dish != s.place[j].dish)
    {
      EaterHasTurn(c, s, i);
      EaterHasTurn(c, s, j);
      hide SideInv;
      assert i < j || j < i || i == j;
    }
  }

  /** As long as some animal is not done, some step can be taken. */
  lemma Progress(c: Setting, s: State) returns (t: Step)
    requires Inv(c, s) && exists i: nat :: i < |s.place| && s.place[i] != Done
    ensures Enabled(c, s, t)
  {
    var i: nat :| i < |s.place| && s.place[i] != Done;
    match s.place[i] {
      case Away => t := DoArrive(i);
      case Awake => t := DoRetry(i);
      case Eating(d) => t := DoLeave(i, i);
      case DishAsleep => t := DoArrive(i); assert false;
      case DishAwake => t := DoRetryDish(i);
      case Asleep =>
        TallyZero(c.kinds, s.place, c.kinds[i], Waiting);
        assert In(s.place[i], Waiting);
        t := SomeoneMoves(c, s);
    }
  }

  /** Whoever has the turn has an animal that can move. */
  lemma SomeoneMoves(c: Setting, s: State) returns (t: Step)
    requires Inv(c, s) && s.turn != NoTurn
    ensures Enabled(c, s, t)
  {
    var k := s.turn.kind;
    assert k == Cat || k == Mouse;
    TallyZero(c.kinds, s.place, k, AtDish);
    TallyZero(c.kinds, s.place, k, Waiting);
    hide Tally, Occupied;
    if T(c, s, k, AtDish) > 0 {
      var j: nat :| j < |s.place| && c.kinds[j] == k && In(s.place[j], AtDish);
      t := DoLeave(j, j);
    } else {
      var j: nat :| j < |s.place| && c.kinds[j] == k && In(s.place[j], Waiting);
      t := DoRetry(j);
    }
  }

  function Both(c: Setting, s: State, l: Class): nat
    requires |c.kinds| == |s.place|
  {
    T(c, s, Cat, l) + T(c, s, Mouse, l)
  }

  function Weight(n: int, fed: int): int { (n - fed) * (n + 1) }

  /** The animals not done, not arrived and woken, weighted so that every step lowers it. */
  function Rank(c: Setting, s: State): int
    requires |c.kinds| == |s.place|
  {
    Weight(|s.place|, Both(c, s, Fed)) + Both(c, s, Out) + Both(c, s, Woke)
  }

  lemma {:induction false} TallySum(kinds: seq<Kind>, place: seq<Place>, l: Class)
    requires |kinds| == |place|
    ensures Tally(kinds, place, Cat, l) + Tally(kinds, place, Mouse, l) <= |place|
  {
    if place != [] { TallySum(kinds[1..], place[1..], l); }
  }

  lemma WeightBounds(n: nat, fed: nat)
    requires fed <= n
    ensures 0 <= Weight(n, fed) && Weight(n, fed + 1) == Weight(n, fed) - (n + 1)
  {
  }

  lemma RankBounds(c: Setting, s: State)
    requires |c.kinds| == |s.place|
    ensures 0 <= Rank(c, s) && Both(c, s, Fed) <= |s.place| && Both(c, s, Woke) <= |s.place|
  {
    TallySum(c.kinds, s.place, Fed);
    TallySum(c.kinds, s.place, Woke);
    hide Weight, Tally;
    WeightBounds(|s.place|, Both(c, s, Fed));
  }

  /** The tallies of Out, Woke and Fed after each step. */
  lemma EnterRank(c: Setting, s: State, i: nat)
    requires Inv(c, s) && i < |s.place| && s.place[i] == Awake
    ensures var t := TryEnter(c, s, i);
      && |t.place| == |s.place| && Both(c, t, Fed) == Both(c, s, Fed)
      && Both(c, t, Out) == Both(c, s, Out) && Both(c, t, Woke) == Both(c, s, Woke) - 1
  {
    var t := TryEnter(c, s, i);
    assert t.place == s.place[i := t.place[i]] && t.place[i] != Awake && t.place[i] != Away && t.place[i] != Done;
    PutTallies(c, s, i, t.place[i]);
    hide Tally;
  }

  lemma JoinedRank(c: Setting, s: State, i: nat)
    requires Inv(c, s) && i < |s.place| && s.place[i] == Away
    ensures var t := Joined(c, s, i);
      && |t.place| == |s.place| && Both(c, t, Fed) == Both(c, s, Fed)
      && Both(c, t, Out) == Both(c, s, Out) - 1 && Both(c, t, Woke) == Both(c, s, Woke) + 1
  {
    PutTallies(c, s, i, Awake);
    hide Tally;
  }

  lemma LeaveRank(c: Setting, s: State, i: nat, w: nat)
    requires Inv(c, s) && i < |s.place| && w < |s.place| && s.place[i].Eating?
    ensures s.place[i].dish < |s.dishes|
    ensures var t := Leave(c, s, i, w);
      && |t.place| == |s.place| && Both(c, t, Fed) == Both(c, s, Fed) + 1 && Both(c, t, Out) == Both(c, s, Out)
  {
    hide Tally, SideInv, Leave, Woken;
    LeaveCases(c, s, i, w);
    var p, t := Stood(s, i).place, Leave(c, s, i, w).place;
    assert t == p || t == Woken(c.kinds, p, Cat) || t == Woken(c.kinds, p, Mouse);
    hide DishInv, Stood;
    SameTallies(c.kinds, p, t, Fed);
    SameTallies(c.kinds, p, t, Out);
    PutTallies(c, s, i, Done);
  }

  /** Waking a kind changes neither who is done nor who is away. */
  lemma SameTallies(kinds: seq<Kind>, p: seq<Place>, t: seq<Place>, l: Class)
    requires |kinds| == |p| && (l == Fed || l == Out)
    requires t == p || t == Woken(kinds, p, Cat) || t == Woken(kinds, p, Mouse)
    ensures |t| == |p| && forall k: Kind :: Tally(kinds, t, k, l) == Tally(kinds, p, k, l)
  {
    hide Tally, Woken;
    forall k: Kind
      ensures Tally(kinds, t, k, l) == Tally(kinds, p, k, l)
    {
      TallyWoken(kinds, p, k, Cat, l);
      TallyWoken(kinds, p, k, Mouse, l);
    }
  }

  lemma LeaveLowers(c: Setting, s: State, i: nat, w: nat)
    requires Inv(c, s) && i < |s.place| && w < |s.place| && s.place[i].Eating?
    ensures s.place[i].dish < |s.dishes|
    ensures var t := Leave(c, s, i, w); |t.place| == |s.place| && Rank(c, t) < Rank(c, s)
  {
    hide Weight, Tally, SideInv, DishInv, Leave;
    LeaveRank(c, s, i, w);
    RankBounds(c, s);
    RankBounds(c, Leave(c, s, i, w));
    WeightBounds(|s.place|, Both(c, s, Fed));
  }

  lemma StepRank(c: Setting, s: State, t: Step)
    requires Inv(c, s) && Enabled(c, s, t)
    ensures |Next(c, s, t).place| == |s.place| && Rank(c, Next(c, s, t)) < Rank(c, s)
  {
    StepInv(c, s, t);
    match t {
      case DoArrive(i) =>
        JoinedInv(c, s, i);
        ArriveIsRetry(c, s, i);
        JoinedRank(c, s, i);
        EnterRank(c, Joined(c, s, i), i);
      case DoRetry(i) => EnterRank(c, s, i);
      case DoRetryDish(i) =>
      case DoLeave(i, w) => LeaveLowers(c, s, i, w);
    }
  }

  /** Every run is bounded: the steps taken and the rank left never exceed the rank at the start. */
  lemma {:induction false} RunBound(c: Setting, s: State, steps: seq<Step>, t: State)
    requires Inv(c, s) && Runs(c, s, steps, t)
    ensures |t.place| == |s.place| && |steps| + Rank(c, t) <= Rank(c, s)
    decreases |steps|
  {
    hide Inv, Next, Enabled, Rank;
    RunInv(c, s, steps, t);
    SameAnimals(c, s);
    if steps != [] {
      StepInv(c, s, steps[0]);
      StepRank(c, s, steps[0]);
      RunBound(c, Next(c, s, steps[0]), steps[1..], t);
    }
  }

  lemma SameAnimals(c: Setting, s: State)
    requires Inv(c, s)
    ensures |s.place| == |c.kinds|
  {
  }

  /** How often animal `i` gives its dish back. */
  function Leaves(steps: seq<Step>, i: nat): nat {
    if steps == [] then 0 else (if steps[0].DoLeave? && steps[0].i == i then 1 else 0) + Leaves(steps[1..], i)
  }

  lemma LeaveDone(c: Setting, s: State, i: nat, w: nat, j: nat)
    requires Inv(c, s) && i < |s.place| && w < |s.place| && s.place[i].Eating? && j < |s.place|
    ensures s.place[i].dish < |s.dishes| && j < |Leave(c, s, i, w).place|
    ensures Leave(c, s, i, w).place[j] == Done <==> s.place[j] == Done || i == j
  {
    LeaveCases(c, s, i, w);
    hide Inv, Leave;
  }

  lemma StepDone(c: Setting, s: State, t: Step, j: nat)
    requires Inv(c, s) && Enabled(c, s, t) && j < |s.place|
    ensures j < |Next(c, s, t).place|
    ensures Next(c, s, t).place[j] == Done <==> s.place[j] == Done || (t.DoLeave? && t.i == j)
    ensures t.DoLeave? && t.i == j ==> s.place[j] != Done
  {
    hide Inv, Leave, FirstEmpty, Tally;
    if t.DoLeave? { LeaveDone(c, s, t.i, t.w, j); }
  }

  lemma {:induction false} LeavesOnce(c: Setting, s: State, steps: seq<Step>, t: State, j: nat)
    requires Inv(c, s) && Runs(c, s, steps, t) && j < |s.place|
    ensures j < |t.place|
    ensures Leaves(steps, j) + (if s.place[j] == Done then 1 else 0) == if t.place[j] == Done then 1 else 0
    decreases |steps|
  {
    hide Inv, Next, Enabled;
    if steps != [] {
      StepInv(c, s, steps[0]);
      StepDone(c, s, steps[0], j);
      LeavesOnce(c, Next(c, s, steps[0]), steps[1..], t, j);
    }
  }

  lemma {:induction false} RankInit(c: Setting)
    requires c.Valid()
    ensures Rank(c, Init(c)) <= |c.kinds| * (|c.kinds| + 2)
  {
    var s, n := Init(c), |c.kinds|;
    TallyInit(c.kinds, Cat, Fed);
    TallyInit(c.kinds, Mouse, Fed);
    TallyInit(c.kinds, Cat, Woke);
    TallyInit(c.kinds, Mouse, Woke);
    TallySum(c.kinds, s.place, Out);
    assert Both(c, s, Fed) == 0 && Both(c, s, Woke) == 0 && Both(c, s, Out) <= n;
    hide Tally, Both;
    assert Weight(n, 0) + n == n * (n + 2);
  }

  /** Every run takes a bounded number of steps, and one that cannot be continued has fed
      every animal exactly once. */
  lemma AllFed(c: Setting, steps: seq<Step>, s: State)
    requires c.Valid() && Runs(c, Init(c), steps, s)
    ensures |steps| <= |c.kinds| * (|c.kinds| + 2) && |s.place| == |c.kinds|
    ensures (forall t: Step :: !Enabled(c, s, t)) ==>
      forall i: nat :: i < |s.place| ==> s.place[i] == Done && Leaves(steps, i) == 1
  {
    hide Tally, Occupied, Rank, Leaves, Enabled, Next;
    InitInv(c);
    RankInit(c);
    RunBound(c, Init(c), steps, s);
    RunInv(c, Init(c), steps, s);
    RankBounds(c, s);
    if forall t: Step :: !Enabled(c, s, t) {
      if exists i: nat :: i < |s.place| && s.place[i] != Done {
        var t := Progress(c, s);
        assert false;
      }
      forall i: nat | i < |s.place|
        ensures s.place[i] == Done && Leaves(steps, i) == 1
      {
        LeavesOnce(c, Init(c), steps, s, i);
      }
    }
  }

  // ---------------------------------------------------------------- the turn is not kept

  /** Step `t` admits an animal of kind `k`. */
  predicate Admits(c: Setting, s: State, t: Step, k: Kind)
    requires Enabled(c, s, t)
  {
    var s' := Next(c, s, t);
    c.kinds[t.i] == k && !t.DoLeave? && t.i < |s'.place| && s'.place[t.i].Eating?
  }

  ghost function Admissions(c: Setting, s: State, steps: seq<Step>, k: Kind, t: State): nat
    requires Runs(c, s, steps, t)
    decreases |steps|
  {
    if steps == [] then 0
    else (if Admits(c, s, steps[0], k) then 1 else 0) + Admissions(c, Next(c, s, steps[0]), steps[1..], k, t)
  }

  /** Throughout the run kind `k` has the turn while one of the other kind waits. */
  ghost predicate Keeps(c: Setting, s: State, steps: seq<Step>, k: Kind, t: State)
    requires Runs(c, s, steps, t)
    decreases |steps|
  {
    && s.turn == Of(k) && s.Counts(Other(k)).waiting > 0
    && (steps != [] ==> Keeps(c, Next(c, s, steps[0]), steps[1..], k, t))
  }

  lemma EnterCounts(c: Setting, s: State, i: nat, k: Kind)
    requires Inv(c, s) && i < |s.place| && s.place[i] == Awake && s.turn == Of(k)
    ensures var t := TryEnter(c, s, i);
      && |t.place| == |s.place|
      && t.Counts(k).admitted == s.Counts(k).admitted + if c.kinds[i] == k && t.place[i].Eating? then 1 else 0
  {
    if c.kinds[i] == k && s.Counts(k).admitted < c.turnCount { EnterInv(c, s, i); }
    hide Inv;
  }

  lemma LeaveCounts(c: Setting, s: State, i: nat, w: nat, k: Kind)
    requires Inv(c, s) && i < |s.place| && w < |s.place| && s.place[i].Eating?
    requires s.turn == Of(k) && s.Counts(Other(k)).waiting > 0
    ensures s.place[i].dish < |s.dishes|
    ensures var t := Leave(c, s, i, w); t.turn == Of(k) ==> t.Counts(k).admitted == s.Counts(k).admitted
  {
    LeaveCases(c, s, i, w);
    EaterHasTurn(c, s, i);
    hide Inv, Leave;
  }

  lemma AdmitCounts(c: Setting, s: State, t: Step, k: Kind)
    requires Inv(c, s) && Enabled(c, s, t) && s.turn == Of(k) && s.Counts(Other(k)).waiting > 0
    ensures var s' := Next(c, s, t);
      s'.turn == Of(k) ==>
        s'.Counts(k).admitted == s.Counts(k).admitted + if Admits(c, s, t, k) then 1 else 0
  {
    StepInv(c, s, t);
    match t {
      case DoArrive(i) =>
        JoinedInv(c, s, i);
        ArriveIsRetry(c, s, i);
        EnterCounts(c, Joined(c, s, i), i, k);
        hide Inv, TryEnter, Arrive;
      case DoRetry(i) =>
        EnterCounts(c, s, i, k);
        hide Inv, TryEnter;
      case DoRetryDish(i) =>
      case DoLeave(i, w) =>
        LeaveCounts(c, s, i, w, k);
        hide Inv, Leave;
    }
  }

  /** While an animal of the other kind waits, one turn admits at most TURN_COUNT animals. */
  lemma {:induction false} TurnBound(c: Setting, s: State, steps: seq<Step>, k: Kind, t: State)
    requires Inv(c, s) && Runs(c, s, steps, t) && Keeps(c, s, steps, k, t)
    ensures s.Counts(k).admitted + Admissions(c, s, steps, k, t) == t.Counts(k).admitted
    ensures Admissions(c, s, steps, k, t) <= c.turnCount
    decreases |steps|
  {
    RunInv(c, s, steps, t);
    assert k == Cat || k == Mouse;
    assert 0 <= s.Counts(k).admitted && t.Counts(k).admitted <= c.turnCount;
    hide Inv, Next, Enabled, Admits;
    if steps != [] {
      StepInv(c, s, steps[0]);
      AdmitCounts(c, s, steps[0], k);
      TurnBound(c, Next(c, s, steps[0]), steps[1..], k, t);
    }
  }
}
