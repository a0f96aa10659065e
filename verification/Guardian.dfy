/** The shared variables of src/kern/asst1/catlock.c and the code run under the lock, each
    region refining one function of the CatMouse state machine. */
module Guardian {
  import opened CatMouse

  class Guardian {
    const c: Setting
    const dishes: array<Turn>
    var whosTurn: Turn
    var catsDone: int
    var miceDone: int
    var catsAdmitted: int
    var miceAdmitted: int
    var catsLeft: int
    var miceLeft: int
    var catsWaiting: int
    var miceWaiting: int
    /** Where each animal's thread stands, the sleepers of the condition variables included. */
    var place: seq<Place>

    ghost function View(): State
      reads this, dishes
    {
      State(place, whosTurn, Side(catsWaiting, catsAdmitted, catsLeft, catsDone),
            Side(miceWaiting, miceAdmitted, miceLeft, miceDone), dishes[..])
    }

    ghost predicate Valid()
      reads this, dishes
    {
      Inv(c, View())
    }

    /** catmouse_global_init */
    constructor (setting: Setting)
      requires setting.Valid()
      ensures Valid() && c == setting && View() == Init(setting) && fresh(dishes)
    {
      c := setting;
      dishes := new Turn[setting.bowls](_ => NoTurn);
      catsDone, miceDone, whosTurn := 0, 0, NoTurn;
      catsAdmitted, miceAdmitted, catsLeft, miceLeft := 0, 0, 0, 0;
      catsWaiting, miceWaiting := 0, 0;
      place := seq(|setting.kinds|, _ => Away);
      new;
      InitInv(setting);
      assert dishes[..] == seq(setting.bowls, _ => NoTurn);
    }

    /** get_empty_dish */
    method GetEmptyDish() returns (d: int)
      ensures d == if FirstEmpty(dishes[..]) == dishes.Length then -1 else FirstEmpty(dishes[..])
    {
      var i := 0;
      while i < dishes.Length && dishes[i] != NoTurn
        invariant i <= dishes.Length && FirstEmpty(dishes[..]) == i + FirstEmpty(dishes[i..])
      {
        assert dishes[i..][1..] == dishes[i + 1..];
        i := i + 1;
      }
      return if i == dishes.Length then -1 else i;
    }

    /** cv_broadcast on cat_turn or mouse_turn */
    method Broadcast(k: Kind)
      requires |place| == |c.kinds|
      modifies this`place
      ensures place == Woken(c.kinds, old(place), k)
    {
      var p := place;
      for i := 0 to |place|
        invariant |place| == |old(place)| && |p| == |place| && place == old(place)
        invariant forall j :: 0 <= j < |p| ==>
          p[j] == if j < i && c.kinds[j] == k && place[j] == Asleep then Awake else place[j]
      {
        if c.kinds[i] == k && place[i] == Asleep { p := p[i := Awake]; }
      }
      place := p;
    }

    method ClearTurnCounters()
      modifies this`catsAdmitted, this`miceAdmitted, this`catsLeft, this`miceLeft
      ensures catsAdmitted == 0 && miceAdmitted == 0 && catsLeft == 0 && miceLeft == 0
    {
      catsAdmitted, miceAdmitted, catsLeft, miceLeft := 0, 0, 0, 0;
    }

    /** cat_turn_logic and mouse_turn_logic from the test of the loop on, and the taking of a
        dish: the animal is put to sleep or sits down. Its assertions never fail. */
    method Enter(i: nat)
      requires Valid() && i < |place| && place[i] == Awake
      modifies this, dishes
      ensures Valid() && View() == TryEnter(c, old(View()), i)
    {
      hide Inv, FirstEmpty;
      SameAnimals(c, View());
      TryEnterInv(c, View(), i);
      var k := c.kinds[i];
      if k == Cat {
        if whosTurn != Of(Cat) || catsAdmitted >= c.turnCount {
          place := place[i := Asleep];
          return;
        }
        catsWaiting, catsAdmitted := catsWaiting - 1, catsAdmitted + 1;
      } else {
        if whosTurn != Of(Mouse) || miceAdmitted >= c.turnCount {
          place := place[i := Asleep];
          return;
        }
        miceWaiting, miceAdmitted := miceWaiting - 1, miceAdmitted + 1;
      }
      DishForAdmitted(c, old(View()), k);
      var d := GetEmptyDish();
      assert d != -1;
      dishes[d] := Of(k);
      place := place[i := Eating(d)];
      assert dishes[..] == old(dishes[..])[d := Of(k)];
    }

    /** petition_guardian of an animal that arrives. */
    method Petition(i: nat)
      requires Valid() && i < |place| && place[i] == Away
      modifies this, dishes
      ensures Valid() && View() == Arrive(c, old(View()), i)
    {
      hide Inv, TryEnter;
      SameAnimals(c, View());
      JoinedInv(c, View(), i);
      ArriveIsRetry(c, View(), i);
      if whosTurn == NoTurn { whosTurn := Of(c.kinds[i]); }
      if c.kinds[i] == Cat { catsWaiting := catsWaiting + 1; } else { miceWaiting := miceWaiting + 1; }
      place := place[i := Awake];
      assert View() == Joined(c, old(View()), i);
      Enter(i);
    }

    /** cat_end_turn_logic */
    method CatEndTurnLogic()
      requires |place| == |c.kinds|
      modifies this
      ensures View() == EndTurn(c, old(View()), Cat)
    {
      catsLeft := catsLeft + 1;
      if catsLeft < catsAdmitted { return; }
      if catsLeft < c.turnCount && catsWaiting > 0 { return; }
      if miceWaiting != 0 {
        whosTurn := Of(Mouse);
        Broadcast(Mouse);
      } else if catsWaiting != 0 {
        Broadcast(Cat);
      } else {
        whosTurn := NoTurn;
      }
      ClearTurnCounters();
    }

    /** mouse_end_turn_logic */
    method MouseEndTurnLogic()
      requires |place| == |c.kinds|
      modifies this
      ensures View() == EndTurn(c, old(View()), Mouse)
    {
      miceLeft := miceLeft + 1;
      if miceLeft < miceAdmitted { return; }
      if miceLeft < c.turnCount && miceWaiting > 0 { return; }
      if catsWaiting != 0 {
        whosTurn := Of(Cat);
        Broadcast(Cat);
      } else if miceWaiting != 0 {
        Broadcast(Mouse);
      } else {
        whosTurn := NoTurn;
      }
      ClearTurnCounters();
    }

    /** return_dish_to_guardian; `w` is the thread cv_signal would wake. */
    method ReturnDish(i: nat, w: nat)
      requires Valid() && i < |place| && w < |place| && place[i].Eating?
      modifies this, dishes
      ensures old(place[i].dish) < dishes.Length
      ensures Valid() && View() == Leave(c, old(View()), i, w)
    {
      hide Inv, EndTurn;
      SameAnimals(c, View());
      LeaveInv(c, View(), i, w);
      var d := place[i].dish;
      dishes[d] := NoTurn;
      place := place[i := Done];
      assert dishes[..] == old(dishes[..])[d := NoTurn];
      if c.kinds[i] == Cat { CatEndTurnLogic(); } else { MouseEndTurnLogic(); }
      if place[w] == DishAsleep { place := place[w := DishAwake]; }
      if c.kinds[i] == Cat { catsDone := catsDone + 1; } else { miceDone := miceDone + 1; }
    }
  }
}
