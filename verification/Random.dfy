/** The additive-feedback generators: src/lib/libc/random.c. A state array is an array of
    longs whose first word is the header; longs are 32 bits and are kept as unsigned words. */
module Random {
  import opened Basics

  const MAX_TYPES: nat := 5

  function Degree(t: nat): (d: nat)
    requires t < MAX_TYPES
    ensures t > 0 ==> d > 2
  {
    if t == 0 then 0 else if t == 1 then 7 else if t == 2 then 15 else if t == 3 then 31 else 63
  }

  function Sep(t: nat): (s: nat)
    requires t < MAX_TYPES
    ensures t > 0 ==> 0 < s < Degree(t)
  {
    if t == 0 then 0 else if t == 1 then 3 else if t == 2 then 1 else if t == 3 then 3 else 1
  }

  /** How many words of state a generator has. */
  function Words(t: nat): nat
    requires t < MAX_TYPES
  {
    if t == 0 then 1 else Degree(t)
  }

  /** A generator: its type, its words, and the place of the rear pointer. */
  datatype Gen = Gen(typ: nat, words: seq<nat>, rear: nat)

  predicate Ok(g: Gen) {
    g.typ < MAX_TYPES && |g.words| == Words(g.typ) && (if g.typ == 0 then g.rear == 0 else g.rear < Degree(g.typ))
  }

  function Linear(x: nat): nat {
    (x * 1103515245 + 12345) % HALF
  }

  /** The place of the front pointer. */
  function Front(g: Gen): (f: nat)
    requires Ok(g) && g.typ > 0
    ensures f < |g.words|
  {
    (g.rear + Sep(g.typ)) % Degree(g.typ)
  }

  /** One draw. */
  function Advance(g: Gen): (h: Gen)
    requires Ok(g)
    ensures Ok(h) && h.typ == g.typ
  {
    if g.typ == 0 then Gen(0, [Linear(g.words[0])], 0)
    else
      var f := Front(g);
      Gen(g.typ, g.words[f := (g.words[f] + g.words[g.rear]) % WORD], (g.rear + 1) % Degree(g.typ))
  }

  /** What the draw returns. */
  function Drawn(g: Gen): nat
    requires Ok(g)
  {
    if g.typ == 0 then Advance(g).words[0] else (Advance(g).words[Front(g)] / 2) % HALF
  }

  /** `n` draws. */
  function AdvanceBy(g: Gen, n: nat): (h: Gen)
    requires Ok(g)
    ensures Ok(h) && h.typ == g.typ
  {
    if n == 0 then g else Advance(AdvanceBy(g, n - 1))
  }

  /** The first `n` numbers. */
  function Stream(g: Gen, n: nat): seq<nat>
    requires Ok(g)
  {
    if n == 0 then [] else Stream(g, n - 1) + [Drawn(AdvanceBy(g, n - 1))]
  }

  function Seeds(x: nat, n: nat): (s: seq<nat>)
    ensures |s| == n
  {
    if n == 0 then [] else if n == 1 then [x]
    else
      var s := Seeds(x, n - 1);
      s + [(1103515245 * s[n - 2] + 12345) % WORD]
  }

  /** Each word of a seeded state is the linear successor of the one before. */
  lemma {:induction false} SeedsAt(x: nat, n: nat, i: nat)
    requires i < n
    ensures Seeds(x, n)[0] == x
    ensures i + 1 < n ==> Seeds(x, n)[i + 1] == (1103515245 * Seeds(x, n)[i] + 12345) % 0x1_0000_0000
  {
    if n > 1 { SeedsAt(x, n - 1, if i < n - 1 then i else 0); }
  }

  /** What srandom makes of a generator of type `t`. */
  function Seeded(t: nat, x: nat): (g: Gen)
    requires t < MAX_TYPES
    ensures Ok(g) && g.typ == t
  {
    if t == 0 then Gen(0, [x], 0) else AdvanceBy(Gen(t, Seeds(x, Degree(t)), 0), 10 * Degree(t))
  }

  /** srandom throws the first ten turns of numbers away. */
  lemma {:induction false} SeededSkips(t: nat, x: nat, n: nat)
    requires 0 < t < MAX_TYPES
    ensures AdvanceBy(Seeded(t, x), n) == AdvanceBy(Gen(t, Seeds(x, Degree(t)), 0), 10 * Degree(t) + n)
  {
    hide Advance, Seeds, Degree;
    if n > 0 { SeededSkips(t, x, n - 1); }
  }

  /** The rear pointer goes round with the draws. */
  lemma {:induction false} RearAfter(g: Gen, n: nat)
    requires Ok(g) && g.typ > 0
    ensures AdvanceBy(g, n).rear == (g.rear + n) % Degree(g.typ)
  {
    hide Degree, Sep, Advance;
    var d := Degree(g.typ);
    if n > 0 {
      RearAfter(g, n - 1);
      NextRear(AdvanceBy(g, n - 1));
      WrapNext(g.rear + n - 1, d);
    } else {
      Wrap(g.rear, d);
    }
  }

  lemma NextRear(g: Gen)
    requires Ok(g) && g.typ > 0
    ensures Advance(g).rear == (g.rear + 1) % Degree(g.typ)
  {
    hide Degree, Sep, Front;
  }

  /** srandom leaves the rear pointer where it started. */
  lemma SeededRear(t: nat, x: nat)
    requires 0 < t < MAX_TYPES
    ensures Seeded(t, x).rear == 0
  {
    var d := Degree(t);
    RearAfter(Gen(t, Seeds(x, d), 0), 10 * d);
    ModUnique(10 * d, d, 10, 0);
  }

  /** One step of both pointers; they cannot wrap together. */
  lemma Pointers(r: nat, sep: nat, d: nat)
    requires r < d && 0 < sep < d
    ensures var f := (r + sep) % d;
      && f < d
      && (f + 1 >= d ==> r + 1 < d && (r + 1 + sep) % d == 0)
      && (f + 1 < d ==> ((if r + 1 >= d then 0 else r + 1) + sep) % d == f + 1)
      && (r + 1) % d == (if r + 1 >= d then 0 else r + 1)
  {
    Wrap(r + sep, d);
    Wrap(r + 1 + sep, d);
    Wrap(r + 1, d);
    Wrap(sep, d);
  }

  // ---------------------------------------------------------------- the numbers

  /** The word that draw number `n` from `g` on computes. */
  function WordAt(g: Gen, n: nat): nat
    requires Ok(g) && g.typ > 0
  {
    AdvanceBy(g, n + 1).words[Front(AdvanceBy(g, n))]
  }

  /** What the draws return: the upper 31 bits of these words. */
  lemma {:induction false} StreamWords(g: Gen, n: nat, k: nat)
    requires Ok(g) && g.typ > 0 && k < n
    ensures |Stream(g, n)| == n && Stream(g, n)[k] == WordAt(g, k) / 2 % 0x8000_0000
  {
    hide Advance, Front, Degree, Sep;
    if k < n - 1 {
      StreamWords(g, n - 1, k);
    } else {
      StreamLength(g, n - 1);
    }
  }

  lemma {:induction false} StreamLength(g: Gen, n: nat)
    requires Ok(g)
    ensures |Stream(g, n)| == n
  {
    if n > 0 { StreamLength(g, n - 1); }
  }

  /** The place that draw number `n` writes. */
  lemma FrontAt(g: Gen, n: nat)
    requires Ok(g) && g.typ > 0
    ensures Front(AdvanceBy(g, n)) == (g.rear + n + Sep(g.typ)) % Degree(g.typ)
    ensures AdvanceBy(g, n).rear == (g.rear + n) % Degree(g.typ)
  {
    hide Degree, Sep;
    RearAfter(g, n);
    ModPlus(g.rear + n, Sep(g.typ), Degree(g.typ));
  }

  lemma ModPlus(a: nat, b: nat, d: nat)
    requires d > 0
    ensures (a % d + b) % d == (a + b) % d
  {
    var q, r := a / d, a % d;
    assert a == q * d + r;
    var p, s := (r + b) / d, (r + b) % d;
    assert r + b == p * d + s;
    MulPlus(q, p, d);
    ModUnique(a + b, d, q + p, s);
  }

  lemma MulPlus(q: nat, p: nat, d: nat)
    ensures (q + p) * d == q * d + p * d
  {
  }

  /** Within one turn the places differ. */
  lemma TurnApart(a: nat, b: nat, d: nat)
    requires d > 0 && a < b < a + d
    ensures a % d != b % d
  {
    if a % d == b % d {
      var p, q, r := a / d, b / d, a % d;
      assert a == p * d + r && b == q * d + r;
      if p < q { MulLess(p, q, d); }
      if q < p { MulLess(q, p, d); }
      assert false;
    }
  }

  lemma TurnSame(a: nat, d: nat)
    requires d > 0
    ensures (a + d) % d == a % d
  {
    var q, r := a / d, a % d;
    assert a == q * d + r;
    MulStep(q, d);
    ModUnique(a + d, d, q + 1, r);
  }

  /** A word stays where it was written until the front pointer comes round again. */
  lemma {:induction false} WordStays(g: Gen, m: nat, n: nat)
    requires Ok(g) && g.typ > 0 && m < n <= m + Degree(g.typ)
    ensures AdvanceBy(g, n).words[Front(AdvanceBy(g, m))] == WordAt(g, m)
    decreases n
  {
    hide Degree, Sep;
    if n > m + 1 {
      WordStays(g, m, n - 1);
      FrontAt(g, m);
      FrontAt(g, n - 1);
      TurnApart(g.rear + m + Sep(g.typ), g.rear + n - 1 + Sep(g.typ), Degree(g.typ));
    }
  }

  lemma WordSum(g: Gen, n: nat)
    requires Ok(g) && g.typ > 0
    ensures var h := AdvanceBy(g, n);
      WordAt(g, n) == (h.words[Front(h)] + h.words[h.rear]) % WORD
  {
    hide Degree, Sep, Front;
  }

  lemma SamePlaces(g: Gen, n: nat)
    requires Ok(g) && g.typ > 0 && n >= Degree(g.typ)
    ensures Front(AdvanceBy(g, n - Degree(g.typ))) == Front(AdvanceBy(g, n))
    ensures Front(AdvanceBy(g, n - Sep(g.typ))) == AdvanceBy(g, n).rear
  {
    hide Degree, Sep, Front, AdvanceBy, Advance;
    var d, s := Degree(g.typ), Sep(g.typ);
    FrontAt(g, n);
    FrontAt(g, n - d);
    FrontAt(g, n - s);
    TurnSame(g.rear + (n - d) + s, d);
  }

  /** The recurrence of the generator: each word is the sum of the words drawn a degree and a
      separation before it. */
  lemma Recurrence(g: Gen, n: nat)
    requires Ok(g) && g.typ > 0 && n >= Degree(g.typ)
    ensures WordAt(g, n) == (WordAt(g, n - Degree(g.typ)) + WordAt(g, n - Sep(g.typ))) % WORD
  {
    hide Degree, Sep, Front, AdvanceBy, Advance, WordAt;
    WordStays(g, n - Degree(g.typ), n);
    WordStays(g, n - Sep(g.typ), n);
    SamePlaces(g, n);
    WordSum(g, n);
  }

  /** The four trinomials. */
  lemma Trinomials(g: Gen, n: nat)
    requires Ok(g) && g.typ > 0 && n >= 63
    ensures g.typ == 1 ==> WordAt(g, n) == (WordAt(g, n - 7) + WordAt(g, n - 3)) % 0x1_0000_0000
    ensures g.typ == 2 ==> WordAt(g, n) == (WordAt(g, n - 15) + WordAt(g, n - 1)) % 0x1_0000_0000
    ensures g.typ == 3 ==> WordAt(g, n) == (WordAt(g, n - 31) + WordAt(g, n - 3)) % 0x1_0000_0000
    ensures g.typ == 4 ==> WordAt(g, n) == (WordAt(g, n - 63) + WordAt(g, n - 1)) % 0x1_0000_0000
  {
    hide WordAt;
    Recurrence(g, n);
  }

  /** The linear generator of type 0. */
  lemma LinearWords(g: Gen, n: nat)
    requires Ok(g) && g.typ == 0
    ensures AdvanceBy(g, n + 1).words == [(AdvanceBy(g, n).words[0] * 1103515245 + 12345) % 0x8000_0000]
    ensures Drawn(AdvanceBy(g, n)) == AdvanceBy(g, n + 1).words[0]
  {
  }

  // ---------------------------------------------------------------- state arrays

  /** The word that stores a type and a rear place. */
  function Header(t: nat, rear: nat): nat {
    if t == 0 then 0 else MAX_TYPES * rear + t
  }

  lemma HeaderParts(t: nat, rear: nat)
    requires t < MAX_TYPES
    ensures Header(t, rear) % MAX_TYPES == t && (t > 0 ==> Header(t, rear) / MAX_TYPES == rear)
  {
  }

  /** An array that initstate has prepared: its header describes a generator that fits. */
  ghost predicate Prepared(a: array<nat>)
    reads a
  {
    a.Length > 0 && Fitting(a, a[0] % MAX_TYPES, a[0] / MAX_TYPES)
  }

  ghost predicate Fitting(a: array<nat>, t: nat, rear: nat) {
    t < MAX_TYPES && a.Length >= 1 + Words(t) && (t > 0 ==> rear < Degree(t))
  }

  /** The generator in an array, read with a given type and rear place. */
  ghost function Within(a: array<nat>, t: nat, rear: nat): (g: Gen)
    requires Fitting(a, t, rear)
    reads a
    ensures Ok(g)
  {
    Gen(t, a[1..1 + Words(t)], if t == 0 then 0 else rear)
  }

  ghost function Stored(a: array<nat>): (g: Gen)
    requires Prepared(a)
    reads a
    ensures Ok(g)
  {
    Within(a, a[0] % MAX_TYPES, a[0] / MAX_TYPES)
  }

  class Randomizer {
    var tab: array<nat>            // the current array; state is &tab[1]
    var randType: nat
    var deg: nat
    var sep: nat
    var front: nat                 // fptr - state
    var rear: nat                  // rptr - state

    /** Front and rear are always rand_sep places apart. */
    ghost predicate Valid()
      reads this, tab
    {
      && randType < MAX_TYPES && deg == Degree(randType) && sep == Sep(randType) && Fitting(tab, randType, rear)
      && (randType > 0 ==> front == (rear + sep) % deg)
    }

    /** The current generator. */
    ghost function Now(): (g: Gen)
      requires Valid()
      reads this, tab
      ensures Ok(g)
    {
      Within(tab, randType, rear)
    }

    /** random_unlocked: when the front pointer wraps the rear one cannot. */
    method Draw() returns (i: nat)
      requires Valid()
      modifies this, tab
      ensures Valid() && tab == old(tab) && tab[0] == old(tab[0]) && randType == old(randType)
      ensures i == Drawn(old(Now())) && Now() == Advance(old(Now()))
    {
      if randType == 0 {
        i := (tab[1] * 1103515245 + 12345) % HALF;
        tab[1] := i;
        assert tab[1..2] == [i];
      } else {
        i := DrawSum();
      }
    }

    method DrawSum() returns (i: nat)
      requires Valid() && randType > 0
      modifies this`front, this`rear, tab
      ensures Valid() && tab[0] == old(tab[0]) && i == Drawn(old(Now())) && Now() == Advance(old(Now()))
    {
      hide Degree, Sep;
      ghost var g := Now();
      var f, r := front, rear;
      Pointers(r, sep, deg);
      tab[1 + f] := (tab[1 + f] + tab[1 + r]) % WORD;
      i := (tab[1 + f] / 2) % HALF;
      assert tab[1..1 + deg] == g.words[f := (g.words[f] + g.words[r]) % WORD];
      f := f + 1;
      if f >= deg {
        f := 0;
        r := r + 1;
      } else {
        r := r + 1;
        if r >= deg { r := 0; }
      }
      front, rear := f, r;
    }

    /** Any number of draws in a row. */
    method DrawMany(n: nat) returns (xs: seq<nat>)
      requires Valid()
      modifies this, tab
      ensures Valid() && tab == old(tab) && xs == Stream(old(Now()), n) && Now() == AdvanceBy(old(Now()), n)
    {
      hide Advance, Drawn;
      xs := [];
      ghost var g := Now();
      var i := 0;
      while i < n
        invariant i <= n && Valid() && tab == old(tab) && xs == Stream(g, i) && Now() == AdvanceBy(g, i)
      {
        var x := Draw();
        xs := xs + [x];
        i := i + 1;
      }
    }

    /** The linear fill of srandom_unlocked. */
    method Fill(x: nat)
      requires Valid() && randType > 0
      modifies tab
      ensures Valid() && tab[0] == old(tab[0]) && tab[1..1 + deg] == Seeds(x, deg)
    {
      hide Degree, Sep;
      tab[1] := x;
      var i := 1;
      while i < deg
        invariant 1 <= i <= deg && tab[0] == old(tab[0]) && tab[1..1 + i] == Seeds(x, i)
      {
        ghost var s := Seeds(x, i);
        assert s[i - 1] == tab[1..1 + i][i - 1] == tab[i];
        tab[1 + i] := (1103515245 * tab[i] + 12345) % WORD;
        i := i + 1;
        assert tab[1..1 + i] == s + [tab[i]];
      }
    }

    /** srandom_unlocked. */
    method Srandom(x: nat)
      requires Valid()
      modifies this, tab
      ensures Valid() && tab == old(tab) && tab[0] == old(tab[0]) && randType == old(randType)
      ensures Now() == Seeded(randType, x) && (randType > 0 ==> rear == 0 && front == sep)
    {
      hide Degree, Sep, Advance, Seeds;
      if randType == 0 {
        tab[1] := x;
        assert tab[1..2] == [x];
        return;
      }
      Fill(x);
      front, rear := sep, 0;
      Wrap(sep, deg);
      ghost var g := Now();
      var i := 0;
      while i < 10 * deg
        invariant i <= 10 * deg && Valid() && tab == old(tab) && tab[0] == old(tab[0])
        invariant randType == old(randType) && Now() == AdvanceBy(g, i)
      {
        var ignored := Draw();
        i := i + 1;
      }
      SeededRear(randType, x);
    }

    /** Writing the header of the array in use. */
    method Save()
      requires Valid()
      modifies tab
      ensures Valid() && tab[0] == Header(randType, rear) && Now() == old(Now()) && Prepared(tab) &&
        Stored(tab) == Now()
      ensures tab[1..] == old(tab[1..])
    {
      HeaderParts(randType, rear);
      if randType == 0 { tab[0] := randType; } else { tab[0] := MAX_TYPES * rear + randType; }
      assert tab[1..1 + Words(randType)] == old(tab[1..1 + Words(randType)]);
    }

    /** A randomizer working in an array of 32 words, seeded with 1. */
    constructor (table: array<nat>)
      requires table.Length == 32
      modifies table
      ensures Valid() && tab == table && Now() == Seeded(3, 1) && Prepared(table) && Stored(table) == Now()
    {
      tab, randType, deg, sep, front, rear := table, 3, 31, 3, 3, 0;
      new;
      Srandom(1);
      Save();
    }

    /** initstate for an array of `n` bytes. */
    method InitState(seed: nat, a: array<nat>, n: nat) returns (previous: array?<nat>)
      requires Valid() && n <= 4 * a.Length
      modifies this, tab, a
      ensures Valid()
      ensures n < 8 ==>
        previous == null && tab == old(tab) && Now() == old(Now()) && Prepared(tab) && Stored(tab) == Now()
      ensures n >= 8 ==>
        previous == old(tab) && tab == a && Now() == Seeded(TypeFor(n), seed) && Prepared(a) && Stored(a) == Now()
      ensures a != old(tab) ==> Prepared(old(tab)) && Stored(old(tab)) == old(Now())
      ensures n < 8 && a != old(tab) ==> a[..] == old(a[..])
    {
      hide Seeded, Header;
      previous := tab;
      Save();
      if n < 8 { return null; }
      randType := TypeFor(n);
      deg, sep := Degree(randType), Sep(randType);
      tab := a;
      front, rear := sep, 0;
      if randType > 0 { Wrap(sep, deg); }
      Srandom(seed);
      Save();
    }

    /** setstate: the type and place come from the header as it was before the current
        position is saved. */
    method SetState(a: array<nat>) returns (previous: array<nat>)
      requires Valid() && Prepared(a)
      modifies this, tab
      ensures Valid() && previous == old(tab) && tab == a && Now() == old(Stored(a)) && Prepared(a)
      ensures a != old(tab) ==> Stored(a) == Now() && Prepared(old(tab)) && Stored(old(tab)) == old(Now())
      ensures a == old(tab) ==> (Now() == old(Now()) <==> Fresh(old(tab[0]), old(randType), old(rear)))
    {
      hide Degree, Sep, Header, Words;
      var typ, at := a[0] % MAX_TYPES, a[0] / MAX_TYPES;
      previous := tab;
      ghost var words := a[1..1 + Words(typ)];
      Save();
      assert a[1..1 + Words(typ)] == words;
      if a == tab { SameWords(a, randType, rear, typ, at); }
      Switch(a, typ, at);
      if a != previous { assert Stored(a) == Within(a, typ, at); }
    }

    /** The generator of the given type and place in the array becomes the current one. */
    method Switch(a: array<nat>, typ: nat, at: nat)
      requires Fitting(a, typ, at)
      modifies this
      ensures Valid() && tab == a && Now() == Within(a, typ, at)
    {
      hide Degree, Sep, Words;
      randType := typ;
      deg, sep := Degree(typ), Sep(typ);
      tab := a;
      if randType != 0 {
        rear := at;
        front := (at + sep) % deg;
      }
    }
  }

  /** Two readings of one array agree just when type and place do. */
  lemma SameWords(a: array<nat>, t: nat, rear: nat, u: nat, at: nat)
    requires Fitting(a, t, rear) && Fitting(a, u, at)
    ensures Within(a, t, rear) == Within(a, u, at) <==> t == u && (t > 0 ==> rear == at)
  {
  }

  /** The stored header still tells where the generator is. */
  predicate Fresh(header: nat, t: nat, rear: nat) {
    header % MAX_TYPES == t && (t > 0 ==> header / MAX_TYPES == rear)
  }

  /** The generator initstate chooses for a number of bytes. */
  function TypeFor(n: nat): (t: nat)
    requires n >= 8
    ensures t < MAX_TYPES && 4 * (1 + Words(t)) <= n
    ensures forall u: nat :: t < u < MAX_TYPES ==> n < 4 * (1 + Words(u))
  {
    if n < 32 then 0 else if n < 64 then 1 else if n < 128 then 2 else if n < 256 then 3 else 4
  }

  /** setstate with the array in use is not always harmless: after one draw the header is out
      of date and the generator goes back to where it was seeded. */
  method StaleHeader(seed: nat) returns (before: nat, after: nat)
    ensures before == 1 && after == 0
  {
    var table := new nat[32](_ => 0);
    var mine := new nat[8](_ => 0);
    var r := new Randomizer(table);
    var o := r.InitState(seed, mine, 32);
    SeededRear(1, seed);
    var i := r.Draw();
    before := r.rear;
    var p := r.SetState(mine);
    after := r.rear;
  }

  datatype Call = DrawCall | SeedCall(x: nat) | InitCall(x: nat, k: nat, n: nat) | SetCall(k: nat)

  /** The call leaves the array in use for another one: initstate with room for a generator, or
      setstate to an array that has been prepared. */
  predicate Leaves(c: Call, sizes: seq<nat>, ready: set<nat>) {
    match c
    case InitCall(x, k, n) => k < |sizes| && 8 <= n <= 4 * sizes[k]
    case SetCall(k) => k < |sizes| && k in ready
    case _ => false
  }

  /** The call may be made at any time: an array has the size that is claimed for it, and
      setstate gets an array that has been prepared. */
  predicate Allowed(c: Call, sizes: seq<nat>, ready: set<nat>) {
    match c
    case InitCall(x, k, n) => k < |sizes| && n <= 4 * sizes[k]
    case SetCall(k) => k < |sizes| && k in ready
    case _ => true
  }

  /** The arrays known to be prepared after the call. */
  function ReadyAfter(c: Call, ready: set<nat>): set<nat> {
    if c.InitCall? && c.n >= 8 then ready + {c.k} else ready
  }

  ghost predicate Sized(others: seq<array<nat>>, sizes: seq<nat>, ready: set<nat>)
    reads others
  {
    && |sizes| == |others| && (forall k: nat :: k < |others| ==> others[k].Length == sizes[k])
    && forall k: nat :: k < |others| && k in ready ==> Prepared(others[k])
  }

  /** One call on the other arrays. */
  method Do(r: Randomizer, others: seq<array<nat>>, sizes: seq<nat>, ready: set<nat>, c: Call, ghost mine: array<nat>)
    requires r.Valid() && Sized(others, sizes, ready) && Allowed(c, sizes, ready) && mine !in others
    requires r.tab in others || (r.tab == mine && Leaves(c, sizes, ready))
    modifies r, r.tab, others
    ensures r.Valid() && r.tab in others && Sized(others, sizes, ReadyAfter(c, ready))
    ensures if old(r.tab) == mine then Prepared(mine) && Stored(mine) == old(r.Now()) else mine[..] == old(mine[..])
  {
    hide Degree, Sep, Advance, Seeded, Drawn, Header, Words;
    match c {
      case DrawCall => var i := r.Draw();
      case SeedCall(x) => r.Srandom(x);
      case InitCall(x, k, n) => var p := r.InitState(x, others[k], n);
      case SetCall(k) => var p := r.SetState(others[k]);
    }
  }

  /** A generator in use is left for another array, fresh or prepared before; whatever is done
      then with other arrays, setstate back resumes exactly the generator that was left. */
  method Interrupt(r: Randomizer, others: seq<array<nat>>, sizes: seq<nat>, prepared: set<nat>, calls: seq<Call>)
    requires r.Valid() && r.tab !in others && Sized(others, sizes, prepared)
    requires calls != [] && Leaves(calls[0], sizes, prepared)
    modifies r, r.tab, others
    ensures r.Valid() && r.tab == old(r.tab) && r.Now() == old(r.Now())
  {
    hide Degree, Sep, Advance, Seeded, Drawn, Header, Words;
    var mine := r.tab;
    ghost var g := r.Now();
    Do(r, others, sizes, prepared, calls[0], mine);
    var ready := ReadyAfter(calls[0], prepared);
    var k := 1;
    while k < |calls|
      invariant 1 <= k <= |calls| && r.Valid() && r.tab in others && Sized(others, sizes, ready)
      invariant Prepared(mine) && Stored(mine) == g
    {
      if Allowed(calls[k], sizes, ready) {
        Do(r, others, sizes, ready, calls[k], mine);
        ready := ReadyAfter(calls[k], ready);
      }
      k := k + 1;
    }
    var q := r.SetState(mine);
  }
}
