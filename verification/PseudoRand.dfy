/** The Park-Miller generator: src/kern/dev/generic/pseudorand.c. */
module PseudoRand {
  const MULTIPLIER: int := 16807
  const MODULUS: int := 0x7fff_ffff
  const K1: int := 127773
  const K2: int := 2836
  const INVERSE: int := 1407677000   // of MULTIPLIER modulo MODULUS

  predicate Int32(x: int) { -0x8000_0000 <= x <= 0x7fff_ffff }
  predicate Seed(x: int) { 1 <= x < MODULUS }

  /** The step the generator is meant to make. */
  function Next(seed: int): int {
    (MULTIPLIER * seed) % MODULUS
  }

  lemma Divides(n: int, q: int, r: int)
    requires n == q * MODULUS + r && 0 <= r < MODULUS
    ensures n % MODULUS == r
  {
  }

  /** Multiplying by the inverse takes a step back. */
  lemma Back(seed: int)
    requires Seed(seed)
    ensures (INVERSE * Next(seed)) % MODULUS == seed
  {
    var k := MULTIPLIER * seed / MODULUS;
    assert Next(seed) == MULTIPLIER * seed - k * MODULUS;
    var c := (INVERSE * MULTIPLIER - 1) / MODULUS;
    assert INVERSE * MULTIPLIER == c * MODULUS + 1;
    Divides(INVERSE * Next(seed), c * seed - INVERSE * k, seed);
  }

  /** A step from a seed is a seed: it cannot be 0, because the multiplier has an inverse. */
  lemma NextSeed(seed: int)
    requires Seed(seed)
    ensures Seed(Next(seed))
  {
    Back(seed);
  }

  /** Two seeds never lead to the same one. */
  lemma NextInjective(x: int, y: int)
    requires Seed(x) && Seed(y) && Next(x) == Next(y)
    ensures x == y
  {
    Back(x);
    Back(y);
  }

  /** The intermediate values of the step fit in 32 bits, and the difference is the product
      up to a multiple of the modulus. */
  lemma Schrage(seed: int)
    requires Seed(seed)
    ensures var hi, lo := seed / K1, seed % K1;
      var tmp := MULTIPLIER * lo - K2 * hi;
      && Int32(MULTIPLIER * lo) && Int32(K2 * hi) && Int32(tmp) && tmp > -MODULUS
      && tmp != 0 && Next(seed) == (if tmp <= 0 then tmp + MODULUS else tmp)
      && Int32(if tmp <= 0 then tmp + MODULUS else tmp)
  {
    var hi, lo := seed / K1, seed % K1;
    var tmp := MULTIPLIER * lo - K2 * hi;
    assert MULTIPLIER * seed == tmp + hi * MODULUS;
    NextSeed(seed);
    if tmp <= 0 {
      if tmp == 0 {
        Divides(MULTIPLIER * seed, hi, 0);
        assert false;
      }
      Divides(MULTIPLIER * seed, hi - 1, tmp + MODULUS);
    } else {
      Divides(MULTIPLIER * seed, hi, tmp);
    }
  }

  class Device {
    var seed: int

    ghost predicate Valid()
      reads this
    {
      Seed(seed)
    }

    constructor ()
      ensures Valid()
    {
      seed := 305824;
    }

    /** pseudorand_random: every operation on int32_t stays in range. */
    method Random() returns (r: int)
      requires Valid()
      modifies this
      ensures Valid() && seed == Next(old(seed)) && r == seed - 1 && 0 <= r <= MODULUS - 2
    {
      Schrage(seed);
      NextSeed(seed);
      var hi, lo := seed / K1, seed % K1;
      var product := MULTIPLIER * lo;
      assert Int32(product);
      var tmp := product - K2 * hi;
      assert Int32(K2 * hi) && Int32(tmp);
      if tmp <= 0 {
        tmp := tmp + MODULUS;
        assert Int32(tmp);
      }
      seed := tmp;
      r := seed - 1;
    }
  }

  function Power(n: nat): int {
    if n == 0 then 1 else (MULTIPLIER * Power(n - 1)) % MODULUS
  }

  /** Over a whole run the seed is multiplied by a power of the multiplier. */
  method RunDevice(d: Device, n: nat) returns (rs: seq<int>)
    requires d.Valid()
    modifies d
    ensures d.Valid() && |rs| == n && d.seed == (Power(n) * old(d.seed)) % MODULUS
    ensures forall i: nat :: i < n ==> rs[i] == (Power(i + 1) * old(d.seed)) % MODULUS - 1
  {
    ghost var s := d.seed;
    rs := [];
    var i := 0;
    while i < n
      invariant i <= n && d.Valid() && |rs| == i && d.seed == (Power(i) * s) % MODULUS
      invariant forall j: nat :: j < i ==> rs[j] == (Power(j + 1) * s) % MODULUS - 1
    {
      PowerNext(i, s);
      var r := d.Random();
      rs := rs + [r];
      i := i + 1;
    }
  }

  lemma PowerNext(n: nat, s: int)
    ensures Next((Power(n) * s) % MODULUS) == (Power(n + 1) * s) % MODULUS
  {
    var p := Power(n);
    var a := p * s / MODULUS;
    var x := (p * s) % MODULUS;
    assert p * s == a * MODULUS + x;
    var b := MULTIPLIER * p / MODULUS;
    var y := (MULTIPLIER * p) % MODULUS;
    assert MULTIPLIER * p == b * MODULUS + y;
    var c := MULTIPLIER * x / MODULUS;
    var z := (MULTIPLIER * x) % MODULUS;
    assert MULTIPLIER * x == c * MODULUS + z;
    assert y * s == (MULTIPLIER * p - b * MODULUS) * s == MULTIPLIER * (p * s) - (b * s) * MODULUS;
    assert y * s == (MULTIPLIER * a + c - b * s) * MODULUS + z;
    Divides(y * s, MULTIPLIER * a + c - b * s, z);
  }
}
