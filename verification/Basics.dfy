/** Constants of the machine and facts about remainders, powers and sequences that several
    components share. */
module Basics {
  const PAGE: nat := 4096
  const WORD: nat := 0x1_0000_0000   // one more than the largest 32-bit word
  const HALF: int := 0x8000_0000
  const HIGH: nat := 15              // the spl that keeps every interrupt out

  function Pow2(n: nat): (p: nat)
    ensures 0 < p
  {
    if n == 0 then 1 else 2 * Pow2(n - 1)
  }

  ghost predicate Distinct(xs: seq<nat>) {
    forall i: nat, j: nat :: i < j < |xs| ==> xs[i] != xs[j]
  }

  lemma {:induction false} MulLess(p: nat, q: nat, d: nat)
    requires p < q
    ensures p * d + d <= q * d
  {
    if p + 1 < q { MulLess(p, q - 1, d); }
    MulStep(q - 1, d);
  }

  lemma MulStep(p: nat, d: nat)
    ensures (p + 1) * d == p * d + d
  {
  }

  /** Quotient and remainder are unique. */
  lemma ModUnique(n: nat, d: nat, q: nat, r: nat)
    requires 0 < d && n == q * d + r && r < d
    ensures n % d == r
  {
    var p := n / d;
    assert n == p * d + n % d;
    if p < q { MulLess(p, q, d); }
    if q < p { MulLess(q, p, d); }
  }

  /** Within two turns of a circle. */
  lemma Wrap(k: nat, d: nat)
    requires 0 < d && k < 2 * d
    ensures k % d == if k < d then k else k - d
  {
  }

  /** One step round a circle. */
  lemma WrapNext(k: nat, d: nat)
    requires d > 0
    ensures (k % d + 1) % d == (k + 1) % d
  {
    var q, r := k / d, k % d;
    assert k == q * d + r;
    if r + 1 == d {
      MulStep(q, d);
      ModUnique(k + 1, d, q + 1, 0);
    } else {
      ModUnique(k + 1, d, q, r + 1);
      Wrap(r + 1, d);
    }
  }
}
